# django-db-locking: the lock table and its lifecycle, in Dafny

This project models the core of `django-db-locking`: named, non-blocking
leases kept as rows of a table whose `locked_object` column is unique. A
caller acquires a name, renews the lease, and releases it. An expired lease
can be taken over by the next acquirer. A periodic sweep deletes expired rows.

## Files and modules

- `outcomes.dfy` (`Outcomes`): the lock exceptions (`AlreadyLocked`,
  `NotLocked`, `NonexistentLock`, `Expired`, `RenewalError`) and the
  `Result`/`Option` types that carry them.
- `lock_names.dfy` (`LockNames`): `_get_lock_name`, i.e.
  `'%s.%s__%d' % (module, class, id)`, with Python's `%d` written out. It
  comes with a parser for the decimal suffix and a proof that the two round-trip.
- `lock_table.dfy` (`LockTable`): the table as a value. A `Row` holds the
  name, `created_on`, `renewed_on`, `expires_on` and `max_age`; the rows are
  a map keyed by lock id. The module also holds the two expiry predicates,
  the `pre_save` timestamp rule, `save` as an upsert under the unique-name
  constraint, and the whole of `acquire_lock` as one atomic transition
  (`AcquireStep`). Its lemmas state the properties of these.
- `models.dfy` (`Models`): class `LockStore` holds the manager's state:
  - the table (`rows`);
  - an integer clock in seconds (`now`), which replaces `timezone.now()`
    and the tests' `freeze_time`;
  - a fresh-id counter (`nextId`), which replaces `uuid.uuid4`;
  - the `LOCK_MAX_AGE` setting together with `DEFAULT_MAX_AGE`.

  `acquire_lock`, `renew_lock`, `release_lock`, `is_locked` and
  `get_expired_locks` are its methods and functions, each one atomic. Each
  method's postcondition gives the new table as a function of the old one.
  Class `NonBlockingLock` is a caller's instance: a local copy of the row's
  fields, its primary key, and the `unlocked` flag. Its `release`, `renew`,
  `is_expired`, `__enter__` and `__exit__` act on the local copy and then
  on the store.
- `tasks.dfy` (`Tasks`): `clean_expired_locks`, which deletes every row
  `get_expired_locks` returns, plus lemmas about the swept table.
- `scenarios.dfy` (`Scenarios`): the test cases of `locking/tests.py`, one
  method each. A method replays its test on a new store, and its
  postcondition states what the test asserts.

Times are whole seconds; `now + timedelta(seconds=max_age)` is integer
addition. `max_age` is a `nat`, because it is a positive-integer column.
When `max_age` is omitted, acquire takes the current `LOCK_MAX_AGE` setting.
If that is unset, it takes `DEFAULT_MAX_AGE`: the setting read at import
time, or 0 ("forever").

## The expiry boundary

The two expiry predicates differ at one instant:
- An instance is expired iff `max_age != 0 && expires_on < now` (strict).
- The queries count a row as *not* expired iff `max_age == 0 || expires_on > now`.

So when `expires_on == now`:
- `is_locked` is false;
- `get_expired_locks` and the sweep include the row;
- `acquire_lock`, which uses the instance predicate, still refuses with
  `AlreadyLocked`.

`LockTable.ExpiryPredicatesDiffer` and `LockTable.ExpiryInstant` prove this.

## Identity of renewed and released instances

- Django clears an instance's primary key when the instance is deleted.
  Saving an instance without a primary key takes the `UUIDField` default, a
  new id. The model follows this: `NonBlockingLock.id` is an `Option`,
  `Release` sets it to `None`, and `Renew` asks the store for a new id when
  it is `None`.
- `renew` never checks that its row still exists. It checks the instance's
  local copy for expiry and then saves, and the save is an UPDATE, or an
  INSERT when the id has no row.
- So an instance whose row was deleted through `release_lock`, by a
  different instance, saves itself back under its old id if the name is
  still free. The comment at locking/models.py:68-70 gives a takeover a new
  id so that a previous owner does not keep the active id; on this path the
  previous owner gets its old id back. `Scenarios.RenewAfterReleaseLock`
  shows it.
- An instance released through itself and then renewed inserts a new row
  under a new id, yet it stays marked `unlocked`.
  `Scenarios.RenewAfterOwnRelease` shows it.
- When the name is held under another id, the save fails and then
  `renew` raises `RenewalError` (`LockTable.SaveAfterTakeover`).
- `renew` looks at the instance's local copy, not at the stored row, when
  it decides `Expired`.

## Model

| member | source | states |
|---|---|---|
| `LockNames.Digits` | locking/models.py:31 | the `%d` digits of a natural number: non-empty, all decimal digits, no leading zero |
| `LockNames.DigitsRoundTrip` | locking/models.py:31 | reading the digits back gives the number |
| `LockNames.Decimal` | locking/models.py:31 | Python's `%d`: non-empty, a leading minus sign exactly for negative numbers, decimal digits after it; inverted by `ParseDecimal` (`DecimalRoundTrip`) |
| `LockNames.DecimalRoundTrip` | locking/models.py:31 | `ParseDecimal(Decimal(n)) == Some(n)` for every integer, negative ones included |
| `LockNames.DecimalInjective` | locking/models.py:31 | distinct integers format to distinct strings |
| `LockNames.LockName` | locking/models.py:22-31 | the lock name starts with the module, is longer than module and class plus the three separator characters, and ends with the decimal id, which parses back to the id (what `test_model` checks) |
| `LockNames.LockNameInjective` | locking/models.py:22-31 | two objects of the same module and class share a lock name only if their ids are equal |
| `LockTable.DefaultMaxAge` | locking/models.py:17-19 | `DEFAULT_MAX_AGE` is the `LOCK_MAX_AGE` setting seen at import, or the never-expire sentinel 0 when it is unset |
| `LockTable.EffectiveMaxAge` | locking/models.py:48-49 | a given max_age is used as it is; an omitted one is the current `LOCK_MAX_AGE`, or `DEFAULT_MAX_AGE` when the setting is unset |
| `LockTable.MaxAgeDefaulting` | locking/models.py:17-49 | the whole default rule: a given max_age wins; an omitted one is the current setting, else the import-time setting, else 0; with the setting unchanged since import that is the setting or 0 |
| `LockTable.IsExpired` | locking/models.py:242-252 | never expired with max_age 0; whatever it calls expired the expired query matches too |
| `LockTable.NotExpiredLookup` | locking/models.py:137-144 | every max_age 0 row is matched, at any time |
| `LockTable.NotExpiredEarlier` | locking/models.py:137-144 | a row matched at some time is matched at every earlier time |
| `LockTable.ExpiredLookup` | locking/models.py:146-152 | matches exactly the rows with max_age != 0 and expires_on <= now |
| `LockTable.ForeverNeverExpires` | locking/models.py:242-252 | with max_age 0 a row is never `is_expired` and is never matched by the expired query, at any time |
| `LockTable.ExpiryPredicatesDiffer` | locking/models.py:137-152 | `is_expired` implies the expired query; the query matches exactly when max_age != 0 and expires_on <= now; the two disagree exactly when expires_on == now |
| `LockTable.PreSave` | locking/models.py:255-266 | unset created_on and renewed_on become now and set ones are kept; expires_on is renewed_on + max_age; the row is live at renewed_on under both predicates and not `is_expired` at expires_on; it is in time order when created_on <= renewed_on |
| `LockTable.NewRow` | locking/models.py:56-72 | a created row has the given name and max_age, created_on = renewed_on = now and expires_on = now + max_age, is in time order, and is live at its creation instant under both predicates |
| `LockTable.Renewed` | locking/models.py:231-240 | renewal sets renewed_on = now and expires_on = now + max_age and keeps name, created_on and max_age; the renewed row is not `is_expired` at any time up to its new expires_on, and is in time order when renewed no earlier than created |
| `LockTable.RowsInOrderLater` | locking/models.py:255-266 | rows in time order and written no later than now stay so when the clock moves forward |
| `LockTable.HolderUnique` | locking/models.py:173-174 | under the unique name column a stored name has exactly one holder id |
| `LockTable.Save` | locking/models.py:237-240 | a save fails exactly when another id holds the name; on success the saved row stands under its id and every other row is unchanged |
| `LockTable.SavePreservesInvariant` | locking/models.py:173-174 | a successful save keeps names unique and ids below the fresh-id counter |
| `LockTable.SaveKeepsOrder` | locking/models.py:237-240 | a successful save of a row in time order, written no later than now, keeps every row in time order |
| `LockTable.RenewInPlace` | locking/models.py:81-95 | renewing a stored row under its own id always saves, changing only that row |
| `LockTable.SaveAfterTakeover` | locking/models.py:231-240 | saving under an id that is gone while another id holds the name fails (RenewalError) |
| `LockTable.AcquireStep` | locking/models.py:54-79 | a refusal is always AlreadyLocked; a success puts a `NewRow` for the name under the fresh id `nextId`, and removes only expired holders of that name |
| `LockTable.AcquireRefusal` | locking/models.py:63-74 | acquire refuses iff some row for the name is not `is_expired`, and then with AlreadyLocked |
| `LockTable.AcquireSuccess` | locking/models.py:54-79 | a successful acquire inserts one row under the fresh id with the stated timestamps, removes only the expired holder of that name, keeps every other row, leaves the new id the name's only holder, and keeps the table invariant and the time order of the rows |
| `LockTable.AcquireExcludesWhileLive` | locking/models.py:63-74 | after an acquire, a second acquire of the name refuses with AlreadyLocked at any time up to the new expiry (always, for max_age 0) |
| `LockTable.AcquireReleaseAcquire` | locking/models.py:63-72 | acquire, release, acquire: the second acquire succeeds with an id different from the first |
| `LockTable.ExpiredRows` | locking/models.py:128-152 | the expired rows are exactly the stored rows with max_age != 0 and expires_on <= now, unchanged |
| `LockTable.IsLockedExactly` | locking/models.py:112-126 | a name is locked iff some row for it lies outside the expired rows |
| `LockTable.ExpiryInstant` | locking/models.py:118-152 | at expires_on == now: not locked, listed as expired, yet acquire refuses with AlreadyLocked |
| `Models.TargetName` | locking/models.py:51-52 | a given object overrides `lock_name` with its derived name; without one `lock_name` is used as it is |
| `Models.LockStore.constructor` | locking/models.py:17-19 | an empty table; the setting and `DEFAULT_MAX_AGE` taken from the import-time setting |
| `Models.LockStore.SetClock` | locking/tests.py:55-57 | the clock moves forward to the given time (freezing time in the tests), keeping the store's invariant, time order included |
| `Models.LockStore.SetLockMaxAge` | locking/tests.py:169-170 | the `LOCK_MAX_AGE` setting is overridden, keeping the store's invariant |
| `Models.LockStore.NewId` | locking/models.py:171 | a new primary key that no row carries |
| `Models.LockStore.Delete` | locking/models.py:225 | exactly the rows with the given ids are deleted, every other row stays, and the invariant is kept |
| `Models.LockStore.Save` | locking/models.py:237-240 | the table becomes the result of the upsert, or stays as it was when the upsert fails |
| `Models.LockStore.Create` | locking/models.py:72 | a row for a free name under a fresh id with `pre_save`'s timestamps, and an instance holding it |
| `Models.LockStore.FilterLockForObj` | locking/models.py:112-113 | exactly the rows whose `locked_object` is the object's lock name, and at most one under the unique name column |
| `Models.LockStore.FilterActiveLockForObj` | locking/models.py:115-116 | exactly the rows for the object's name that are not among `get_expired_locks` |
| `Models.LockStore.IsLocked` | locking/models.py:118-126 | locked iff some row for the object's name is not among `get_expired_locks`; a query that changes nothing |
| `Models.LockStore.GetExpiredLocks` | locking/models.py:128-135 | exactly the rows with max_age != 0 and expires_on <= now; a query that changes nothing |
| `Models.LockStore.AcquireLock` | locking/models.py:38-79 | the new table and counter are those of `AcquireStep` for the resolved name and max_age; on success a new unreleased instance carrying the new row and id; on refusal AlreadyLocked and nothing changes |
| `Models.LockStore.RenewLock` | locking/models.py:81-95 | NonexistentLock for an unknown id, Expired for an expired row, both leaving the table unchanged; otherwise the row is renewed under the same id |
| `Models.LockStore.ReleaseLock` | locking/models.py:97-110 | NotLocked for an unknown id with the table unchanged; otherwise exactly that row is deleted and a released instance is returned |
| `Models.NonBlockingLock.constructor` | locking/models.py:171-194 | an instance carrying the row's fields and id, not yet released |
| `Models.NonBlockingLock.IsExpired` | locking/models.py:242-252 | never expired with max_age 0; an expired instance's local copy is matched by the expired query too |
| `Models.NonBlockingLock.Enter` | locking/models.py:208-209 | entering the context gives the lock itself |
| `Models.NonBlockingLock.Exit` | locking/models.py:211-215 | leaving the context releases silently: deletes the row on a first release, else touches nothing |
| `Models.NonBlockingLock.Release` | locking/models.py:217-229 | the first call deletes the row under its id and returns true; later calls leave the store untouched and raise NotLocked only when not silent |
| `Models.NonBlockingLock.Renew` | locking/models.py:231-240 | Expired when the local copy is expired, with nothing changed; else the local copy is renewed and saved under its id (a new id if it has none), with RenewalError when the save fails |
| `Tasks.CleanExpiredLocks` | locking/tasks.py:7-12 | the table becomes the swept table: every row the expired query matches is deleted |
| `Tasks.SweepLeavesNoExpired` | locking/tasks.py:12 | after the sweep no row is matched by the expired query |
| `Tasks.Swept` | locking/tasks.py:12 | a row survives the sweep iff `not_expired_lookup` matches it, and survives unchanged |
| `Tasks.SweepKeepsForever` | locking/tasks.py:12 | a max_age 0 row survives every sweep, however late |
| `Tasks.SweepOneSecondLater` | locking/tasks.py:12 | a row created with max_age 1 is swept exactly one second later, though it is not yet `is_expired` then |
| `Tasks.SweepIdempotent` | locking/tasks.py:12 | sweeping twice at the same time is sweeping once |
| `Tasks.SweepPreservesInvariant` | locking/tasks.py:12 | the sweep keeps names unique, ids below the counter, and the rows in time order |
| `Scenarios.AcquireAndRelease` | locking/tests.py:24-34 | locked after acquire, free after release, a non-silent second release raises NotLocked, the name can be locked again and `release_lock` frees it |
| `Scenarios.RenewIntegrityError` | locking/tests.py:44-51 | locked after acquire, free after `release_lock`, locked again after a new acquire; renewing the old instance then raises RenewalError |
| `Scenarios.ExpiredLockIsNotLocked` | locking/tests.py:53-58 | an hour after a one-second lease the object is not locked |
| `Scenarios.AcquireAndRenew` | locking/tests.py:60-71 | renewal an hour later moves expires_on later, and `renew_lock` keeps the id and the expiry |
| `Scenarios.RenewExpired` | locking/tests.py:73-77 | renewing a lapsed one-second lease raises Expired |
| `Scenarios.UnknownId` | locking/tests.py:79-85 | renew_lock and release_lock of an unknown id raise NonexistentLock and NotLocked |
| `Scenarios.LockTwice` | locking/tests.py:87-93 | locked after the first acquire; a second acquire raises AlreadyLocked and the object stays locked |
| `Scenarios.UnlockTwice` | locking/tests.py:95-101 | locked after acquire; the first release returns true and frees the object; a second silent release raises nothing |
| `Scenarios.LockFields` | locking/tests.py:103-113 | the lock name is `_get_lock_name(user)` and ends in the user id; max_age and a given lock name are kept |
| `Scenarios.Relock` | locking/tests.py:115-123 | an hour after a ten-second lease the old instance is expired and the name is acquired anew with a different created_on |
| `Scenarios.ExpiredLocks` | locking/tests.py:125-134 | of a max_age 0 lock and a max_age 1 lock, an hour later only the second is expired, and exactly one row is listed as expired |
| `Scenarios.LockRefNameDiffers` | locking/tests.py:127-129 | a lock taken on a `NonBlockingLock` row never has the user's lock name, so the second acquire of the test finds its name free |
| `Scenarios.ContextManager` | locking/tests.py:136-140 | locked inside the `with` block, free after it |
| `Scenarios.Clean` | locking/tests.py:148-156 | the sweep leaves exactly the never-expiring lock |
| `Scenarios.ImplicitCleaningDisabled` | locking/tests.py:158-178 | with `LOCK_MAX_AGE` unset or 0, a lock taken without max_age survives a sweep any time later |
| `Scenarios.ImplicitCleaningOneSecond` | locking/tests.py:180-189 | with `LOCK_MAX_AGE = 1`, a lock taken without max_age is swept one second later |
| `Scenarios.RenewAfterReleaseLock` | locking/models.py:231-240 | renewing an instance whose row was deleted through `release_lock` re-inserts it under the old id |
| `Scenarios.RenewAfterOwnRelease` | locking/models.py:217-240 | renewing an instance released through itself inserts a row under a new id |

## Left out

- Models.LockStore.SetClock: the clock only moves forward (`requires now <= t`). The tests only ever move `freeze_time` forward. A clock moved back could leave a stored row with renewed_on in the future, and the time-order invariant would not hold.
- Models.LockStore.AcquireLock: a negative max_age is excluded by the `nat` type. In the source, such a value gives an expires_on in the past, and the insert breaks the positive-integer check of the max_age column (locking/models.py:190). On a backend that enforces that check, the IntegrityError becomes AlreadyLocked at locking/models.py:76-77, even for a free name. Other backends give a data error, or store the value unchecked.

- The IntegrityError race in `acquire_lock` (locking/models.py:54, 76-77): each manager call is one atomic step on one store, so a second acquirer cannot slip in between, and the branch that maps a late IntegrityError to AlreadyLocked cannot be reached.
- The Django ORM, QuerySets and `Q` objects, and the `pre_save` signal mechanism: they become functions over a map and explicit field computation. The `raw` flag of `lock_pre_save` (fixture loading) is not modelled.
- Time zones and sub-second timestamps (locking/tests.py:36-42): times are whole seconds on an integer clock, and datetime overflow is not modelled.
- UUID randomness: ids come from a counter, so "fresh" means "never handed out before".
- LockNames.ModelRef: the object's id is an `int`, so an unsaved object (id None) cannot be expressed. For such an object `'%d' % obj.id` raises TypeError in `_get_lock_name` (locking/models.py:31), and no lock name results.
- LockTable.Row: `max_age` is a `nat` without an upper bound. The positive-integer column (locking/models.py:190) also has a backend-specific maximum, and a larger value fails when stored; the model accepts it.
- The `max_length=255` limit on `locked_object` is not enforced.
- `Meta.ordering` by `created_on`: `get_expired_locks` returns a map of rows, not an ordered QuerySet.
- `__unicode__` (a display string) and the unused field default `max_age=DEFAULT_MAX_AGE`: every path that creates a row passes max_age explicitly.
- `Model.delete()`'s returned count is ignored by every caller and is not modelled.
- The Celery `@shared_task` decorator on `clean_expired_locks`: a foreign scheduler. Only the delete it runs is modelled.
- `locking/management/commands/clean_expired_locks.py` is not part of this model. It imports a `Lock` model that no longer exists, and its dry-run only prints a count.
- `locking/exceptions.py`: it is a class hierarchy, and it lacks three of the exceptions models.py imports. The outcomes are the `LockError` datatype instead.
- The migrations, the admin, `setup.py` and `locking/__init__.py`: schema history, UI, packaging and a version string.
