/** The lock table as a value: its rows, the two expiry predicates, the
    timestamp rule of the `pre_save` hook, the save (upsert) rule under the
    unique `locked_object` column, and the acquire step as one atomic
    transition. The store class in module Models applies these to its state. */
module LockTable {

  import opened Outcomes

  /** `MAX_AGE_FOREVER`: a lock whose max_age is this value never expires. */
  const MaxAgeForever: nat := 0

  /** Lock ids: the primary key (a UUID in the source, a counter value here). */
  type LockId = nat

  /** One row: `locked_object`, `created_on`, `renewed_on`, `expires_on`
      (seconds) and `max_age` (a positive-integer column, so never negative). */
  datatype Row = Row(name: string, createdOn: int, renewedOn: int, expiresOn: int, maxAge: nat)

  /** The table, keyed by primary key. */
  type Rows = map<LockId, Row>

  /** `DEFAULT_MAX_AGE`: the `LOCK_MAX_AGE` setting as read when the module is imported, or forever. */
  function DefaultMaxAge(importSetting: Option<nat>): (d: nat)
    ensures importSetting.None? ==> d == MaxAgeForever
    ensures importSetting.Some? ==> d == importSetting.value
  {
    importSetting.GetOr(MaxAgeForever)
  }

  /** The max_age acquire uses: the caller's, else the current `LOCK_MAX_AGE` setting, else `DEFAULT_MAX_AGE`. */
  function EffectiveMaxAge(requested: Option<nat>, setting: Option<nat>, defaultMaxAge: nat): (age: nat)
    ensures requested.Some? ==> age == requested.value
    ensures requested.None? && setting.Some? ==> age == setting.value
    ensures requested.None? && setting.None? ==> age == defaultMaxAge
  {
    match requested
    case Some(age) => age
    case None => setting.GetOr(defaultMaxAge)
  }

  /** The whole default rule: a given max_age is used as it is; an omitted one
      is the current setting if set, else the setting seen at import, else
      forever; with the setting never changed that is the setting or forever. */
  lemma MaxAgeDefaulting(requested: Option<nat>, setting: Option<nat>, importSetting: Option<nat>)
    ensures requested.Some? ==>
      EffectiveMaxAge(requested, setting, DefaultMaxAge(importSetting)) == requested.value
    ensures requested.None? && setting.Some? ==>
      EffectiveMaxAge(requested, setting, DefaultMaxAge(importSetting)) == setting.value
    ensures requested.None? && setting.None? ==>
      EffectiveMaxAge(requested, setting, DefaultMaxAge(importSetting)) == importSetting.GetOr(MaxAgeForever)
    ensures requested.None? ==>
      EffectiveMaxAge(requested, setting, DefaultMaxAge(setting)) == setting.GetOr(MaxAgeForever)
  {
  }

  // ---------------------------------------------------------------- expiry

  /** `NonBlockingLock.is_expired`: never for the sentinel, else strictly past
      `expires_on`. Whatever it calls expired the query calls expired too. */
  predicate IsExpired(r: Row, now: int)
    ensures IsExpired(r, now) ==> ExpiredLookup(r, now)
    ensures r.maxAge == MaxAgeForever ==> !IsExpired(r, now)
  {
    if r.maxAge == MaxAgeForever then false else r.expiresOn < now
  }

  /** `LockManager.not_expired_lookup`: the sentinel, or `expires_on` strictly
      in the future. */
  predicate NotExpiredLookup(r: Row, now: int)
    ensures r.maxAge == MaxAgeForever ==> NotExpiredLookup(r, now)
  {
    r.maxAge == MaxAgeForever || r.expiresOn > now
  }

  /** A row the query matches at some time it also matches at every earlier time. */
  lemma NotExpiredEarlier(r: Row, now: int, earlier: int)
    requires NotExpiredLookup(r, now) && earlier <= now
    ensures NotExpiredLookup(r, earlier)
  {
  }

  /** `LockManager.expired_lookup`: the negation of `not_expired_lookup`, that
      is, not the sentinel and `expires_on` not after now. */
  predicate ExpiredLookup(r: Row, now: int)
    ensures ExpiredLookup(r, now) <==> r.maxAge != MaxAgeForever && r.expiresOn <= now
  {
    !NotExpiredLookup(r, now)
  }

  /** A never-expiring row is neither expired by the instance predicate nor by the query, at any time. */
  lemma ForeverNeverExpires(r: Row, now: int)
    requires r.maxAge == MaxAgeForever
    ensures !IsExpired(r, now) && NotExpiredLookup(r, now) && !ExpiredLookup(r, now)
  {
  }

  /** The two predicates agree except at the instant `expires_on == now`, where
      the query counts the row as expired and the instance predicate does not. */
  lemma ExpiryPredicatesDiffer(r: Row, now: int)
    ensures IsExpired(r, now) ==> ExpiredLookup(r, now)
    ensures ExpiredLookup(r, now) <==> r.maxAge != MaxAgeForever && r.expiresOn <= now
    ensures (ExpiredLookup(r, now) && !IsExpired(r, now)) <==> (r.maxAge != MaxAgeForever && r.expiresOn == now)
  {
  }

  // ---------------------------------------------------------------- pre_save

  /** `lock_pre_save`: fill a missing `created_on`/`renewed_on` with now, then
      always recompute `expires_on`. A timestamp already set is kept, and the
      saved lease lasts max_age seconds from `renewed_on`: live at its
      renewal for both predicates, and not `is_expired` up to `expires_on`. */
  function PreSave(name: string, createdOn: Option<int>, renewedOn: Option<int>, maxAge: nat, now: int): (r: Row)
    ensures r.name == name && r.maxAge == maxAge
    ensures r.createdOn == createdOn.GetOr(now) && r.renewedOn == renewedOn.GetOr(now)
    ensures r.expiresOn == r.renewedOn + maxAge
    ensures NotExpiredLookup(r, r.renewedOn) && !IsExpired(r, r.expiresOn)
    ensures r.createdOn <= r.renewedOn ==> Chronological(r)
  {
    var renewed := renewedOn.GetOr(now);
    Row(name, createdOn.GetOr(now), renewed, renewed + maxAge, maxAge)
  }

  /** The row `create(locked_object=name, max_age=maxAge)` writes (also the
      `get_or_create` defaults): it starts and is renewed now, ends `maxAge`
      seconds later, and is live at its creation instant under both predicates. */
  function NewRow(name: string, maxAge: nat, now: int): (r: Row)
    ensures r.name == name && r.maxAge == maxAge
    ensures r.createdOn == now && r.renewedOn == now && r.expiresOn == now + maxAge
    ensures Chronological(r)
    ensures !IsExpired(r, now) && NotExpiredLookup(r, now)
  {
    PreSave(name, None, None, maxAge, now)
  }

  /** The row `renew` saves: `renewed_on := now`, then `pre_save`. It keeps the
      name, `created_on` and `max_age`, is not expired until max_age seconds
      have passed, and a renewal no earlier than the creation keeps the
      timestamps in order. */
  function Renewed(r: Row, now: int): (s: Row)
    ensures s.name == r.name && s.createdOn == r.createdOn && s.maxAge == r.maxAge
    ensures s.renewedOn == now && s.expiresOn == now + r.maxAge
    ensures forall later :: later <= now + r.maxAge ==> !IsExpired(s, later)
    ensures r.createdOn <= now ==> Chronological(s)
  {
    PreSave(r.name, Some(r.createdOn), Some(now), r.maxAge, now)
  }

  /** Timestamps in creation order: created_on <= renewed_on <= expires_on. */
  predicate Chronological(r: Row) {
    r.createdOn <= r.renewedOn <= r.expiresOn
  }

  /** Every stored row has its timestamps in order and was last written no later than now. */
  ghost predicate RowsInOrder(rows: Rows, now: int) {
    forall id :: id in rows ==> Chronological(rows[id]) && rows[id].renewedOn <= now
  }

  /** Time moving forward keeps the rows in order. */
  lemma RowsInOrderLater(rows: Rows, now: int, later: int)
    requires RowsInOrder(rows, now) && now <= later
    ensures RowsInOrder(rows, later)
  {
  }

  // ---------------------------------------------------------------- the table

  /** The ids of the rows whose `locked_object` is `name`. */
  function HoldersOf(rows: Rows, name: string): set<LockId> {
    set id | id in rows && rows[id].name == name
  }

  /** The unique constraint on `locked_object`. */
  ghost predicate NamesUnique(rows: Rows) {
    forall i, j :: i in rows && j in rows && rows[i].name == rows[j].name ==> i == j
  }

  /** Every stored id was handed out before `nextId`, so `nextId` is fresh. */
  ghost predicate IdsBelow(rows: Rows, nextId: LockId) {
    forall id :: id in rows ==> id < nextId
  }

  ghost predicate TableInvariant(rows: Rows, nextId: LockId) {
    NamesUnique(rows) && IdsBelow(rows, nextId)
  }

  /** Under the unique constraint a name has at most one holder. */
  lemma HolderUnique(rows: Rows, name: string, h: LockId)
    requires NamesUnique(rows)
    requires h in rows && rows[h].name == name
    ensures HoldersOf(rows, name) == {h}
  {
  }

  // ---------------------------------------------------------------- save

  /** `Model.save()` on a row under `id`: an UPDATE if the id is stored, else an
      INSERT; either one fails (IntegrityError, None here) when a row with
      another id already holds the name. */
  function Save(rows: Rows, id: LockId, r: Row): (saved: Option<Rows>)
    ensures saved.None? <==> exists j :: j in rows && j != id && rows[j].name == r.name
    ensures saved.Some? ==> saved.value.Keys == rows.Keys + {id} && saved.value[id] == r
    ensures saved.Some? ==> forall j :: j in rows && j != id ==> saved.value[j] == rows[j]
  {
    var holders := HoldersOf(rows, r.name);
    if holders <= {id} then
      assert forall j :: j in rows && rows[j].name == r.name ==> j in holders;
      Some(rows[id := r])
    else
      None
  }

  /** A successful save keeps the table's invariant. */
  lemma SavePreservesInvariant(rows: Rows, nextId: LockId, id: LockId, r: Row)
    requires TableInvariant(rows, nextId) && id < nextId
    requires Save(rows, id, r).Some?
    ensures TableInvariant(Save(rows, id, r).value, nextId)
  {
    var saved := Save(rows, id, r).value;
    forall i, j | i in saved && j in saved && saved[i].name == saved[j].name
      ensures i == j
    {
      if i != id && j != id {
        assert rows[i].name == rows[j].name;
      }
    }
  }

  /** A save of a row in order, written no later than now, keeps the rows in order. */
  lemma SaveKeepsOrder(rows: Rows, id: LockId, r: Row, now: int)
    requires RowsInOrder(rows, now) && Chronological(r) && r.renewedOn <= now
    requires Save(rows, id, r).Some?
    ensures RowsInOrder(Save(rows, id, r).value, now)
  {
  }

  /** Renewing a stored row in place never violates the unique constraint:
      the save succeeds and only that row changes. */
  lemma RenewInPlace(rows: Rows, id: LockId, now: int)
    requires NamesUnique(rows) && id in rows
    ensures Save(rows, id, Renewed(rows[id], now)) == Some(rows[id := Renewed(rows[id], now)])
  {
  }

  /** Saving a row whose id is gone while its name is held under another id
      fails: this is the `RenewalError` of a renewal after a takeover. */
  lemma SaveAfterTakeover(rows: Rows, id: LockId, other: LockId, r: Row)
    requires id !in rows && other in rows && rows[other].name == r.name
    ensures Save(rows, id, r) == None
  {
  }

  // ---------------------------------------------------------------- acquire

  /** The new table and the id of the newly created lock. */
  datatype Acquisition = Acquisition(rows: Rows, id: LockId)

  /** `acquire_lock` as one atomic step: no holder, create; an expired holder,
      delete it and create; a live holder, `AlreadyLocked`. The new row takes
      the fresh id `nextId`. */
  function AcquireStep(rows: Rows, nextId: LockId, name: string, maxAge: nat, now: int): (step: Result<Acquisition>)
    ensures step.Err? ==> step.error == AlreadyLocked
    ensures step.Ok? ==> step.value.id == nextId && nextId in step.value.rows && step.value.rows[nextId] == NewRow(name, maxAge, now)
    ensures step.Ok? ==> forall id :: id in rows && id !in step.value.rows ==>
      rows[id].name == name && IsExpired(rows[id], now)
  {
    var holders := HoldersOf(rows, name);
    if forall h | h in holders :: IsExpired(rows[h], now) then
      Ok(Acquisition((rows - holders)[nextId := NewRow(name, maxAge, now)], nextId))
    else
      Err(AlreadyLocked)
  }

  /** Acquire refuses exactly when a row for the name is not `is_expired`, and then with `AlreadyLocked`. */
  lemma AcquireRefusal(rows: Rows, nextId: LockId, name: string, maxAge: nat, now: int)
    ensures AcquireStep(rows, nextId, name, maxAge, now).Err?
        <==> exists h :: h in rows && rows[h].name == name && !IsExpired(rows[h], now)
    ensures AcquireStep(rows, nextId, name, maxAge, now).Err? ==>
              AcquireStep(rows, nextId, name, maxAge, now).error == AlreadyLocked
  {
    var holders := HoldersOf(rows, name);
    if exists h :: h in rows && rows[h].name == name && !IsExpired(rows[h], now) {
      var h :| h in rows && rows[h].name == name && !IsExpired(rows[h], now);
      assert h in holders;
    }
  }

  /** A successful acquire inserts exactly one row, under the fresh id, with
      created_on = renewed_on = now and expires_on = now + max_age; the only
      row it removes is the expired holder of the same name; every other row
      is kept as it was; the name ends up held by the new id alone; and the
      table invariant is kept. */
  lemma AcquireSuccess(rows: Rows, nextId: LockId, name: string, maxAge: nat, now: int)
    requires TableInvariant(rows, nextId)
    requires AcquireStep(rows, nextId, name, maxAge, now).Ok?
    ensures var a := AcquireStep(rows, nextId, name, maxAge, now).value;
      && a.id == nextId && a.id !in rows
      && a.rows[a.id] == NewRow(name, maxAge, now)
      && a.rows[a.id].createdOn == now && a.rows[a.id].renewedOn == now
      && a.rows[a.id].expiresOn == now + maxAge
      && HoldersOf(a.rows, name) == {a.id}
      && (forall id :: id in rows && rows[id].name != name ==> id in a.rows && a.rows[id] == rows[id])
      && (forall id :: id in rows && id !in a.rows ==> rows[id].name == name && IsExpired(rows[id], now))
      && a.rows.Keys <= rows.Keys + {a.id}
      && TableInvariant(a.rows, nextId + 1)
      && (RowsInOrder(rows, now) ==> RowsInOrder(a.rows, now))
  {
    var holders := HoldersOf(rows, name);
    var a := AcquireStep(rows, nextId, name, maxAge, now).value;
    assert a.rows == (rows - holders)[nextId := NewRow(name, maxAge, now)];
    forall i, j | i in a.rows && j in a.rows && a.rows[i].name == a.rows[j].name
      ensures i == j
    {
      if i != nextId && j != nextId {
        assert rows[i].name == rows[j].name;
      }
    }
  }

  /** A freshly acquired name cannot be acquired again while the new lease is
      live: at any time up to its expiry (any time at all for max_age 0), a
      second acquire fails with `AlreadyLocked`. */
  lemma AcquireExcludesWhileLive(rows: Rows, nextId: LockId, name: string, maxAge: nat, now: int,
                                 maxAge2: nat, later: int)
    requires TableInvariant(rows, nextId)
    requires AcquireStep(rows, nextId, name, maxAge, now).Ok?
    requires maxAge == MaxAgeForever || later <= now + maxAge
    ensures var a := AcquireStep(rows, nextId, name, maxAge, now).value;
      AcquireStep(a.rows, nextId + 1, name, maxAge2, later) == Err(AlreadyLocked)
  {
    var a := AcquireStep(rows, nextId, name, maxAge, now).value;
    AcquireSuccess(rows, nextId, name, maxAge, now);
    assert a.id in HoldersOf(a.rows, name);
    AcquireRefusal(a.rows, nextId + 1, name, maxAge2, later);
  }

  /** acquire, release, acquire on the same name: the second acquire succeeds
      and its id differs from the first one's. */
  lemma AcquireReleaseAcquire(rows: Rows, nextId: LockId, name: string, maxAge: nat, now: int,
                              maxAge2: nat, later: int)
    requires TableInvariant(rows, nextId)
    requires AcquireStep(rows, nextId, name, maxAge, now).Ok?
    ensures var a := AcquireStep(rows, nextId, name, maxAge, now).value;
      var second := AcquireStep(a.rows - {a.id}, nextId + 1, name, maxAge2, later);
      second.Ok? && second.value.id != a.id && second.value.id !in a.rows
  {
    var a := AcquireStep(rows, nextId, name, maxAge, now).value;
    AcquireSuccess(rows, nextId, name, maxAge, now);
    var released := a.rows - {a.id};
    assert HoldersOf(released, name) == {} by {
      forall h | h in released ensures released[h].name != name {
        assert h in a.rows && h != a.id && h !in HoldersOf(a.rows, name);
      }
    }
  }

  // ---------------------------------------------------------------- queries

  /** `get_expired_locks`: the rows matched by `expired_lookup`. */
  function ExpiredRows(rows: Rows, now: int): (expired: Rows)
    ensures forall id :: id in expired <==>
      id in rows && rows[id].maxAge != MaxAgeForever && rows[id].expiresOn <= now
    ensures forall id :: id in expired ==> expired[id] == rows[id]
  {
    map id | id in rows && ExpiredLookup(rows[id], now) :: rows[id]
  }

  /** `filter_active_lock_for_obj`: the rows for the name matched by `not_expired_lookup`. */
  function ActiveHolders(rows: Rows, name: string, now: int): set<LockId> {
    set id | id in HoldersOf(rows, name) && NotExpiredLookup(rows[id], now)
  }

  /** `is_locked` on a name: some active row for it exists. */
  predicate IsLockedName(rows: Rows, name: string, now: int) {
    ActiveHolders(rows, name, now) != {}
  }

  /** A name is locked exactly when some row for it is not among the expired rows. */
  lemma IsLockedExactly(rows: Rows, name: string, now: int)
    ensures IsLockedName(rows, name, now) <==>
      exists id :: id in rows && rows[id].name == name && id !in ExpiredRows(rows, now)
  {
    if exists id :: id in rows && rows[id].name == name && id !in ExpiredRows(rows, now) {
      var id :| id in rows && rows[id].name == name && id !in ExpiredRows(rows, now);
      assert id in ActiveHolders(rows, name, now);
    }
  }

  /** At the instant `expires_on == now` of an expiring lease: the name is not
      locked, the row is among the expired rows, and yet acquire still refuses
      with `AlreadyLocked`. */
  lemma ExpiryInstant(rows: Rows, nextId: LockId, id: LockId, maxAge: nat, now: int)
    requires NamesUnique(rows)
    requires id in rows && rows[id].maxAge != MaxAgeForever && rows[id].expiresOn == now
    ensures !IsLockedName(rows, rows[id].name, now)
    ensures id in ExpiredRows(rows, now)
    ensures AcquireStep(rows, nextId, rows[id].name, maxAge, now) == Err(AlreadyLocked)
  {
    HolderUnique(rows, rows[id].name, id);
    AcquireRefusal(rows, nextId, rows[id].name, maxAge, now);
  }
}
