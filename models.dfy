/** The lock store and the lock handle of `locking/models.py`.

    `LockStore` is the lock table together with everything the manager's
    operations consult: the clock (`timezone.now()`, which tests freeze and
    move), the source of fresh ids (`uuid.uuid4`), and the `LOCK_MAX_AGE`
    setting. Each manager operation is one atomic method on it.

    `NonBlockingLock` is a caller's model instance: a local copy of a row's
    fields, its primary key, and the `unlocked` flag that `release` sets. */
module Models {

  import opened Outcomes
  import opened LockNames
  import opened LockTable

  /** The lock name `acquire_lock` uses: a given object overrides `lock_name`
      with its derived name; without one, `lock_name` is used as it is. */
  function TargetName(obj: Option<ModelRef>, lockName: string): (name: string)
    ensures obj.Some? ==> name == LockName(obj.value)
    ensures obj.None? ==> name == lockName
  {
    match obj
    case Some(o) => LockName(o)
    case None => lockName
  }

  class LockStore {
    /** The `NonBlockingLock` table. */
    var rows: Rows
    /** `timezone.now()`, in whole seconds. */
    var now: int
    /** The next id `uuid.uuid4` hands out; every stored id is below it. */
    var nextId: LockId
    /** `settings.LOCK_MAX_AGE`, when it is set. */
    var lockMaxAge: Option<nat>
    /** `DEFAULT_MAX_AGE`, fixed when the module is imported. */
    const defaultMaxAge: nat

    /** Names are unique, ids are below the counter, and every row has its
        timestamps in order and was written no later than now. */
    ghost predicate Valid()
      reads this
    {
      TableInvariant(rows, nextId) && RowsInOrder(rows, now)
    }

    constructor (importSetting: Option<nat>, start: int)
      ensures Valid()
      ensures rows == map[] && now == start && nextId == 0
      ensures lockMaxAge == importSetting && defaultMaxAge == DefaultMaxAge(importSetting)
    {
      rows := map[];
      now := start;
      nextId := 0;
      lockMaxAge := importSetting;
      defaultMaxAge := DefaultMaxAge(importSetting);
    }

    /** Moves the clock forward (what `freeze_time` does in the tests). */
    method SetClock(t: int)
      requires Valid() && now <= t
      modifies this`now
      ensures Valid() && now == t
    {
      RowsInOrderLater(rows, now, t);
      now := t;
    }

    /** Changes `settings.LOCK_MAX_AGE` (what `override_settings` does in the tests). */
    method SetLockMaxAge(setting: Option<nat>)
      requires Valid()
      modifies this`lockMaxAge
      ensures Valid() && lockMaxAge == setting
    {
      lockMaxAge := setting;
    }

    /** `uuid.uuid4()`: an id no row has ever been stored under. */
    method NewId() returns (id: LockId)
      requires Valid()
      modifies this`nextId
      ensures Valid()
      ensures id == old(nextId) && id !in rows && nextId == id + 1
    {
      id := nextId;
      nextId := nextId + 1;
    }

    /** `Model.delete()` and `QuerySet.delete()`: a DELETE of the rows with the
        given ids (absent ids delete nothing). */
    method Delete(ids: set<LockId>)
      requires Valid()
      modifies this`rows
      ensures Valid()
      ensures rows == old(rows) - ids
    {
      rows := rows - ids;
    }

    /** `Model.save()`: upsert of `r` under `id`, refused when another id holds the name. */
    method Save(id: LockId, r: Row) returns (ok: bool)
      requires Valid() && id < nextId && Chronological(r) && r.renewedOn <= now
      modifies this`rows
      ensures Valid()
      ensures ok == LockTable.Save(old(rows), id, r).Some?
      ensures rows == if ok then LockTable.Save(old(rows), id, r).value else old(rows)
    {
      var saved := LockTable.Save(rows, id, r);
      if saved.Some? {
        SavePreservesInvariant(rows, nextId, id, r);
        SaveKeepsOrder(rows, id, r, now);
        rows := saved.value;
      }
      ok := saved.Some?;
    }

    /** `create(locked_object=name, max_age=maxAge)`: a new row under a fresh id, timestamps from `pre_save`. */
    method Create(name: string, maxAge: nat) returns (lock: NonBlockingLock)
      requires Valid() && HoldersOf(rows, name) == {}
      modifies this`rows, this`nextId
      ensures Valid()
      ensures nextId == old(nextId) + 1 && rows == old(rows)[old(nextId) := NewRow(name, maxAge, now)]
      ensures fresh(lock) && lock.Valid() && lock.store == this && !lock.unlocked
      ensures lock.id == Some(old(nextId)) && lock.Local() == NewRow(name, maxAge, now)
    {
      var id := NewId();
      var row := NewRow(name, maxAge, now);
      var ok := Save(id, row);
      assert ok;
      lock := new NonBlockingLock(this, id, row);
    }

    /** `filter_lock_for_obj`: the ids of the rows for the object's lock name;
        under the unique name column there is at most one. */
    function FilterLockForObj(obj: ModelRef): (ids: set<LockId>)
      reads this
      ensures forall id :: id in ids <==> id in rows && rows[id].name == LockName(obj)
      ensures Valid() ==> forall i, j :: i in ids && j in ids ==> i == j
    {
      HoldersOf(rows, LockName(obj))
    }

    /** `filter_active_lock_for_obj`: those of them that `not_expired_lookup`
        matches now, which are those not among the expired locks. */
    function FilterActiveLockForObj(obj: ModelRef): (ids: set<LockId>)
      reads this
      ensures forall id :: id in ids <==> id in FilterLockForObj(obj) && id !in GetExpiredLocks()
    {
      ActiveHolders(rows, LockName(obj), now)
    }

    /** `is_locked(obj)`: a row for the object's name exists that is not among
        the expired locks. A query: it changes nothing. */
    predicate IsLocked(obj: ModelRef)
      reads this
      ensures IsLocked(obj) <==>
        exists id :: id in rows && rows[id].name == LockName(obj) && id !in GetExpiredLocks()
    {
      IsLockedExactly(rows, LockName(obj), now);
      FilterActiveLockForObj(obj) != {}
    }

    /** `get_expired_locks()`: every row `expired_lookup` matches now, that is
        exactly the rows with a max_age other than forever whose `expires_on`
        is not after now. A query: it changes nothing. */
    function GetExpiredLocks(): (expired: Rows)
      reads this
      ensures forall id :: id in expired <==>
        id in rows && rows[id].maxAge != MaxAgeForever && rows[id].expiresOn <= now
      ensures forall id :: id in expired ==> expired[id] == rows[id]
    {
      ExpiredRows(rows, now)
    }

    /** `acquire_lock(obj, max_age, lock_name)`: one atomic step that creates
        the lock, or steals the name from an expired holder by deleting its row
        and creating a new one, or refuses with `AlreadyLocked`. */
    method AcquireLock(obj: Option<ModelRef>, maxAge: Option<nat>, lockName: string)
      returns (res: Result<NonBlockingLock>)
      requires Valid()
      modifies this`rows, this`nextId
      ensures Valid()
      ensures var step := AcquireStep(old(rows), old(nextId), TargetName(obj, lockName),
                                      EffectiveMaxAge(maxAge, lockMaxAge, defaultMaxAge), now);
        && (step.Err? ==> res == Err(step.error) && rows == old(rows) && nextId == old(nextId))
        && (step.Ok? ==>
              && res.Ok? && rows == step.value.rows && nextId == step.value.id + 1
              && fresh(res.value) && res.value.Valid() && res.value.store == this
              && res.value.id == Some(step.value.id) && !res.value.unlocked
              && res.value.Local() == rows[step.value.id])
    {
      var age := EffectiveMaxAge(maxAge, lockMaxAge, defaultMaxAge);
      var name := TargetName(obj, lockName);
      ghost var step := AcquireStep(rows, nextId, name, age, now);
      var holders := HoldersOf(rows, name);
      if holders == {} {
        // get_or_create: nothing to get, so create
        assert rows - holders == rows;
        var lock := Create(name, age);
        res := Ok(lock);
      } else {
        // get_or_create: the existing row
        var h :| h in holders;
        HolderUnique(rows, name, h);
        var existing := new NonBlockingLock(this, h, rows[h]);
        if existing.IsExpired() {
          var _ := existing.Release(true);
          assert rows == old(rows) - holders;
          assert HoldersOf(rows, name) == {} by {
            assert forall id :: id in rows ==> id in old(rows) && id != h;
          }
          var lock := Create(name, age);
          res := Ok(lock);
        } else {
          assert step.Err?;
          res := Err(AlreadyLocked);
        }
      }
    }

    /** `renew_lock(pk)`: `NonexistentLock` for an id with no row; otherwise the
        stored lock's `renew`, which refuses an expired lease with `Expired` and
        else renews the row in place under the same id. */
    method RenewLock(pk: LockId) returns (res: Result<NonBlockingLock>)
      requires Valid()
      modifies this`rows, this`nextId
      ensures Valid() && nextId == old(nextId)
      ensures pk !in old(rows) ==> res == Err(NonexistentLock) && rows == old(rows)
      ensures pk in old(rows) && IsExpired(old(rows)[pk], now) ==> res == Err(Expired) && rows == old(rows)
      ensures pk in old(rows) && !IsExpired(old(rows)[pk], now) ==>
        && rows == old(rows)[pk := Renewed(old(rows)[pk], now)]
        && res.Ok? && fresh(res.value) && res.value.Valid() && res.value.store == this
        && res.value.id == Some(pk) && res.value.Local() == rows[pk]
    {
      if pk !in rows {
        res := Err(NonexistentLock);
        return;
      }
      var lock := new NonBlockingLock(this, pk, rows[pk]);
      RenewInPlace(rows, pk, now);
      var renewed := lock.Renew();
      if renewed.Err? {
        res := Err(renewed.error);
      } else {
        res := Ok(lock);
      }
    }

    /** `release_lock(pk)`: `NotLocked` for an id with no row; otherwise the
        stored lock's `release`, which deletes the row. */
    method ReleaseLock(pk: LockId) returns (res: Result<NonBlockingLock>)
      requires Valid()
      modifies this`rows
      ensures Valid()
      ensures pk !in old(rows) ==> res == Err(NotLocked) && rows == old(rows)
      ensures pk in old(rows) ==>
        && rows == old(rows) - {pk}
        && res.Ok? && fresh(res.value) && res.value.Valid() && res.value.store == this
        && res.value.unlocked && res.value.id == None && res.value.Local() == old(rows)[pk]
    {
      if pk !in rows {
        res := Err(NotLocked);
        return;
      }
      var lock := new NonBlockingLock(this, pk, rows[pk]);
      var _ := lock.Release(true);
      res := Ok(lock);
    }
  }

  /** A `NonBlockingLock` instance held by a caller. Its fields are a local
      copy of the row it was loaded from or created as; `id` is None once the
      instance has been deleted, as Django clears the primary key of a deleted
      instance. */
  class NonBlockingLock {
    const store: LockStore
    var id: Option<LockId>
    var lockedObject: string
    var createdOn: int
    var renewedOn: int
    var expiresOn: int
    var maxAge: nat
    var unlocked: bool

    /** The local copy as a row. */
    function Local(): Row
      reads this
    {
      Row(lockedObject, createdOn, renewedOn, expiresOn, maxAge)
    }

    /** The store is consistent, the instance's id was handed out by it,
        only a released instance has lost its id, and the local copy has its
        timestamps in order and was written no later than now. */
    ghost predicate Valid()
      reads this, store
    {
      && store.Valid()
      && (id.Some? ==> id.value < store.nextId)
      && (id.None? ==> unlocked)
      && Chronological(Local()) && renewedOn <= store.now
    }

    /** An instance for the row stored (or about to be stored) under `id`. */
    constructor (store: LockStore, id: LockId, r: Row)
      requires store.Valid() && id < store.nextId
      requires Chronological(r) && r.renewedOn <= store.now
      ensures Valid()
      ensures this.store == store && this.id == Some(id) && Local() == r && !unlocked
    {
      this.store := store;
      this.id := Some(id);
      lockedObject := r.name;
      createdOn := r.createdOn;
      renewedOn := r.renewedOn;
      expiresOn := r.expiresOn;
      maxAge := r.maxAge;
      unlocked := false;
    }

    /** `is_expired`, on the local copy, at the store's current time: never
        for the sentinel, and only for a copy the expired query also matches. */
    predicate IsExpired()
      reads this, store
      ensures IsExpired() ==> ExpiredLookup(Local(), store.now)
      ensures maxAge == MaxAgeForever ==> !IsExpired()
    {
      LockTable.IsExpired(Local(), store.now)
    }

    /** `__enter__`: the lock itself. */
    method Enter() returns (lock: NonBlockingLock)
      ensures lock == this
    {
      lock := this;
    }

    /** `__exit__`: a silent release; the exception, if any, is not suppressed. */
    method Exit()
      requires Valid()
      modifies this, store`rows
      ensures Valid() && store.nextId == old(store.nextId) && unlocked
      ensures Local() == old(Local())
      ensures !old(unlocked) ==> id == None && store.rows == old(store.rows) - {old(id).value}
      ensures old(unlocked) ==> id == old(id) && store.rows == old(store.rows)
    {
      var _ := Release(true);
    }

    /** `release(silent)`: the first call deletes the row under the instance's
        id and returns true (Ok(true)); any later call touches nothing and
        returns None (Ok(false)) when silent, or raises `NotLocked`. */
    method Release(silent: bool) returns (res: Result<bool>)
      requires Valid()
      modifies this, store`rows
      ensures Valid() && store.nextId == old(store.nextId) && unlocked
      ensures Local() == old(Local())
      ensures !old(unlocked) ==>
        res == Ok(true) && id == None && store.rows == old(store.rows) - {old(id).value}
      ensures old(unlocked) ==>
        && res == (if silent then Ok(false) else Err(NotLocked))
        && id == old(id) && store.rows == old(store.rows)
    {
      if !unlocked {
        store.Delete({id.value});
        id := None;
        unlocked := true;
        res := Ok(true);
        return;
      }
      if !silent {
        res := Err(NotLocked);
      } else {
        res := Ok(false);
      }
    }

    /** `renew()`: `Expired` if the local copy is expired; otherwise set
        `renewed_on` to now, let `pre_save` recompute `expires_on`, and save,
        turning an IntegrityError into `RenewalError`. An instance without an
        id (deleted through itself) is saved under a new id, as Django does
        for an instance whose primary key is unset. The local fields keep the
        renewal even when the save fails. */
    method Renew() returns (res: Result<()>)
      requires Valid()
      modifies this, store`rows, store`nextId
      ensures Valid() && unlocked == old(unlocked)
      ensures old(IsExpired()) ==>
        && res == Err(Expired) && Local() == old(Local()) && id == old(id)
        && store.rows == old(store.rows) && store.nextId == old(store.nextId)
      ensures !old(IsExpired()) ==>
        && Local() == Renewed(old(Local()), store.now)
        && id == Some(old(id).GetOr(old(store.nextId)))
        && store.nextId == old(store.nextId) + (if old(id).None? then 1 else 0)
        && var saved := LockTable.Save(old(store.rows), id.value, Local());
           && (saved.Some? ==> res == Ok(()) && store.rows == saved.value)
           && (saved.None? ==> res == Err(RenewalError) && store.rows == old(store.rows))
    {
      if IsExpired() {
        res := Err(Expired);
        return;
      }
      renewedOn := store.now;
      // pre_save: created_on and renewed_on are set, so only expires_on is computed
      expiresOn := renewedOn + maxAge;
      if id.None? {
        var minted := store.NewId();
        id := Some(minted);
      }
      var ok := store.Save(id.value, Local());
      if ok {
        res := Ok(());
      } else {
        res := Err(RenewalError);
      }
    }
  }
}
