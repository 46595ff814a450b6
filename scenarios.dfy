/** The scenarios of `locking/tests.py`, replayed on the model: each method
    builds a fresh store, replays one test, and states in its postcondition
    what the test asserts. */
module Scenarios {

  import opened Outcomes
  import opened LockNames
  import opened LockTable
  import opened Models
  import opened Tasks

  /** The test user the lock is taken on. */
  const User := ModelRef("django.contrib.auth.models", "User", 1)

  /** "2015-01-01 10:00" and "2015-01-01 11:00", in seconds since the epoch. */
  const TenOClock: int := 1420106400
  const ElevenOClock: int := TenOClock + 3600

  /** `test_acquire_and_release`. */
  method AcquireAndRelease() returns (lockedAfterAcquire: bool, lockedAfterRelease: bool,
                                      secondRelease: Result<bool>, lockedAgain: bool,
                                      lockedAfterReleaseLock: bool)
    ensures lockedAfterAcquire && !lockedAfterRelease && secondRelease == Err(NotLocked)
    ensures lockedAgain && !lockedAfterReleaseLock
  {
    var store := new LockStore(None, TenOClock);
    var acquired := store.AcquireLock(Some(User), None, "");
    var lock := acquired.value;
    assert 0 in ActiveHolders(store.rows, LockName(User), store.now);
    lockedAfterAcquire := store.IsLocked(User);
    var _ := lock.Release(true);
    lockedAfterRelease := store.IsLocked(User);
    secondRelease := lock.Release(false);
    var again := store.AcquireLock(Some(User), None, "");
    var lock2 := again.value;
    assert 1 in ActiveHolders(store.rows, LockName(User), store.now);
    lockedAgain := store.IsLocked(User);
    var _ := store.ReleaseLock(lock2.id.value);
    lockedAfterReleaseLock := store.IsLocked(User);
  }

  /** `test_renew_integrity_error`: after `release_lock` and a new acquire of
      the same name, renewing the old instance raises `RenewalError`. */
  method RenewIntegrityError() returns (lockedAfterAcquire: bool, lockedAfterReleaseLock: bool,
                                        lockedAfterReacquire: bool, renewal: Result<()>)
    ensures lockedAfterAcquire && !lockedAfterReleaseLock && lockedAfterReacquire
    ensures renewal == Err(RenewalError)
  {
    var store := new LockStore(None, TenOClock);
    var acquired := store.AcquireLock(Some(User), None, "");
    var lock := acquired.value;
    assert 0 in ActiveHolders(store.rows, LockName(User), store.now);
    lockedAfterAcquire := store.IsLocked(User);
    var _ := store.ReleaseLock(lock.id.value);
    lockedAfterReleaseLock := store.IsLocked(User);
    var _ := store.AcquireLock(Some(User), None, "");
    assert 1 in ActiveHolders(store.rows, LockName(User), store.now);
    lockedAfterReacquire := store.IsLocked(User);
    assert 1 in store.rows && store.rows[1].name == lock.lockedObject;
    renewal := lock.Renew();
  }

  /** `test_obj_with_expired_lock_is_not_locked`. */
  method ExpiredLockIsNotLocked() returns (locked: bool)
    ensures !locked
  {
    var store := new LockStore(None, TenOClock);
    var _ := store.AcquireLock(Some(User), Some(1), "");
    store.SetClock(ElevenOClock);
    locked := store.IsLocked(User);
  }

  /** `test_acquire_and_renew`: renewing an hour later moves the expiry
      later; `renew_lock` by the same id keeps the id and the expiry. */
  method AcquireAndRenew() returns (expiresBefore: int, expiresAfter: int,
                                    renewedViaManager: Result<NonBlockingLock>, sameId: bool, sameExpiry: bool)
    ensures expiresBefore < expiresAfter
    ensures renewedViaManager.Ok? && sameId && sameExpiry
  {
    var store := new LockStore(None, TenOClock);
    var acquired := store.AcquireLock(Some(User), None, "");
    var lock := acquired.value;
    expiresBefore := lock.expiresOn;
    store.SetClock(ElevenOClock);
    var _ := lock.Renew();
    expiresAfter := lock.expiresOn;
    renewedViaManager := store.RenewLock(lock.id.value);
    sameId := renewedViaManager.value.id == lock.id;
    sameExpiry := renewedViaManager.value.expiresOn == lock.expiresOn;
  }

  /** `test_renew_expired`: a lease of one second cannot be renewed later on. */
  method RenewExpired() returns (renewal: Result<()>)
    ensures renewal == Err(Expired)
  {
    var store := new LockStore(None, TenOClock);
    var acquired := store.AcquireLock(Some(User), Some(1), "");
    var lock := acquired.value;
    store.SetClock(ElevenOClock);
    renewal := lock.Renew();
  }

  /** `test_renew_nonexistinglock` and `test_release_nonexistinglock`. */
  method UnknownId(pk: LockId) returns (renewal: Result<NonBlockingLock>, release: Result<NonBlockingLock>)
    ensures renewal == Err(NonexistentLock) && release == Err(NotLocked)
  {
    var store := new LockStore(None, TenOClock);
    renewal := store.RenewLock(pk);
    release := store.ReleaseLock(pk);
  }

  /** `test_lock_twice`: a second acquire of a held name raises `AlreadyLocked`
      and the name stays locked. */
  method LockTwice() returns (lockedBefore: bool, second: Result<NonBlockingLock>, stillLocked: bool)
    ensures lockedBefore && second == Err(AlreadyLocked) && stillLocked
  {
    var store := new LockStore(None, TenOClock);
    var first := store.AcquireLock(Some(User), None, "");
    assert 0 in ActiveHolders(store.rows, LockName(User), store.now);
    lockedBefore := store.IsLocked(User);
    second := store.AcquireLock(Some(User), None, "");
    stillLocked := store.IsLocked(User);
    var _ := first.value.Release(true);
  }

  /** `test_unlock_twice`: the name is locked, then free after a release, and
      a second silent release raises nothing. */
  method UnlockTwice() returns (lockedAfterAcquire: bool, first: Result<bool>, lockedAfterRelease: bool,
                                second: Result<bool>)
    ensures lockedAfterAcquire && first == Ok(true) && !lockedAfterRelease && second.Ok?
  {
    var store := new LockStore(None, TenOClock);
    var acquired := store.AcquireLock(Some(User), None, "");
    assert 0 in ActiveHolders(store.rows, LockName(User), store.now);
    lockedAfterAcquire := store.IsLocked(User);
    first := acquired.value.Release(true);
    lockedAfterRelease := store.IsLocked(User);
    second := acquired.value.Release(true);
  }

  /** `test_model`: the lock name of the user ends in its id, and a lock taken
      by name carries that name and the given max_age. */
  method LockFields() returns (byObject: NonBlockingLock, byName: NonBlockingLock)
    ensures byObject.lockedObject == LockName(User) && byObject.maxAge == 10
    ensures var n := byObject.lockedObject; n[|n| - |Decimal(User.id)|..] == Decimal(User.id)
    ensures byName.lockedObject == "test_lock" && byName.maxAge == 10
  {
    var store := new LockStore(None, TenOClock);
    var acquired := store.AcquireLock(Some(User), Some(10), "");
    byObject := acquired.value;
    var _ := byObject.Release(true);
    var named := store.AcquireLock(None, Some(10), "test_lock");
    byName := named.value;
  }

  /** `test_relock`: an hour after a ten-second lease the old instance is
      expired and the name can be acquired again, with a new creation time. */
  method Relock() returns (oldExpired: bool, relock: Result<NonBlockingLock>, oldCreated: int)
    ensures oldExpired && relock.Ok? && relock.value.createdOn != oldCreated
  {
    var store := new LockStore(None, TenOClock);
    var acquired := store.AcquireLock(Some(User), Some(10), "");
    var lock := acquired.value;
    oldCreated := lock.createdOn;
    store.SetClock(ElevenOClock);
    oldExpired := lock.IsExpired();
    relock := store.AcquireLock(Some(User), Some(1), "");
  }

  /** A lock on a `NonBlockingLock` row never shares its name with the user's
      lock: the two names start with different modules. */
  lemma LockRefNameDiffers(id: int)
    ensures LockName(ModelRef("locking.models", "NonBlockingLock", id)) != LockName(User)
  {
    var other := LockName(ModelRef("locking.models", "NonBlockingLock", id));
    assert other[..14][0] == 'l';
    assert LockName(User)[..26][0] == 'd';
  }

  /** `test_expired`: of a never-expiring lock and a one-second lock, an hour
      later only the second is expired, and it is the only expired row. */
  method ExpiredLocks() returns (firstExpired: bool, secondExpired: bool, expired: Rows)
    ensures !firstExpired && secondExpired && |expired| == 1
  {
    var store := new LockStore(None, TenOClock);
    var acquired := store.AcquireLock(Some(User), Some(0), "");
    var lock := acquired.value;
    var lockRef := ModelRef("locking.models", "NonBlockingLock", lock.id.value);
    LockRefNameDiffers(lock.id.value);
    var acquired2 := store.AcquireLock(Some(lockRef), Some(1), "");
    var lock2 := acquired2.value;
    store.SetClock(ElevenOClock);
    firstExpired := lock.IsExpired();
    secondExpired := lock2.IsExpired();
    expired := store.GetExpiredLocks();
    assert expired.Keys == {1};
  }

  /** `test_context_manager`: the name is locked inside the block and free after it. */
  method ContextManager() returns (lockedInside: bool, lockedAfter: bool)
    ensures lockedInside && !lockedAfter
  {
    var store := new LockStore(None, TenOClock);
    var acquired := store.AcquireLock(Some(User), None, "");
    var lock := acquired.value.Enter();
    assert 0 in ActiveHolders(store.rows, LockName(User), store.now);
    lockedInside := store.IsLocked(User);
    lock.Exit();
    lockedAfter := store.IsLocked(User);
  }

  /** `test_clean`: an hour after taking a never-expiring and a one-second
      lock, the sweep leaves only the never-expiring one. */
  method Clean() returns (remaining: Rows, kept: NonBlockingLock)
    ensures kept.id.Some? && remaining == map[kept.id.value := kept.Local()]
  {
    var store := new LockStore(None, TenOClock);
    var acquired := store.AcquireLock(Some(User), Some(0), "");
    kept := acquired.value;
    assert store.rows == map[0 := kept.Local()];
    var keptRef := ModelRef("locking.models", "NonBlockingLock", kept.id.value);
    LockRefNameDiffers(kept.id.value);
    var _ := store.AcquireLock(Some(keptRef), Some(1), "");
    var short := NewRow(LockName(keptRef), 1, TenOClock);
    ghost var before := map[0 := kept.Local(), 1 := short];
    assert store.rows == before;
    store.SetClock(ElevenOClock);
    CleanExpiredLocks(store);
    remaining := store.rows;
    assert ExpiredLookup(short, ElevenOClock) && NotExpiredLookup(kept.Local(), ElevenOClock);
    assert remaining == Swept(before, ElevenOClock);
  }

  /** `test_implicit_cleaning_disabled` (no setting) and
      `test_implicit_cleaning_set_to_zero` (`LOCK_MAX_AGE = 0`): a lock taken
      without max_age survives a sweep any time later. */
  method ImplicitCleaningDisabled(setting: Option<nat>, elapsed: nat) returns (remaining: Rows, kept: NonBlockingLock)
    requires setting == None || setting == Some(0)
    ensures kept.id.Some? && remaining == map[kept.id.value := kept.Local()]
  {
    var store := new LockStore(None, TenOClock);
    store.SetLockMaxAge(setting);
    var acquired := store.AcquireLock(Some(User), None, "");
    kept := acquired.value;
    store.SetClock(TenOClock + elapsed);
    CleanExpiredLocks(store);
    remaining := store.rows;
  }

  /** `test_implicit_cleaning_set_to_nonzero`: with `LOCK_MAX_AGE = 1`, a lock
      taken without max_age is swept one second later. */
  method ImplicitCleaningOneSecond() returns (remaining: Rows)
    ensures remaining == map[]
  {
    var store := new LockStore(None, TenOClock);
    store.SetLockMaxAge(Some(1));
    var _ := store.AcquireLock(Some(User), None, "");
    store.SetClock(TenOClock + 1);
    CleanExpiredLocks(store);
    remaining := store.rows;
  }

  /** A renewal does not look up the row first: an instance whose row was
      deleted through `release_lock` saves itself back under its old id when
      the name is still free. */
  method RenewAfterReleaseLock() returns (renewal: Result<()>, oldId: LockId, restored: bool)
    ensures renewal == Ok(()) && restored
  {
    var store := new LockStore(None, TenOClock);
    var acquired := store.AcquireLock(Some(User), None, "");
    var lock := acquired.value;
    oldId := lock.id.value;
    var _ := store.ReleaseLock(oldId);
    renewal := lock.Renew();
    restored := oldId in store.rows && store.rows[oldId] == lock.Local();
  }

  /** An instance released through itself has lost its id; renewing it saves
      a new row for the name under a new id. The instance still counts as
      released, so releasing it again deletes nothing. */
  method RenewAfterOwnRelease() returns (renewal: Result<()>, oldId: LockId, newId: LockId, rowsAfterRelease: Rows)
    ensures renewal == Ok(()) && newId != oldId && newId in rowsAfterRelease
  {
    var store := new LockStore(None, TenOClock);
    var acquired := store.AcquireLock(Some(User), None, "");
    var lock := acquired.value;
    oldId := lock.id.value;
    var _ := lock.Release(true);
    renewal := lock.Renew();
    newId := lock.id.value;
    var _ := lock.Release(true);
    rowsAfterRelease := store.rows;
  }
}
