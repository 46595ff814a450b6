/** `locking/tasks.py`: the expiry sweep, `get_expired_locks().delete()`. */
module Tasks {

  import opened LockTable
  import opened Models

  /** The table after the sweep at time `now`: a row survives exactly when
      `expired_lookup` does not match it, and survives unchanged. */
  function Swept(rows: Rows, now: int): (swept: Rows)
    ensures forall id :: id in swept <==> id in rows && NotExpiredLookup(rows[id], now)
    ensures forall id :: id in swept ==> swept[id] == rows[id]
  {
    rows - ExpiredRows(rows, now).Keys
  }

  /** `clean_expired_locks`: delete every row `get_expired_locks` returns. */
  method CleanExpiredLocks(store: LockStore)
    requires store.Valid()
    modifies store`rows
    ensures store.Valid()
    ensures store.rows == Swept(old(store.rows), store.now)
  {
    store.Delete(store.GetExpiredLocks().Keys);
  }

  /** After the sweep no remaining row is matched by `expired_lookup`. */
  lemma SweepLeavesNoExpired(rows: Rows, now: int)
    ensures ExpiredRows(Swept(rows, now), now) == map[]
    ensures forall id :: id in Swept(rows, now) ==> NotExpiredLookup(Swept(rows, now)[id], now)
  {
    var swept := Swept(rows, now);
    forall id | id in swept ensures NotExpiredLookup(swept[id], now) {
      assert id !in ExpiredRows(rows, now);
    }
    assert ExpiredRows(swept, now).Keys == {};
  }

  /** A never-expiring row survives every sweep, however late. */
  lemma SweepKeepsForever(rows: Rows, id: LockId, now: int)
    requires id in rows && rows[id].maxAge == MaxAgeForever
    ensures id in Swept(rows, now) && Swept(rows, now)[id] == rows[id]
  {
    ForeverNeverExpires(rows[id], now);
  }

  /** A row created with max_age 1 is swept exactly one second later, since the
      query counts the instant `expires_on == now` as expired. */
  lemma SweepOneSecondLater(rows: Rows, id: LockId, name: string, created: int)
    requires id in rows && rows[id] == NewRow(name, 1, created)
    ensures id !in Swept(rows, created + 1)
    ensures !IsExpired(rows[id], created + 1)
  {
    assert id in ExpiredRows(rows, created + 1);
  }

  /** A second sweep at the same time removes nothing more. */
  lemma SweepIdempotent(rows: Rows, now: int)
    ensures Swept(Swept(rows, now), now) == Swept(rows, now)
  {
    SweepLeavesNoExpired(rows, now);
  }

  /** The sweep keeps the table invariant and the time order of the rows. */
  lemma SweepPreservesInvariant(rows: Rows, nextId: LockId, now: int)
    requires TableInvariant(rows, nextId)
    ensures TableInvariant(Swept(rows, now), nextId)
    ensures RowsInOrder(rows, now) ==> RowsInOrder(Swept(rows, now), now)
  {
  }
}
