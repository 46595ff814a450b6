/** Outcomes of the lock operations: the exceptions the lock manager raises,
    and a Result type that carries either a value or one of them. */
module Outcomes {

  /** The lock errors raised by the manager and by a lock handle. */
  datatype LockError =
    | AlreadyLocked    // acquire: the name is held by a lease that is not expired
    | NotLocked        // release: nothing (left) to release
    | NonexistentLock  // renew by id: no row carries that id
    | Expired          // renew: the lease has lapsed
    | RenewalError     // renew: saving the renewed row broke the unique name

  datatype Option<+T> = None | Some(value: T) {
    function GetOr(default: T): T {
      match this
      case Some(v) => v
      case None => default
    }
  }

  datatype Result<+T> = Ok(value: T) | Err(error: LockError)
}
