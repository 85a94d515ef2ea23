/** Vocabulary shared by the entry (flock/append) and the byte-range lock managers of a
    metadata file inode. */
module LockCommon {

  datatype Option<T> = None | Some(value: T)

  /** The ack ID a client attaches to a lock request; waiters are found again by it. */
  type AckId = string

  /** The identity `equalsHandle` compares: the client node and, per manager, the client's
      file descriptor (entry locks) or the owning process (range locks). */
  datatype Owner = Owner(clientId: nat, id: nat)

  /** What a lock request asks for. `Cancel` drops everything a handle holds or waits for. */
  datatype LockOp = Shared | Exclusive | Unlock | Cancel

  /** Which granted locks and waiters a cancel removes: those of one handle (a file close)
      or all of one client node (a client that went away). */
  datatype Selector = ByHandle(owner: Owner) | ByClient(clientId: nat)
  {
    predicate Matches(o: Owner)
    {
      match this
      case ByHandle(h) => o == h
      case ByClient(c) => o.clientId == c
    }
  }
}
