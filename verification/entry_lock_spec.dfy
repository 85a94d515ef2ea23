/** The entry lock manager (flock and append locks) of a file inode, as values.

    Each function below mirrors one C++ routine of `FileInode` and computes the state the
    routine leaves behind; the class in module `EntryLocking` performs the same steps in
    place and is proved to agree with these functions. The one departure is the hand-over
    `TryNextWaiters`, which adds the shared-holder check that `flockEntryTryNextWaiters`
    leaves out; `Request` and `CancelByClientID` use it, and `TryNextWaitersAsWritten` keeps
    the branch as the source has it. */
module EntryLockSpec {
  import opened LockCommon

  /** `EntryLockDetails`: requesting handle, ack ID, operation, and whether the requester
      is prepared to wait (no NOWAIT flag). */
  datatype EntryLock = EntryLock(owner: Owner, ackId: AckId, op: LockOp, mayWait: bool)

  /** What an `EntryLockQueuesContainer` points at: the exclusive holder, the shared holders
      (a set ordered by handle, so one entry per handle), the FIFO queues of exclusive and
      shared waiters, and the ack IDs of all waiters. The append variant uses the same
      containers and only ever sees exclusive requests. */
  datatype Queues = Queues(
    excl: Option<EntryLock>,
    shared: map<Owner, EntryLock>,
    waitersExcl: seq<EntryLock>,
    waitersShared: seq<EntryLock>,
    waiterIds: set<AckId>)

  const Empty: Queues := Queues(None, map[], [], [], {})

  function AckIds(ws: seq<EntryLock>): set<AckId>
  {
    set w | w in ws :: w.ackId
  }

  predicate DistinctAcks(ws: seq<EntryLock>)
  {
    forall i, j :: 0 <= i < j < |ws| ==> ws[i].ackId != ws[j].ackId
  }

  /** Bookkeeping invariant: shared holders are filed under their own handle, no ack ID
      waits twice, and the waiter-ID set is exactly the IDs in the two queues. */
  predicate Valid(q: Queues)
  {
    && (forall o :: o in q.shared ==> q.shared[o].owner == o)
    && DistinctAcks(q.waitersExcl)
    && DistinctAcks(q.waitersShared)
    && AckIds(q.waitersExcl) !! AckIds(q.waitersShared)
    && q.waiterIds == AckIds(q.waitersExcl) + AckIds(q.waitersShared)
  }

  /** Mutual exclusion: while an exclusive lock is held, nobody holds a shared one. */
  predicate NoConflict(q: Queues)
  {
    q.excl.Some? ==> q.shared == map[]
  }

  /** `flockEntryCheckConflicts`, with writer preference: a foreign exclusive holder blocks
      everything, a foreign shared holder blocks an exclusive request, and any queued
      exclusive waiter blocks a shared request. */
  predicate Conflicts(q: Queues, d: EntryLock)
  {
    || (q.excl.Some? && q.excl.value.owner != d.owner)
    || (d.op.Exclusive? && exists o :: o in q.shared && q.shared[o].owner != d.owner)
    || (!d.op.Exclusive? && q.waitersExcl != [])
  }

  /** `flockEntryIsGranted`: the handle already holds a lock of the requested kind. */
  predicate IsGranted(q: Queues, d: EntryLock)
  {
    if d.op.Exclusive? then q.excl.Some? && q.excl.value.owner == d.owner
    else if d.op.Shared? then d.owner in q.shared
    else false
  }

  /** `flockEntryUnlock`: drop the handle's exclusive lock, or else its shared lock; the flag
      says whether a lock was released. */
  function Release(q: Queues, o: Owner): (Queues, bool)
  {
    if q.excl.Some? && q.excl.value.owner == o then (q.(excl := None), true)
    else if o in q.shared then (q.(shared := q.shared - {o}), true)
    else (q, false)
  }

  /** `flockEntryShared`: insert into the handle-ordered set (a no-op if the handle is there). */
  function InsertShared(m: map<Owner, EntryLock>, d: EntryLock): map<Owner, EntryLock>
  {
    if d.owner in m then m else m[d.owner := d]
  }

  /** The shared holders after granting every waiter of `ws`, front to back. */
  function GrantAllShared(m: map<Owner, EntryLock>, ws: seq<EntryLock>): map<Owner, EntryLock>
    decreases |ws|
  {
    if ws == [] then m else GrantAllShared(InsertShared(m, ws[0]), ws[1..])
  }

  /** `flockEntryTryNextWaiters` with the check its own comment asks for: nothing while an
      exclusive lock is held; all shared waiters, in queue order, when no exclusive waiter
      exists; otherwise the head exclusive waiter, provided no shared lock is held. */
  function TryNextWaiters(q: Queues): (Queues, seq<EntryLock>)
  {
    if q.excl.Some? then (q, [])
    else if q.waitersShared != [] && q.waitersExcl == [] then
      (q.(shared := GrantAllShared(q.shared, q.waitersShared), waitersShared := [],
          waiterIds := q.waiterIds - AckIds(q.waitersShared)),
       q.waitersShared)
    else if q.waitersExcl != [] && q.shared == map[] then
      var w := q.waitersExcl[0];
      (q.(excl := Some(w), waitersExcl := q.waitersExcl[1..], waiterIds := q.waiterIds - {w.ackId}),
       [w])
    else (q, [])
  }

  /** `flockEntryTryNextWaiters` exactly as the source has it: the exclusive branch does not
      look at the shared holders. */
  function TryNextWaitersAsWritten(q: Queues): (Queues, seq<EntryLock>)
  {
    if q.excl.Some? then (q, [])
    else if q.waitersShared != [] && q.waitersExcl == [] then
      (q.(shared := GrantAllShared(q.shared, q.waitersShared), waitersShared := [],
          waiterIds := q.waiterIds - AckIds(q.waitersShared)),
       q.waitersShared)
    else if q.waitersExcl != [] then
      var w := q.waitersExcl[0];
      (q.(excl := Some(w), waitersExcl := q.waitersExcl[1..], waiterIds := q.waiterIds - {w.ackId}),
       [w])
    else (q, [])
  }

  /** The waiters a cancel keeps, in queue order. */
  function Keep(ws: seq<EntryLock>, sel: Selector): seq<EntryLock>
    decreases |ws|
  {
    if ws == [] then []
    else
      var w := ws[|ws| - 1];
      Keep(ws[..|ws| - 1], sel) + (if sel.Matches(w.owner) then [] else [w])
  }

  /** The waiters a cancel removes, in queue order. */
  function Drop(ws: seq<EntryLock>, sel: Selector): seq<EntryLock>
    decreases |ws|
  {
    if ws == [] then []
    else
      var w := ws[|ws| - 1];
      Drop(ws[..|ws| - 1], sel) + (if sel.Matches(w.owner) then [w] else [])
  }

  function KeepShared(m: map<Owner, EntryLock>, sel: Selector): map<Owner, EntryLock>
  {
    map o | o in m && !sel.Matches(m[o].owner) :: m[o]
  }

  /** `flockEntryCancelByHandle` / the body of `flockEntryGenericCancelByClientID`: remove
      every granted lock and waiter the selector matches, and the removed waiters' ack IDs;
      the flag says whether anything was removed. */
  function CancelMatching(q: Queues, sel: Selector): (Queues, bool)
  {
    var exclHit := q.excl.Some? && sel.Matches(q.excl.value.owner);
    var sharedHit := exists o :: o in q.shared && sel.Matches(q.shared[o].owner);
    var dropped := Drop(q.waitersExcl, sel) + Drop(q.waitersShared, sel);
    (Queues(if exclHit then None else q.excl,
            KeepShared(q.shared, sel),
            Keep(q.waitersExcl, sel),
            Keep(q.waitersShared, sel),
            q.waiterIds - AckIds(dropped)),
     exclHit || sharedHit || dropped != [])
  }

  /** `flockEntryGenericCancelByClientID`: cancel everything of one client node, then try
      the waiters if anything was removed. */
  function CancelByClientID(q: Queues, clientId: nat): (Queues, seq<EntryLock>)
  {
    var (q1, removed) := CancelMatching(q, ByClient(clientId));
    if removed then TryNextWaiters(q1) else (q1, [])
  }

  /** `flockEntryGenericCancelAllWaiters`. */
  function CancelAllWaiters(q: Queues): Queues
  {
    q.(waitersExcl := [], waitersShared := [], waiterIds := {})
  }

  /** `flockEntryShared` / `flockEntryExclusive`. */
  function Grant(q: Queues, d: EntryLock): Queues
  {
    if d.op.Shared? then q.(shared := InsertShared(q.shared, d)) else q.(excl := Some(d))
  }

  /** Append a conflicting request to its waiter queue and record its ack ID. */
  function Enqueue(q: Queues, d: EntryLock): Queues
  {
    if d.op.Shared? then
      q.(waitersShared := q.waitersShared + [d], waiterIds := q.waiterIds + {d.ackId})
    else
      q.(waitersExcl := q.waitersExcl + [d], waiterIds := q.waiterIds + {d.ackId})
  }

  function Finish(q: Queues, granted: bool, tryNext: bool): (Queues, bool, seq<EntryLock>)
  {
    if tryNext then
      var (q1, notify) := TryNextWaiters(q);
      (q1, granted, notify)
    else (q, granted, [])
  }

  /** `flockEntryUnlocked`: the new state, whether the request was granted immediately, and
      the waiters granted as a consequence (to be notified). */
  function Request(q: Queues, d: EntryLock): (Queues, bool, seq<EntryLock>)
  {
    if d.op.Cancel? then
      var (q1, removed) := CancelMatching(q, ByHandle(d.owner));
      Finish(q1, true, removed)
    else if d.op.Unlock? then
      var (q1, released) := Release(q, d.owner);
      Finish(q1, true, released)
    else if d.ackId in q.waiterIds then (q, false, [])
    else if IsGranted(q, d) then (q, true, [])
    else
      var conflict := Conflicts(q, d);
      var (q1, released) := if !conflict || d.mayWait then Release(q, d.owner) else (q, false);
      if !conflict then Finish(Grant(q1, d), true, released)
      else if d.mayWait then Finish(Enqueue(q1, d), false, released)
      else Finish(q1, false, released)
  }
}
