/** The byte-range (POSIX record) lock manager of a file inode, as values.

    Each function mirrors one `flockRange*` routine of `FileInode` and computes the state it
    leaves behind; the class in module `RangeLocking` performs the same steps in place and is
    proved to agree with these functions. The granted ranges live in ordered sets in the
    source; here they are sequences whose order carries no meaning, and the early exits the
    source takes once the set order passes the request's end are left out. */
module RangeLockSpec {
  import opened LockCommon
  import opened RangeDetails

  /** Granted exclusive and shared ranges, the FIFO queues of exclusive and shared waiters,
      and the ack IDs of all waiters. */
  datatype Table = Table(
    excl: seq<RangeLock>,
    shared: seq<RangeLock>,
    waitersExcl: seq<RangeLock>,
    waitersShared: seq<RangeLock>,
    waiterIds: set<AckId>)

  const Empty: Table := Table([], [], [], [], {})

  function AckIds(ws: seq<RangeLock>): set<AckId>
  {
    set w | w in ws :: w.ackId
  }

  predicate DistinctAcks(ws: seq<RangeLock>)
  {
    forall i, j :: 0 <= i < j < |ws| ==> ws[i].ackId != ws[j].ackId
  }

  predicate AllWellFormed(rs: seq<RangeLock>)
  {
    forall r :: r in rs ==> WellFormed(r)
  }

  /** Owner `o` holds byte `x` through one of the ranges `rs`. */
  predicate Held(rs: seq<RangeLock>, o: Owner, x: int)
  {
    exists r :: r in rs && r.owner == o && Covers(r, x)
  }

  /** What the merging on insert keeps: two ranges of one owner never overlap and are never
      side by side. */
  predicate Merged(rs: seq<RangeLock>)
  {
    forall i, j :: 0 <= i < |rs| && 0 <= j < |rs| && i != j && rs[i].owner == rs[j].owner ==>
      !Touches(rs[i], rs[j])
  }

  /** Bookkeeping invariant: ranges are well formed, granted ranges are merged, each waiter
      queue holds requests of its own kind, no ack ID waits twice, and the waiter-ID set is
      exactly the IDs in the two queues. */
  predicate Valid(t: Table)
  {
    && AllWellFormed(t.excl) && AllWellFormed(t.shared)
    && AllWellFormed(t.waitersExcl) && AllWellFormed(t.waitersShared)
    && (forall w :: w in t.waitersExcl ==> w.op.Exclusive?)
    && (forall w :: w in t.waitersShared ==> w.op.Shared?)
    && Merged(t.excl) && Merged(t.shared)
    && DistinctAcks(t.waitersExcl) && DistinctAcks(t.waitersShared)
    && AckIds(t.waitersExcl) !! AckIds(t.waitersShared)
    && t.waiterIds == AckIds(t.waitersExcl) + AckIds(t.waitersShared)
  }

  /** `r` stands in the way of `d`: it overlaps and belongs to another handle. */
  predicate Blocks(r: RangeLock, d: RangeLock)
  {
    Overlaps(d, r) && r.owner != d.owner
  }

  /** Mutual exclusion: an exclusive range overlaps no exclusive or shared range of another
      handle. */
  predicate NoConflict(t: Table)
  {
    && (forall a, b :: a in t.excl && b in t.excl ==> !Blocks(a, b))
    && (forall a, b :: a in t.excl && b in t.shared ==> !Blocks(a, b))
  }

  /** `flockRangeCheckConflictsEx`: a foreign overlapping exclusive range blocks every
      request, a foreign overlapping shared range blocks an exclusive request, and a foreign
      overlapping exclusive waiter among the first `limit` of the queue (all of it when
      `limit` is negative) blocks every request. */
  predicate ConflictsEx(t: Table, d: RangeLock, limit: int)
  {
    || (exists i :: 0 <= i < |t.excl| && Blocks(t.excl[i], d))
    || (d.op.Exclusive? && exists i :: 0 <= i < |t.shared| && Blocks(t.shared[i], d))
    || (exists i :: 0 <= i < |t.waitersExcl| && (limit < 0 || i < limit) && Blocks(t.waitersExcl[i], d))
  }

  /** `flockRangeCheckConflicts`: the whole exclusive waiter queue counts. */
  predicate Conflicts(t: Table, d: RangeLock)
  {
    ConflictsEx(t, d, -1)
  }

  /** The scan of `flockRangeIsGranted`: the first range of the handle that overlaps the
      request decides; it grants when it contains the request. */
  function GrantedIn(rs: seq<RangeLock>, d: RangeLock): bool
    decreases |rs|
  {
    if rs == [] then false
    else if rs[0].owner != d.owner then GrantedIn(rs[1..], d)
    else match OverlapKind(d, rs[0])
      case Equals => true
      case IsContained => true
      case Contains => false
      case StartOverlap => false
      case EndOverlap => false
      case NoOverlap => GrantedIn(rs[1..], d)
  }

  /** `flockRangeIsGranted`. */
  predicate IsGranted(t: Table, d: RangeLock)
  {
    if d.op.Exclusive? then GrantedIn(t.excl, d)
    else if d.op.Shared? then GrantedIn(t.shared, d)
    else false
  }

  /** The merge loop of `flockRangeShared` / `flockRangeExclusive`: every range of the handle
      that touches the growing request is merged into it and erased. Returns the ranges
      kept and the grown request. */
  function MergeScan(rs: seq<RangeLock>, d: RangeLock): (seq<RangeLock>, RangeLock)
    decreases |rs|
  {
    if rs == [] then ([], d)
    else if rs[0].owner == d.owner && Touches(d, rs[0]) then MergeScan(rs[1..], Merge(d, rs[0]))
    else
      var (kept, m) := MergeScan(rs[1..], d);
      ([rs[0]] + kept, m)
  }

  /** `flockRangeShared` / `flockRangeExclusive`: merge, then insert the grown request. */
  function MergeInsert(rs: seq<RangeLock>, d: RangeLock): seq<RangeLock>
  {
    var (kept, m) := MergeScan(rs, d);
    kept + [m]
  }

  /** One loop of `flockRangeUnlock` over a granted set: each range of the handle that
      overlaps the unlock is replaced by what lies outside the unlock (trim or split); the
      scan stops at a range that contains the whole unlock. Returns the new ranges, whether
      any range was touched, and whether the scan stopped early. */
  function UnlockScan(rs: seq<RangeLock>, u: RangeLock): (seq<RangeLock>, bool, bool)
    decreases |rs|
  {
    if rs == [] then ([], false, false)
    else
      var r := rs[0];
      if r.owner != u.owner then
        var (rest, removed, done) := UnlockScan(rs[1..], u);
        ([r] + rest, removed, done)
      else match OverlapKind(u, r)
        case Equals => (rs[1..], true, true)
        case IsContained => (Remainder(r, u) + rs[1..], true, true)
        case Contains =>
          var (rest, _, done) := UnlockScan(rs[1..], u);
          (rest, true, done)
        case StartOverlap =>
          var (rest, _, done) := UnlockScan(rs[1..], u);
          (Remainder(r, u) + rest, true, done)
        case EndOverlap =>
          var (rest, _, done) := UnlockScan(rs[1..], u);
          (Remainder(r, u) + rest, true, done)
        case NoOverlap =>
          var (rest, removed, done) := UnlockScan(rs[1..], u);
          ([r] + rest, removed, done)
  }

  /** `flockRangeUnlock`: the exclusive ranges first; the shared ranges only when no
      exclusive range contained the whole unlock. The flag says whether a range was
      removed or cut. */
  function Release(t: Table, u: RangeLock): (Table, bool)
  {
    var (ex, removedEx, doneEx) := UnlockScan(t.excl, u);
    if doneEx then (t.(excl := ex), true)
    else
      var (sh, removedSh, _) := UnlockScan(t.shared, u);
      (t.(excl := ex, shared := sh), removedEx || removedSh)
  }

  /** The ranges a cancel keeps, in order. */
  function Keep(rs: seq<RangeLock>, sel: Selector): seq<RangeLock>
    decreases |rs|
  {
    if rs == [] then []
    else
      var r := rs[|rs| - 1];
      Keep(rs[..|rs| - 1], sel) + (if sel.Matches(r.owner) then [] else [r])
  }

  /** The ranges a cancel removes, in order. */
  function Drop(rs: seq<RangeLock>, sel: Selector): seq<RangeLock>
    decreases |rs|
  {
    if rs == [] then []
    else
      var r := rs[|rs| - 1];
      Drop(rs[..|rs| - 1], sel) + (if sel.Matches(r.owner) then [r] else [])
  }

  /** `flockRangeCancelByHandle` / the body of `flockRangeCancelByClientID`: remove every
      granted range and waiter the selector matches; the flag says whether anything went. */
  function CancelMatching(t: Table, sel: Selector): (Table, bool)
  {
    var droppedWaiters := Drop(t.waitersExcl, sel) + Drop(t.waitersShared, sel);
    (Table(Keep(t.excl, sel), Keep(t.shared, sel), Keep(t.waitersExcl, sel), Keep(t.waitersShared, sel),
           t.waiterIds - AckIds(droppedWaiters)),
     Drop(t.excl, sel) != [] || Drop(t.shared, sel) != [] || droppedWaiters != [])
  }

  /** The queue without its element at `i`. */
  function RemoveAt(ws: seq<RangeLock>, i: nat): seq<RangeLock>
    requires i < |ws|
  {
    ws[..i] + ws[i + 1..]
  }

  /** Grants the exclusive waiter at `i`: it is merged into the exclusive ranges, taken off
      the queue, and its ack ID is forgotten. Returns the new table and the lock as granted. */
  function GrantExclAt(t: Table, i: nat): (Table, RangeLock)
    requires i < |t.waitersExcl|
  {
    var w := t.waitersExcl[i];
    var (kept, m) := MergeScan(t.excl, w);
    (t.(excl := kept + [m], waitersExcl := RemoveAt(t.waitersExcl, i), waiterIds := t.waiterIds - {w.ackId}), m)
  }

  /** Grants the shared waiter at `i`, likewise. */
  function GrantSharedAt(t: Table, i: nat): (Table, RangeLock)
    requires i < |t.waitersShared|
  {
    var w := t.waitersShared[i];
    var (kept, m) := MergeScan(t.shared, w);
    (t.(shared := kept + [m], waitersShared := RemoveAt(t.waitersShared, i), waiterIds := t.waiterIds - {w.ackId}), m)
  }

  /** First loop of `flockRangeTryNextWaiters`, from queue position `i` on: an exclusive
      waiter is granted when it conflicts neither with the granted ranges nor with the
      exclusive waiters still queued before it. The notify list receives the granted
      waiters as merged. */
  function GrantExclWaiters(t: Table, i: nat, notify: seq<RangeLock>): (Table, seq<RangeLock>)
    decreases |t.waitersExcl| - i
  {
    if i >= |t.waitersExcl| then (t, notify)
    else if ConflictsEx(t, t.waitersExcl[i], i) then GrantExclWaiters(t, i + 1, notify)
    else
      var (t1, m) := GrantExclAt(t, i);
      GrantExclWaiters(t1, i, notify + [m])
  }

  /** Second loop of `flockRangeTryNextWaiters`: a shared waiter is granted when it conflicts
      with no granted exclusive range and no exclusive waiter left in the queue. */
  function GrantSharedWaiters(t: Table, i: nat, notify: seq<RangeLock>): (Table, seq<RangeLock>)
    decreases |t.waitersShared| - i
  {
    if i >= |t.waitersShared| then (t, notify)
    else if Conflicts(t, t.waitersShared[i]) then GrantSharedWaiters(t, i + 1, notify)
    else
      var (t1, m) := GrantSharedAt(t, i);
      GrantSharedWaiters(t1, i, notify + [m])
  }

  /** `flockRangeTryNextWaiters`: exclusive waiters first, then shared ones. */
  function TryNextWaiters(t: Table): (Table, seq<RangeLock>)
  {
    var (t1, notify) := GrantExclWaiters(t, 0, []);
    GrantSharedWaiters(t1, 0, notify)
  }

  /** `flockRangeCancelByClientID`. */
  function CancelByClientID(t: Table, clientId: nat): (Table, seq<RangeLock>)
  {
    var (t1, removed) := CancelMatching(t, ByClient(clientId));
    if removed then TryNextWaiters(t1) else (t1, [])
  }

  /** `flockRangeCancelAllWaiters`. */
  function CancelAllWaiters(t: Table): Table
  {
    t.(waitersExcl := [], waitersShared := [], waiterIds := {})
  }

  /** `flockRangeShared` / `flockRangeExclusive`. */
  function Grant(t: Table, d: RangeLock): Table
  {
    if d.op.Shared? then t.(shared := MergeInsert(t.shared, d)) else t.(excl := MergeInsert(t.excl, d))
  }

  /** Append a conflicting request to its waiter queue and record its ack ID. */
  function Enqueue(t: Table, d: RangeLock): Table
  {
    if d.op.Shared? then
      t.(waitersShared := t.waitersShared + [d], waiterIds := t.waiterIds + {d.ackId})
    else
      t.(waitersExcl := t.waitersExcl + [d], waiterIds := t.waiterIds + {d.ackId})
  }

  function Finish(t: Table, granted: bool, tryNext: bool): (Table, bool, seq<RangeLock>)
  {
    if tryNext then
      var (t1, notify) := TryNextWaiters(t);
      (t1, granted, notify)
    else (t, granted, [])
  }

  /** `flockRangeUnlocked`: the new state, whether the request was granted immediately, and
      the waiters granted as a consequence (to be notified). */
  function Request(t: Table, d: RangeLock): (Table, bool, seq<RangeLock>)
  {
    if d.op.Cancel? then
      var (t1, removed) := CancelMatching(t, ByHandle(d.owner));
      Finish(t1, true, removed)
    else if d.op.Unlock? then
      var (t1, released) := Release(t, d);
      Finish(t1, true, released)
    else if d.ackId in t.waiterIds then (t, false, [])
    else if IsGranted(t, d) then (t, true, [])
    else
      var conflict := Conflicts(t, d);
      var (t1, released) := if !conflict || d.mayWait then Release(t, d) else (t, false);
      if !conflict then Finish(Grant(t1, d), true, released)
      else if d.mayWait then Finish(Enqueue(t1, d), false, released)
      else Finish(t1, false, released)
  }
}
