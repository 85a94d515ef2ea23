/** The byte-range lock table of a file inode as mutable state: the loops of the C++
    routines over the granted sets and waiter queues, with each routine proved to leave the
    state that the matching function of `RangeLockSpec` computes, and to keep the invariants
    of `RangeLockLemmas`. */
module RangeLocking {
  import opened LockCommon
  import opened RangeDetails
  import opened RangeLockSpec
  import RangeLockLemmas

  /** The merge loop of `flockRangeShared` / `flockRangeExclusive`: erases every range of the
      handle that touches the growing request and merges it in. */
  method MergeRanges(rs: seq<RangeLock>, d: RangeLock) returns (kept: seq<RangeLock>, m: RangeLock)
    ensures (kept, m) == MergeScan(rs, d)
  {
    kept, m := [], d;
    var i := 0;
    assert rs[0..] == rs;
    assert [] + MergeScan(rs, d).0 == MergeScan(rs, d).0;
    while i < |rs|
      invariant 0 <= i <= |rs|
      invariant MergeScan(rs, d) == (kept + MergeScan(rs[i..], m).0, MergeScan(rs[i..], m).1)
    {
      assert rs[i..][1..] == rs[i + 1..];
      if rs[i].owner == m.owner && Touches(m, rs[i]) {
        m := Merge(m, rs[i]);
      } else {
        assert kept + MergeScan(rs[i..], m).0 == (kept + [rs[i]]) + MergeScan(rs[i + 1..], m).0;
        kept := kept + [rs[i]];
      }
      i := i + 1;
    }
    assert kept + [] == kept;
  }

  /** The loop of `flockRangeUnlock` over one granted set: trims, splits or erases each range
      of the handle that overlaps the unlock, and stops at a range equal to or containing it. */
  method UnlockRanges(rs: seq<RangeLock>, u: RangeLock) returns (rest: seq<RangeLock>, removed: bool, done: bool)
    ensures (rest, removed, done) == UnlockScan(rs, u)
  {
    rest, removed := [], false;
    var todo := rs;
    assert [] + UnlockScan(rs, u).0 == UnlockScan(rs, u).0;
    while todo != []
      invariant UnlockScan(rs, u).0 == rest + UnlockScan(todo, u).0
      invariant UnlockScan(rs, u).1 == (removed || UnlockScan(todo, u).1)
      invariant UnlockScan(rs, u).2 == UnlockScan(todo, u).2
      decreases |todo|
    {
      var r := todo[0];
      ghost var next := UnlockScan(todo[1..], u);
      if r.owner != u.owner {
        assert rest + ([r] + next.0) == (rest + [r]) + next.0;
        rest := rest + [r];
      } else {
        match OverlapKind(u, r)
        case Equals =>
          return rest + todo[1..], true, true;
        case IsContained =>
          assert rest + (Remainder(r, u) + todo[1..]) == rest + Remainder(r, u) + todo[1..];
          return rest + Remainder(r, u) + todo[1..], true, true;
        case Contains =>
          removed := true;
        case StartOverlap =>
          assert rest + (Remainder(r, u) + next.0) == (rest + Remainder(r, u)) + next.0;
          rest := rest + Remainder(r, u);
          removed := true;
        case EndOverlap =>
          assert rest + (Remainder(r, u) + next.0) == (rest + Remainder(r, u)) + next.0;
          rest := rest + Remainder(r, u);
          removed := true;
        case NoOverlap =>
          assert rest + ([r] + next.0) == (rest + [r]) + next.0;
          rest := rest + [r];
      }
      todo := todo[1..];
    }
    assert rest + [] == rest;
    done := false;
  }

  /** The scan of `flockRangeIsGranted` over one granted set. */
  method ScanGranted(rs: seq<RangeLock>, d: RangeLock) returns (granted: bool)
    ensures granted == GrantedIn(rs, d)
  {
    var i := 0;
    while i < |rs|
      invariant 0 <= i <= |rs|
      invariant GrantedIn(rs, d) == GrantedIn(rs[i..], d)
    {
      assert rs[i..][1..] == rs[i + 1..];
      if rs[i].owner == d.owner && Overlaps(d, rs[i]) {
        return rs[i].start <= d.start && d.end <= rs[i].end;
      }
      i := i + 1;
    }
    return false;
  }

  /** The erase loop of the cancel routines over one sequence: what is kept, in order, and
      what is removed. */
  method FilterRanges(rs: seq<RangeLock>, sel: Selector) returns (kept: seq<RangeLock>, dropped: seq<RangeLock>)
    ensures kept == Keep(rs, sel) && dropped == Drop(rs, sel)
  {
    kept, dropped := [], [];
    var i := 0;
    while i < |rs|
      invariant 0 <= i <= |rs|
      invariant kept == Keep(rs[..i], sel) && dropped == Drop(rs[..i], sel)
    {
      assert rs[..i + 1][..i] == rs[..i];
      if sel.Matches(rs[i].owner) {
        dropped := dropped + [rs[i]];
      } else {
        kept := kept + [rs[i]];
      }
      i := i + 1;
    }
    assert rs[..|rs|] == rs;
  }

  /** `flockRangeCheckConflictsEx` on a table given as values. */
  method CheckConflictsEx(t: Table, d: RangeLock, limit: int) returns (conflict: bool)
    ensures conflict <==> ConflictsEx(t, d, limit)
  {
    var i := 0;
    while i < |t.excl|
      invariant 0 <= i <= |t.excl|
      invariant forall k :: 0 <= k < i ==> !Blocks(t.excl[k], d)
    {
      if Blocks(t.excl[i], d) {
        return true;
      }
      i := i + 1;
    }
    if d.op.Exclusive? {
      i := 0;
      while i < |t.shared|
        invariant 0 <= i <= |t.shared|
        invariant forall k :: 0 <= k < i ==> !Blocks(t.shared[k], d)
      {
        if Blocks(t.shared[i], d) {
          return true;
        }
        i := i + 1;
      }
    }
    i := 0;
    var left := limit;
    while i < |t.waitersExcl| && left != 0
      invariant 0 <= i <= |t.waitersExcl|
      invariant left == limit - i && (limit >= 0 ==> i <= limit)
      invariant forall k :: 0 <= k < i ==> !Blocks(t.waitersExcl[k], d)
    {
      if Blocks(t.waitersExcl[i], d) {
        return true;
      }
      i := i + 1;
      left := left - 1;
    }
    return false;
  }

  /** The byte-range lock table of one file inode (`exclRangeFLocks`, `sharedRangeFLocks`,
      `waitersExclRangeFLock`, `waitersSharedRangeFLock`, `waitersLockIDsRangeFLock`). Every
      method computes the state its `RangeLockSpec` function describes. Every method that
      changes the table, except `Grant`, keeps the invariant `Valid()` whenever it held
      before; `Release` and `Request` do so for a well-formed range. `Grant` is the bare
      insertion, which keeps it only for a request that passed the conflict check
      (`RangeLockLemmas.GrantFacts`). */
  class RangeLockTable {
    var excl: seq<RangeLock>
    var shared: seq<RangeLock>
    var waitersExcl: seq<RangeLock>
    var waitersShared: seq<RangeLock>
    var waiterIds: set<AckId>

    function Snapshot(): Table
      reads this
    {
      Table(excl, shared, waitersExcl, waitersShared, waiterIds)
    }

    ghost predicate Valid()
      reads this
    {
      RangeLockSpec.Valid(Snapshot()) && NoConflict(Snapshot())
    }

    constructor ()
      ensures Valid() && Snapshot() == Empty
    {
      excl, shared, waitersExcl, waitersShared, waiterIds := [], [], [], [], {};
      assert AckIds([]) == {};
    }

    /** `flockRangeIsGranted`. */
    method IsGranted(d: RangeLock) returns (granted: bool)
      ensures granted == RangeLockSpec.IsGranted(Snapshot(), d)
    {
      granted := false;
      if d.op.Exclusive? {
        granted := ScanGranted(excl, d);
      } else if d.op.Shared? {
        granted := ScanGranted(shared, d);
      }
    }

    /** `flockRangeUnlock`. */
    method Release(u: RangeLock) returns (released: bool)
      modifies this
      ensures (Snapshot(), released) == RangeLockSpec.Release(old(Snapshot()), u)
      ensures old(Valid()) && WellFormed(u) ==> Valid()
    {
      ghost var t0, valid0 := Snapshot(), Valid();
      var removedEx, doneEx;
      excl, removedEx, doneEx := UnlockRanges(excl, u);
      if doneEx {
        released := true;
      } else {
        var removedSh, doneSh;
        shared, removedSh, doneSh := UnlockRanges(shared, u);
        released := removedEx || removedSh;
      }
      if valid0 && WellFormed(u) {
        RangeLockLemmas.ReleaseFacts(t0, u);
      }
    }

    /** `flockRangeShared` / `flockRangeExclusive`: merge the request into the set of its
        kind and insert it. */
    method Grant(d: RangeLock)
      modifies this
      ensures Snapshot() == RangeLockSpec.Grant(old(Snapshot()), d)
    {
      if d.op.Shared? {
        var kept, m := MergeRanges(shared, d);
        shared := kept + [m];
      } else {
        var kept, m := MergeRanges(excl, d);
        excl := kept + [m];
      }
    }

    /** `flockRangeCancelByHandle` and the removal part of `flockRangeCancelByClientID`. */
    method CancelMatching(sel: Selector) returns (removed: bool)
      modifies this
      ensures (Snapshot(), removed) == RangeLockSpec.CancelMatching(old(Snapshot()), sel)
      ensures old(Valid()) ==> Valid()
    {
      ghost var t0, valid0 := Snapshot(), Valid();
      var droppedExcl, droppedShared, droppedWaitersExcl, droppedWaitersShared;
      excl, droppedExcl := FilterRanges(excl, sel);
      shared, droppedShared := FilterRanges(shared, sel);
      waitersExcl, droppedWaitersExcl := FilterRanges(waitersExcl, sel);
      waitersShared, droppedWaitersShared := FilterRanges(waitersShared, sel);
      waiterIds := waiterIds - AckIds(droppedWaitersExcl + droppedWaitersShared);
      removed := droppedExcl != [] || droppedShared != [] || droppedWaitersExcl + droppedWaitersShared != [];
      if valid0 {
        RangeLockLemmas.CancelMatchingKeepsInvariants(t0, sel);
      }
    }

    /** `flockRangeTryNextWaiters`: the exclusive waiters front to back, each checked against
        the granted ranges and the exclusive waiters still queued before it; then the shared
        waiters. Returns the granted locks, as merged, for notification. */
    method TryNextWaiters() returns (notify: seq<RangeLock>)
      modifies this
      ensures (Snapshot(), notify) == RangeLockSpec.TryNextWaiters(old(Snapshot()))
      ensures old(Valid()) ==> Valid()
    {
      ghost var t0, valid0 := Snapshot(), Valid();
      notify := [];
      var i := 0;
      while i < |waitersExcl|
        invariant i <= |waitersExcl|
        invariant GrantExclWaiters(Snapshot(), i, notify) == GrantExclWaiters(t0, 0, [])
        decreases |waitersExcl| - i
      {
        var w := waitersExcl[i];
        var conflict := CheckConflictsEx(Snapshot(), w, i);
        if conflict {
          i := i + 1;
        } else {
          var kept, m := MergeRanges(excl, w);
          excl := kept + [m];
          waitersExcl := waitersExcl[..i] + waitersExcl[i + 1..];
          waiterIds := waiterIds - {w.ackId};
          notify := notify + [m];
        }
      }
      ghost var t1 := Snapshot();
      assert GrantExclWaiters(t0, 0, []) == (t1, notify);
      i := 0;
      while i < |waitersShared|
        invariant i <= |waitersShared|
        invariant GrantSharedWaiters(Snapshot(), i, notify) == RangeLockSpec.TryNextWaiters(t0)
        decreases |waitersShared| - i
      {
        var w := waitersShared[i];
        var conflict := CheckConflictsEx(Snapshot(), w, -1);
        if conflict {
          i := i + 1;
        } else {
          var kept, m := MergeRanges(shared, w);
          shared := kept + [m];
          waitersShared := waitersShared[..i] + waitersShared[i + 1..];
          waiterIds := waiterIds - {w.ackId};
          notify := notify + [m];
        }
      }
      if valid0 {
        ghost var t' := RangeLockSpec.TryNextWaiters(t0).0;
        assert RangeLockSpec.Valid(t') && NoConflict(t') by {
          RangeLockLemmas.TryNextHandsOver(t0);
        }
      }
    }

    /** `flockRangeUnlocked`: returns whether the request was granted immediately and the
        waiters that were granted as a consequence. */
    method Request(d: RangeLock) returns (granted: bool, notify: seq<RangeLock>)
      modifies this
      ensures (Snapshot(), granted, notify) == RangeLockSpec.Request(old(Snapshot()), d)
      ensures old(Valid()) && WellFormed(d) ==> Valid()
    {
      ghost var t0, valid0 := Snapshot(), Valid();
      if valid0 && WellFormed(d) {
        RangeLockLemmas.RequestKeepsInvariants(t0, d);
      }
      var tryNext := false;
      granted := false;
      if d.op.Cancel? {
        tryNext := CancelMatching(ByHandle(d.owner));
        granted := true;
      } else if d.op.Unlock? {
        tryNext := Release(d);
        granted := true;
      } else {
        if d.ackId in waiterIds {
          return false, [];
        }
        var isGranted := IsGranted(d);
        if isGranted {
          return true, [];
        }
        var conflict := CheckConflictsEx(Snapshot(), d, -1);
        if !conflict || d.mayWait {
          tryNext := Release(d);
        }
        if !conflict {
          Grant(d);
          granted := true;
        } else if d.mayWait {
          if d.op.Shared? {
            waitersShared := waitersShared + [d];
          } else {
            waitersExcl := waitersExcl + [d];
          }
          waiterIds := waiterIds + {d.ackId};
        }
      }
      notify := [];
      if tryNext {
        notify := TryNextWaiters();
      }
    }

    /** `flockRangeCancelByClientID`. */
    method CancelByClientID(clientId: nat) returns (notify: seq<RangeLock>)
      modifies this
      ensures (Snapshot(), notify) == RangeLockSpec.CancelByClientID(old(Snapshot()), clientId)
      ensures old(Valid()) ==> Valid()
    {
      ghost var t0, valid0 := Snapshot(), Valid();
      var removed := CancelMatching(ByClient(clientId));
      notify := [];
      if removed {
        notify := TryNextWaiters();
      }
      if valid0 {
        RangeLockLemmas.CancelByClientIDLeavesNothingOfClient(t0, clientId);
      }
    }

    /** `flockRangeCancelAllWaiters`. */
    method CancelAllWaiters()
      modifies this
      ensures Snapshot() == RangeLockSpec.CancelAllWaiters(old(Snapshot()))
      ensures old(Valid()) ==> Valid()
    {
      ghost var t0, valid0 := Snapshot(), Valid();
      waiterIds := {};
      waitersExcl := [];
      waitersShared := [];
      if valid0 {
        RangeLockLemmas.CancelAllWaitersKeepsInvariants(t0);
      }
    }
  }
}
