/** Properties of the range lock manager as a whole: what unlock, grant, cancel and the
    waiter hand-over do to the held bytes, and the bookkeeping and mutual-exclusion
    invariants every routine keeps. */
module RangeLockLemmas {
  import opened LockCommon
  import opened RangeDetails
  import opened RangeLockSpec
  import opened RangeMergeLemmas
  import opened RangeQueueLemmas

  /** Every range of `rs'` lies inside a range of the same handle in `rs`. */
  ghost predicate Shrunk(rs': seq<RangeLock>, rs: seq<RangeLock>)
  {
    forall r :: r in rs' ==> exists s :: s in rs && Within(r, s)
  }

  /** Shrinking granted ranges cannot create a conflict between handles. */
  lemma ShrunkNoConflict(t: Table, t': Table)
    requires NoConflict(t) && Shrunk(t'.excl, t.excl) && Shrunk(t'.shared, t.shared)
    ensures NoConflict(t')
  {
    forall a, b | a in t'.excl && (b in t'.excl || b in t'.shared) ensures !Blocks(a, b) {
      var a0 :| a0 in t.excl && Within(a, a0);
      var b0 :| (b0 in t.excl || b0 in t.shared) && Within(b, b0);
      assert !Blocks(a0, b0);
    }
  }

  /** Shrinking granted ranges cannot make a request conflict that did not before. */
  lemma ShrunkConflicts(t: Table, t': Table, d: RangeLock, limit: int)
    requires Shrunk(t'.excl, t.excl) && Shrunk(t'.shared, t.shared) && t'.waitersExcl == t.waitersExcl
    requires !ConflictsEx(t, d, limit)
    ensures !ConflictsEx(t', d, limit)
  {
    forall i | 0 <= i < |t'.excl| ensures !Blocks(t'.excl[i], d) {
      assert t'.excl[i] in t'.excl;
      var s :| s in t.excl && Within(t'.excl[i], s);
      var j :| 0 <= j < |t.excl| && t.excl[j] == s;
    }
    if d.op.Exclusive? {
      forall i | 0 <= i < |t'.shared| ensures !Blocks(t'.shared[i], d) {
        assert t'.shared[i] in t'.shared;
        var s :| s in t.shared && Within(t'.shared[i], s);
        var j :| 0 <= j < |t.shared| && t.shared[j] == s;
      }
    }
  }

  // ----- unlock -----

  lemma UnlockScanShrunk(rs: seq<RangeLock>, u: RangeLock)
    requires AllWellFormed(rs) && Merged(rs) && WellFormed(u)
    ensures Shrunk(UnlockScan(rs, u).0, rs)
    ensures AllWellFormed(UnlockScan(rs, u).0) && Merged(UnlockScan(rs, u).0)
  {
    UnlockScanFacts(rs, u);
  }

  /** The bytes `flockRangeUnlock` removes: exactly the handle's unlocked bytes of its
      exclusive ranges, and of its shared ranges too unless one exclusive range contained
      the whole unlock; the result says whether the handle had a range overlapping it. */
  lemma ReleaseHeldBytes(t: Table, u: RangeLock)
    requires Valid(t) && WellFormed(u)
    ensures var (t', released) := Release(t, u);
      && (forall o, x :: Held(t'.excl, o, x) <==> Held(t.excl, o, x) && !(o == u.owner && Covers(u, x)))
      && (Encloses(t.excl, u) ==> t'.shared == t.shared)
      && (!Encloses(t.excl, u) ==>
            forall o, x :: Held(t'.shared, o, x) <==> Held(t.shared, o, x) && !(o == u.owner && Covers(u, x)))
      && (released <==> OwnOverlap(t.excl, u) || OwnOverlap(t.shared, u))
  {
    UnlockScanFacts(t.excl, u);
    UnlockScanFacts(t.shared, u);
    if Encloses(t.excl, u) {
      var e :| e in t.excl && e.owner == u.owner && e.start <= u.start && u.end <= e.end;
      assert Overlaps(u, e);
    }
  }

  /** `flockRangeUnlock` touches no waiter, only shrinks granted ranges, and keeps the
      invariants. */
  lemma ReleaseKeepsInvariants(t: Table, u: RangeLock)
    requires Valid(t) && NoConflict(t) && WellFormed(u)
    ensures var t' := Release(t, u).0;
      && Valid(t') && NoConflict(t')
      && t'.waitersExcl == t.waitersExcl && t'.waitersShared == t.waitersShared
      && t'.waiterIds == t.waiterIds
      && Shrunk(t'.excl, t.excl) && Shrunk(t'.shared, t.shared)
  {
    UnlockScanShrunk(t.excl, u);
    UnlockScanShrunk(t.shared, u);
    var t' := Release(t, u).0;
    if UnlockScan(t.excl, u).2 {
      forall r | r in t.shared ensures exists s :: s in t.shared && Within(r, s) {
        assert Within(r, r);
      }
    }
    ShrunkNoConflict(t, t');
  }

  /** `flockRangeUnlock` as a whole: the bytes of `ReleaseHeldBytes` are removed, nothing
      else changes, and the invariants hold afterwards. */
  lemma ReleaseFacts(t: Table, u: RangeLock)
    requires Valid(t) && NoConflict(t) && WellFormed(u)
    ensures var (t', released) := Release(t, u);
      && Valid(t') && NoConflict(t')
      && t'.waitersExcl == t.waitersExcl && t'.waitersShared == t.waitersShared
      && t'.waiterIds == t.waiterIds
      && Shrunk(t'.excl, t.excl) && Shrunk(t'.shared, t.shared)
      && (forall o, x :: Held(t'.excl, o, x) <==> Held(t.excl, o, x) && !(o == u.owner && Covers(u, x)))
      && (Encloses(t.excl, u) ==> t'.shared == t.shared)
      && (!Encloses(t.excl, u) ==>
            forall o, x :: Held(t'.shared, o, x) <==> Held(t.shared, o, x) && !(o == u.owner && Covers(u, x)))
      && (released <==> OwnOverlap(t.excl, u) || OwnOverlap(t.shared, u))
  {
    ReleaseHeldBytes(t, u);
    ReleaseKeepsInvariants(t, u);
  }

  // ----- grant -----

  /** Granting an exclusive request no foreign range overlaps keeps mutual exclusion. */
  lemma GrantExclNoConflict(t: Table, d: RangeLock)
    requires NoConflict(t) && AllWellFormed(t.excl) && AllWellFormed(t.shared) && Merged(t.excl)
    requires WellFormed(d)
    requires forall a :: a in t.excl ==> !Blocks(a, d)
    requires forall b :: b in t.shared ==> !Blocks(b, d)
    ensures NoConflict(t.(excl := MergeInsert(t.excl, d)))
  {
    var t' := t.(excl := MergeInsert(t.excl, d));
    var m := MergeScan(t.excl, d).1;
    MergeScanFacts(t.excl, d);
    MergeInsertHeld(t.excl, d);
    forall a, b | a in t'.excl && (b in t'.excl || b in t'.shared) ensures !Blocks(a, b) {
      if a == m && b != m && b.owner != d.owner {
        assert b in t.excl || b in t.shared;
        assert WellFormed(b);
        MergeScanOverlap(t.excl, d, b);
        assert forall r :: r in t.excl && r.owner == d.owner ==> !Blocks(r, b);
      } else if b == m && a != m && a.owner != d.owner {
        assert a in t.excl && WellFormed(a);
        MergeScanOverlap(t.excl, d, a);
        assert forall r :: r in t.excl && r.owner == d.owner ==> !Blocks(a, r);
      }
    }
  }

  /** Granting a shared request no foreign exclusive range overlaps keeps mutual exclusion. */
  lemma GrantSharedNoConflict(t: Table, d: RangeLock)
    requires NoConflict(t) && AllWellFormed(t.excl) && AllWellFormed(t.shared) && Merged(t.shared)
    requires WellFormed(d)
    requires forall a :: a in t.excl ==> !Blocks(a, d)
    ensures NoConflict(t.(shared := MergeInsert(t.shared, d)))
  {
    var t' := t.(shared := MergeInsert(t.shared, d));
    var m := MergeScan(t.shared, d).1;
    MergeScanFacts(t.shared, d);
    MergeInsertHeld(t.shared, d);
    forall a, b | a in t'.excl && (b in t'.excl || b in t'.shared) ensures !Blocks(a, b) {
      if b == m && a.owner != d.owner {
        assert WellFormed(a);
        MergeScanOverlap(t.shared, d, a);
        assert forall r :: r in t.shared && r.owner == d.owner ==> !Blocks(a, r);
      }
    }
  }

  /** No foreign granted range in the way, stated by membership. */
  lemma NotConflictsMembers(t: Table, d: RangeLock, limit: int)
    requires !ConflictsEx(t, d, limit)
    ensures forall a :: a in t.excl ==> !Blocks(a, d)
    ensures d.op.Exclusive? ==> forall b :: b in t.shared ==> !Blocks(b, d)
  {
    forall a | a in t.excl ensures !Blocks(a, d) {
      var i :| 0 <= i < |t.excl| && t.excl[i] == a;
    }
    if d.op.Exclusive? {
      forall b | b in t.shared ensures !Blocks(b, d) {
        var i :| 0 <= i < |t.shared| && t.shared[i] == b;
      }
    }
  }

  /** `flockRangeShared` / `flockRangeExclusive` for a request without conflicts: the
      requester gains exactly the request's bytes in the set of its kind, the other set and
      the queues stay as they were, and the invariants hold afterwards. */
  lemma GrantFacts(t: Table, d: RangeLock)
    requires Valid(t) && NoConflict(t) && WellFormed(d) && (d.op.Shared? || d.op.Exclusive?)
    requires !Conflicts(t, d)
    ensures Valid(Grant(t, d)) && NoConflict(Grant(t, d))
    ensures Grant(t, d).waitersExcl == t.waitersExcl && Grant(t, d).waitersShared == t.waitersShared
    ensures Grant(t, d).waiterIds == t.waiterIds
    ensures d.op.Shared? ==> Grant(t, d).excl == t.excl
    ensures d.op.Shared? ==>
      forall o, x :: Held(Grant(t, d).shared, o, x) <==> Held(t.shared, o, x) || (o == d.owner && Covers(d, x))
    ensures d.op.Exclusive? ==> Grant(t, d).shared == t.shared
    ensures d.op.Exclusive? ==>
      forall o, x :: Held(Grant(t, d).excl, o, x) <==> Held(t.excl, o, x) || (o == d.owner && Covers(d, x))
  {
    NotConflictsMembers(t, d, -1);
    if d.op.Shared? {
      MergeInsertHeld(t.shared, d);
      GrantSharedNoConflict(t, d);
    } else {
      MergeInsertHeld(t.excl, d);
      GrantExclNoConflict(t, d);
    }
  }

  // ----- the waiter hand-over -----

  /** The handles that own a granted range or a waiting request. */
  function Owners(t: Table): set<Owner>
  {
    (set r | r in t.excl :: r.owner) + (set r | r in t.shared :: r.owner) +
    (set r | r in t.waitersExcl :: r.owner) + (set r | r in t.waitersShared :: r.owner)
  }

  /** What handing locks to waiters may do in going from `t` to `t'` while granting the
      locks `granted`: granted bytes are only ever added, each granted lock is held in the
      set of its kind, waiters only leave the queues and their ack IDs are exactly those of
      the granted locks, and no new handle appears. */
  ghost predicate HandOver(t: Table, t': Table, granted: seq<RangeLock>)
  {
    && (forall o, x :: Held(t.excl, o, x) ==> Held(t'.excl, o, x))
    && (forall o, x :: Held(t.shared, o, x) ==> Held(t'.shared, o, x))
    && (forall n, x :: n in granted && n.op.Exclusive? && Covers(n, x) ==> Held(t'.excl, n.owner, x))
    && (forall n, x :: n in granted && n.op.Shared? && Covers(n, x) ==> Held(t'.shared, n.owner, x))
    && (forall w :: w in t'.waitersExcl ==> w in t.waitersExcl)
    && (forall w :: w in t'.waitersShared ==> w in t.waitersShared)
    && |t.waitersExcl| + |t.waitersShared| == |t'.waitersExcl| + |t'.waitersShared| + |granted|
    && t.waiterIds == t'.waiterIds + AckIds(granted)
    && (forall n :: n in granted ==> exists w :: w in t.waitersExcl + t.waitersShared && Granted(w, n))
    && Owners(t') <= Owners(t)
  }

  /** `n` is the waiter `w` as granted: same handle, ack ID and kind, and grown by the merge
      to enclose every byte `w` asked for. */
  predicate Granted(w: RangeLock, n: RangeLock)
  {
    n.owner == w.owner && n.ackId == w.ackId && n.op == w.op && n.start <= w.start && w.end <= n.end
  }

  /** The notify list `notified` is the waiters `ws` as granted, one for one and in order. */
  predicate GrantedInOrder(ws: seq<RangeLock>, notified: seq<RangeLock>)
  {
    |ws| == |notified| && forall k :: 0 <= k < |ws| ==> Granted(ws[k], notified[k])
  }

  /** The queue `q` splits into the waiters that stay, `rest`, and the waiters granted as
      `notified`, each part in queue order; the first `i` waiters all stay. */
  ghost predicate SplitAfter(q: seq<RangeLock>, i: nat, rest: seq<RangeLock>, notified: seq<RangeLock>)
  {
    exists mask: seq<bool> ::
      && |mask| == |q| && (forall j :: 0 <= j < i && j < |mask| ==> !mask[j])
      && Pick(q, mask, false) == rest && GrantedInOrder(Pick(q, mask, true), notified)
  }

  /** A split that keeps the first `i + 1` waiters keeps the first `i`. */
  lemma SplitLater(q: seq<RangeLock>, i: nat, rest: seq<RangeLock>, notified: seq<RangeLock>)
    requires SplitAfter(q, i + 1, rest, notified)
    ensures SplitAfter(q, i, rest, notified)
  {
    var mask :| && |mask| == |q| && (forall j :: 0 <= j < i + 1 && j < |mask| ==> !mask[j])
      && Pick(q, mask, false) == rest && GrantedInOrder(Pick(q, mask, true), notified);
  }

  /** A notify list that starts with `notify + [m]`. */
  lemma NotifyShift(all: seq<RangeLock>, notify: seq<RangeLock>, m: RangeLock)
    requires |notify| + 1 <= |all| && all[..|notify| + 1] == notify + [m]
    ensures all[..|notify|] == notify && all[|notify|..] == [m] + all[|notify| + 1..]
  {
    assert all[..|notify|] == (notify + [m])[..|notify|];
    assert all[|notify|] == (notify + [m])[|notify|];
  }

  /** Nothing granted: the whole queue stays. */
  lemma SplitNone(q: seq<RangeLock>, i: nat)
    ensures SplitAfter(q, i, q, [])
  {
    var mask := seq(|q|, _ => false);
    PickConstant(q, mask, true);
  }

  /** Granting the waiter at `i` in front of a split of the rest of the queue. */
  lemma SplitGrantAt(q: seq<RangeLock>, i: nat, rest: seq<RangeLock>, notified: seq<RangeLock>, m: RangeLock)
    requires i < |q| && Granted(q[i], m)
    requires SplitAfter(RemoveAt(q, i), i, rest, notified)
    ensures SplitAfter(q, i, rest, [m] + notified)
  {
    var q1 := RemoveAt(q, i);
    var mask1 :| && |mask1| == |q1| && (forall j :: 0 <= j < i && j < |mask1| ==> !mask1[j])
      && Pick(q1, mask1, false) == rest && GrantedInOrder(Pick(q1, mask1, true), notified);
    var mask := mask1[..i] + [true] + mask1[i..];
    InsertIntoMask(q, i, mask1);
    GrantedInOrderCons(q[i], m, Pick(q1, mask1, true), notified);
    assert |mask| == |q| && (forall j :: 0 <= j < i && j < |mask| ==> !mask[j]);
    assert Pick(q, mask, false) == rest && GrantedInOrder(Pick(q, mask, true), [m] + notified);
  }

  /** Flagging the waiter at `i` in a mask of the queue without it. */
  lemma InsertIntoMask(q: seq<RangeLock>, i: nat, mask1: seq<bool>)
    requires i < |q| && |mask1| == |q| - 1 && forall j :: 0 <= j < i ==> !mask1[j]
    ensures var mask := mask1[..i] + [true] + mask1[i..];
      && |mask| == |q| && (forall j :: 0 <= j < i ==> !mask[j])
      && Pick(q, mask, false) == Pick(RemoveAt(q, i), mask1, false)
      && Pick(q, mask, true) == [q[i]] + Pick(RemoveAt(q, i), mask1, true)
  {
    PickFlagAt(q, i, mask1, false);
    PickFlagAt(q, i, mask1, true);
    var mask := mask1[..i] + [true] + mask1[i..];
    forall j | 0 <= j < i ensures !mask[j] {
      assert mask[j] == mask1[j];
    }
  }

  lemma GrantedInOrderCons(w: RangeLock, m: RangeLock, ws: seq<RangeLock>, notified: seq<RangeLock>)
    requires Granted(w, m) && GrantedInOrder(ws, notified)
    ensures GrantedInOrder([w] + ws, [m] + notified)
  {
    forall k | 0 <= k < |ws| + 1 ensures Granted(([w] + ws)[k], ([m] + notified)[k]) {
      if k > 0 {
        assert ([w] + ws)[k] == ws[k - 1] && ([m] + notified)[k] == notified[k - 1];
      }
    }
  }

  lemma HandOverNone(t: Table)
    ensures HandOver(t, t, [])
  {
    assert AckIds([]) == {};
  }

  lemma HandOverTrans(t1: Table, t2: Table, t3: Table, g1: seq<RangeLock>, g2: seq<RangeLock>)
    requires HandOver(t1, t2, g1) && HandOver(t2, t3, g2)
    ensures HandOver(t1, t3, g1 + g2)
  {
    AckIdsConcat(g1, g2);
    forall n | n in g1 + g2 ensures exists w :: w in t1.waitersExcl + t1.waitersShared && Granted(w, n) {
      if n !in g1 {
        var w :| w in t2.waitersExcl + t2.waitersShared && Granted(w, n);
        assert w in t1.waitersExcl + t1.waitersShared;
      }
    }
    forall n, x | n in g1 + g2 && n.op.Exclusive? && Covers(n, x) ensures Held(t3.excl, n.owner, x) {
      if n in g1 {
        assert Held(t2.excl, n.owner, x);
      }
    }
    forall n, x | n in g1 + g2 && n.op.Shared? && Covers(n, x) ensures Held(t3.shared, n.owner, x) {
      if n in g1 {
        assert Held(t2.shared, n.owner, x);
      }
    }
  }

  /** A waiter that conflicts keeps conflicting while granted bytes are only added and the
      exclusive waiters it is checked against stay in place. */
  lemma ConflictsGrow(t: Table, t': Table, w: RangeLock, limit: int)
    requires AllWellFormed(t.excl) && AllWellFormed(t.shared) && WellFormed(w)
    requires forall o, x :: Held(t.excl, o, x) ==> Held(t'.excl, o, x)
    requires forall o, x :: Held(t.shared, o, x) ==> Held(t'.shared, o, x)
    requires forall k :: 0 <= k < |t.waitersExcl| && (limit < 0 || k < limit) ==>
      k < |t'.waitersExcl| && t'.waitersExcl[k] == t.waitersExcl[k]
    requires ConflictsEx(t, w, limit)
    ensures ConflictsEx(t', w, limit)
  {
    if i :| 0 <= i < |t.excl| && Blocks(t.excl[i], w) {
      var a := t.excl[i];
      assert a in t.excl;
      var x := if a.start < w.start then w.start else a.start;
      assert Held(t.excl, a.owner, x);
      var a' :| a' in t'.excl && a'.owner == a.owner && Covers(a', x);
      var j :| 0 <= j < |t'.excl| && t'.excl[j] == a';
      assert Blocks(t'.excl[j], w);
    } else if w.op.Exclusive? && exists i :: 0 <= i < |t.shared| && Blocks(t.shared[i], w) {
      var i :| 0 <= i < |t.shared| && Blocks(t.shared[i], w);
      var b := t.shared[i];
      assert b in t.shared;
      var x := if b.start < w.start then w.start else b.start;
      assert Held(t.shared, b.owner, x);
      var b' :| b' in t'.shared && b'.owner == b.owner && Covers(b', x);
      var j :| 0 <= j < |t'.shared| && t'.shared[j] == b';
      assert Blocks(t'.shared[j], w);
    } else {
      var i :| 0 <= i < |t.waitersExcl| && (limit < 0 || i < limit) && Blocks(t.waitersExcl[i], w);
      assert t'.waitersExcl[i] == t.waitersExcl[i];
    }
  }

  /** Every exclusive waiter before position `i` conflicts with the granted ranges or with a
      waiter ahead of it. */
  ghost predicate ExclBlockedBefore(t: Table, i: int)
  {
    forall j :: 0 <= j < i && j < |t.waitersExcl| ==> ConflictsEx(t, t.waitersExcl[j], j)
  }

  /** One grant of the first `flockRangeTryNextWaiters` loop: the exclusive waiter at `i`,
      which conflicts with nothing, is merged into the exclusive ranges and leaves the
      queue; the waiters before it stay where they are and still conflict. */
  lemma GrantExclStep(t: Table, i: nat)
    requires Valid(t) && NoConflict(t) && i < |t.waitersExcl|
    requires !ConflictsEx(t, t.waitersExcl[i], i) && ExclBlockedBefore(t, i)
    ensures var (t1, m) := GrantExclAt(t, i);
      && Valid(t1) && NoConflict(t1) && HandOver(t, t1, [m])
      && t1.shared == t.shared && t1.waitersShared == t.waitersShared
      && i <= |t1.waitersExcl| && ExclBlockedBefore(t1, i)
  {
    var w := t.waitersExcl[i];
    assert w in t.waitersExcl;
    var (t1, m) := GrantExclAt(t, i);
    var kept := MergeScan(t.excl, w).0;
    assert t1.excl == kept + [m] == MergeInsert(t.excl, w);
    MergeScanFacts(t.excl, w);
    MergeInsertHeld(t.excl, w);
    NotConflictsMembers(t, w, i);
    GrantExclNoConflict(t, w);
    RemoveAtFacts(t.waitersExcl, i);
    AckIdsConcat(t.waitersExcl, t.waitersShared);
    assert AckIds([m]) == {w.ackId};
    assert m in t1.excl;
    forall n, x | n in [m] && n.op.Exclusive? && Covers(n, x) ensures Held(t1.excl, n.owner, x) {
      assert n == m;
    }
    assert w in t.waitersExcl + t.waitersShared && Granted(w, m);
    assert t.waiterIds == t1.waiterIds + AckIds([m]);
    assert Owners(t1) <= Owners(t) by {
      forall r | r in t1.excl ensures r.owner in Owners(t) {
        if r != m {
          assert r in t.excl;
        }
      }
      forall r | r in t1.waitersExcl ensures r.owner in Owners(t) {
        assert r in t.waitersExcl;
      }
    }
    forall j | 0 <= j < i ensures ConflictsEx(t1, t1.waitersExcl[j], j) {
      assert t.waitersExcl[j] in t.waitersExcl;
      ConflictsGrow(t, t1, t.waitersExcl[j], j);
    }
  }

  /** What the first loop guarantees, for a run started with `notify` that ended in `res`. */
  ghost predicate ExclPass(t: Table, notify: seq<RangeLock>, res: (Table, seq<RangeLock>))
  {
    && Valid(res.0) && NoConflict(res.0)
    && |notify| <= |res.1| && res.1[..|notify|] == notify
    && HandOver(t, res.0, res.1[|notify|..])
    && res.0.shared == t.shared && res.0.waitersShared == t.waitersShared
    && ExclBlockedBefore(res.0, |res.0.waitersExcl|)
  }

  lemma ExclPassCompose(t: Table, t1: Table, m: RangeLock, notify: seq<RangeLock>, res: (Table, seq<RangeLock>))
    requires HandOver(t, t1, [m]) && t1.shared == t.shared && t1.waitersShared == t.waitersShared
    requires ExclPass(t1, notify + [m], res)
    ensures ExclPass(t, notify, res)
  {
    var g := res.1[|notify|..];
    assert res.1[..|notify|] == (notify + [m])[..|notify|] == notify;
    assert g[0] == (notify + [m])[|notify|] == m;
    assert g == [m] + g[1..];
    HandOverTrans(t, t1, res.0, [m], g[1..]);
  }

  lemma ExclPassGrant(t: Table, i: nat, notify: seq<RangeLock>)
    requires Valid(t) && NoConflict(t) && i < |t.waitersExcl|
    requires !ConflictsEx(t, t.waitersExcl[i], i) && ExclBlockedBefore(t, i)
    requires var (t1, m) := GrantExclAt(t, i); ExclPass(t1, notify + [m], GrantExclWaiters(t1, i, notify + [m]))
    ensures ExclPass(t, notify, GrantExclWaiters(t, i, notify))
  {
    var (t1, m) := GrantExclAt(t, i);
    GrantExclStep(t, i);
    assert GrantExclWaiters(t, i, notify) == GrantExclWaiters(t1, i, notify + [m]);
    ExclPassCompose(t, t1, m, notify, GrantExclWaiters(t1, i, notify + [m]));
  }

  /** The first loop of `flockRangeTryNextWaiters` from position `i` on, when every waiter
      before `i` conflicts: the invariants hold afterwards, locks are only handed over, and
      every exclusive waiter left conflicts with the granted ranges or a waiter ahead of it. */
  lemma {:induction false} GrantExclWaitersFacts(t: Table, i: nat, notify: seq<RangeLock>)
    requires Valid(t) && NoConflict(t) && i <= |t.waitersExcl| && ExclBlockedBefore(t, i)
    ensures ExclPass(t, notify, GrantExclWaiters(t, i, notify))
    decreases |t.waitersExcl| - i
  {
    if i == |t.waitersExcl| {
      HandOverNone(t);
      assert notify[|notify|..] == [];
    } else if ConflictsEx(t, t.waitersExcl[i], i) {
      GrantExclWaitersFacts(t, i + 1, notify);
    } else {
      var (t1, m) := GrantExclAt(t, i);
      GrantExclStep(t, i);
      GrantExclWaitersFacts(t1, i, notify + [m]);
      ExclPassGrant(t, i, notify);
    }
  }

  /** Order of the first loop of `flockRangeTryNextWaiters` from position `i` on: the
      notify list receives the granted exclusive waiters in queue order, and the waiters
      left keep their queue order. */
  lemma {:induction false} GrantExclWaitersOrder(t: Table, i: nat, notify: seq<RangeLock>)
    requires Valid(t) && NoConflict(t) && i <= |t.waitersExcl| && ExclBlockedBefore(t, i)
    ensures var res := GrantExclWaiters(t, i, notify);
      && |notify| <= |res.1| && res.1[..|notify|] == notify
      && SplitAfter(t.waitersExcl, i, res.0.waitersExcl, res.1[|notify|..])
    decreases |t.waitersExcl| - i
  {
    if i == |t.waitersExcl| {
      SplitNone(t.waitersExcl, i);
      assert notify[|notify|..] == [];
    } else if ConflictsEx(t, t.waitersExcl[i], i) {
      GrantExclWaitersOrder(t, i + 1, notify);
      var res := GrantExclWaiters(t, i, notify);
      SplitLater(t.waitersExcl, i, res.0.waitersExcl, res.1[|notify|..]);
    } else {
      var (t1, m) := GrantExclAt(t, i);
      assert Valid(t1) && NoConflict(t1) && i <= |t1.waitersExcl| && ExclBlockedBefore(t1, i) by {
        GrantExclStep(t, i);
      }
      GrantExclWaitersOrder(t1, i, notify + [m]);
      ExclOrderGrant(t, i, notify);
    }
  }

  lemma ExclOrderGrant(t: Table, i: nat, notify: seq<RangeLock>)
    requires Valid(t) && i < |t.waitersExcl| && !ConflictsEx(t, t.waitersExcl[i], i)
    requires var (t1, m) := GrantExclAt(t, i);
      var res := GrantExclWaiters(t1, i, notify + [m]);
      && |notify + [m]| <= |res.1| && res.1[..|notify + [m]|] == notify + [m]
      && SplitAfter(t1.waitersExcl, i, res.0.waitersExcl, res.1[|notify + [m]|..])
    ensures var res := GrantExclWaiters(t, i, notify);
      && |notify| <= |res.1| && res.1[..|notify|] == notify
      && SplitAfter(t.waitersExcl, i, res.0.waitersExcl, res.1[|notify|..])
  {
    var w := t.waitersExcl[i];
    var (t1, m) := GrantExclAt(t, i);
    var res := GrantExclWaiters(t1, i, notify + [m]);
    assert GrantExclWaiters(t, i, notify) == res;
    assert Granted(w, m) by {
      assert w in t.waitersExcl;
      MergeScanFacts(t.excl, w);
    }
    NotifyShift(res.1, notify, m);
    SplitGrantAt(t.waitersExcl, i, res.0.waitersExcl, res.1[|notify| + 1..], m);
  }

  /** Every shared waiter before position `i` conflicts with a granted exclusive range or an
      exclusive waiter. */
  ghost predicate SharedBlockedBefore(t: Table, i: int)
  {
    forall j :: 0 <= j < i && j < |t.waitersShared| ==> Conflicts(t, t.waitersShared[j])
  }

  /** One grant of the second `flockRangeTryNextWaiters` loop. */
  lemma GrantSharedStep(t: Table, i: nat)
    requires Valid(t) && NoConflict(t) && i < |t.waitersShared|
    requires !Conflicts(t, t.waitersShared[i]) && SharedBlockedBefore(t, i)
    ensures var (t1, m) := GrantSharedAt(t, i);
      && Valid(t1) && NoConflict(t1) && HandOver(t, t1, [m])
      && t1.excl == t.excl && t1.waitersExcl == t.waitersExcl
      && i <= |t1.waitersShared| && SharedBlockedBefore(t1, i)
  {
    var w := t.waitersShared[i];
    assert w in t.waitersShared;
    var (t1, m) := GrantSharedAt(t, i);
    var kept := MergeScan(t.shared, w).0;
    assert t1.shared == kept + [m] == MergeInsert(t.shared, w);
    MergeScanFacts(t.shared, w);
    MergeInsertHeld(t.shared, w);
    NotConflictsMembers(t, w, -1);
    GrantSharedNoConflict(t, w);
    RemoveAtFacts(t.waitersShared, i);
    AckIdsConcat(t.waitersExcl, t.waitersShared);
    assert AckIds([m]) == {w.ackId};
    assert m in t1.shared;
    forall n, x | n in [m] && n.op.Shared? && Covers(n, x) ensures Held(t1.shared, n.owner, x) {
      assert n == m;
    }
    assert w in t.waitersExcl + t.waitersShared && Granted(w, m);
    assert t.waiterIds == t1.waiterIds + AckIds([m]);
    assert Owners(t1) <= Owners(t) by {
      forall r | r in t1.shared ensures r.owner in Owners(t) {
        if r != m {
          assert r in t.shared;
        }
      }
      forall r | r in t1.waitersShared ensures r.owner in Owners(t) {
        assert r in t.waitersShared;
      }
    }
    forall j | 0 <= j < i ensures Conflicts(t1, t1.waitersShared[j]) {
      assert t.waitersShared[j] in t.waitersShared;
      ConflictsGrow(t, t1, t.waitersShared[j], -1);
    }
  }

  /** What the second loop guarantees, for a run started with `notify` that ended in `res`. */
  ghost predicate SharedPass(t: Table, notify: seq<RangeLock>, res: (Table, seq<RangeLock>))
  {
    && Valid(res.0) && NoConflict(res.0)
    && |notify| <= |res.1| && res.1[..|notify|] == notify
    && HandOver(t, res.0, res.1[|notify|..])
    && res.0.excl == t.excl && res.0.waitersExcl == t.waitersExcl
    && SharedBlockedBefore(res.0, |res.0.waitersShared|)
  }

  lemma SharedPassCompose(t: Table, t1: Table, m: RangeLock, notify: seq<RangeLock>, res: (Table, seq<RangeLock>))
    requires HandOver(t, t1, [m]) && t1.excl == t.excl && t1.waitersExcl == t.waitersExcl
    requires SharedPass(t1, notify + [m], res)
    ensures SharedPass(t, notify, res)
  {
    var g := res.1[|notify|..];
    assert res.1[..|notify|] == (notify + [m])[..|notify|] == notify;
    assert g[0] == (notify + [m])[|notify|] == m;
    assert g == [m] + g[1..];
    HandOverTrans(t, t1, res.0, [m], g[1..]);
  }

  lemma SharedPassGrant(t: Table, i: nat, notify: seq<RangeLock>)
    requires Valid(t) && NoConflict(t) && i < |t.waitersShared|
    requires !Conflicts(t, t.waitersShared[i]) && SharedBlockedBefore(t, i)
    requires var (t1, m) := GrantSharedAt(t, i); SharedPass(t1, notify + [m], GrantSharedWaiters(t1, i, notify + [m]))
    ensures SharedPass(t, notify, GrantSharedWaiters(t, i, notify))
  {
    var (t1, m) := GrantSharedAt(t, i);
    GrantSharedStep(t, i);
    assert GrantSharedWaiters(t, i, notify) == GrantSharedWaiters(t1, i, notify + [m]);
    SharedPassCompose(t, t1, m, notify, GrantSharedWaiters(t1, i, notify + [m]));
  }

  /** The second loop of `flockRangeTryNextWaiters` from position `i` on. */
  lemma {:induction false} GrantSharedWaitersFacts(t: Table, i: nat, notify: seq<RangeLock>)
    requires Valid(t) && NoConflict(t) && i <= |t.waitersShared| && SharedBlockedBefore(t, i)
    ensures SharedPass(t, notify, GrantSharedWaiters(t, i, notify))
    decreases |t.waitersShared| - i
  {
    if i == |t.waitersShared| {
      HandOverNone(t);
      assert notify[|notify|..] == [];
    } else if Conflicts(t, t.waitersShared[i]) {
      GrantSharedWaitersFacts(t, i + 1, notify);
    } else {
      var (t1, m) := GrantSharedAt(t, i);
      GrantSharedStep(t, i);
      GrantSharedWaitersFacts(t1, i, notify + [m]);
      SharedPassGrant(t, i, notify);
    }
  }

  /** Order of the second loop of `flockRangeTryNextWaiters`, likewise for the shared
      waiters. */
  lemma {:induction false} GrantSharedWaitersOrder(t: Table, i: nat, notify: seq<RangeLock>)
    requires Valid(t) && NoConflict(t) && i <= |t.waitersShared| && SharedBlockedBefore(t, i)
    ensures var res := GrantSharedWaiters(t, i, notify);
      && |notify| <= |res.1| && res.1[..|notify|] == notify
      && SplitAfter(t.waitersShared, i, res.0.waitersShared, res.1[|notify|..])
    decreases |t.waitersShared| - i
  {
    if i == |t.waitersShared| {
      SplitNone(t.waitersShared, i);
      assert notify[|notify|..] == [];
    } else if Conflicts(t, t.waitersShared[i]) {
      GrantSharedWaitersOrder(t, i + 1, notify);
      var res := GrantSharedWaiters(t, i, notify);
      SplitLater(t.waitersShared, i, res.0.waitersShared, res.1[|notify|..]);
    } else {
      var (t1, m) := GrantSharedAt(t, i);
      assert Valid(t1) && NoConflict(t1) && i <= |t1.waitersShared| && SharedBlockedBefore(t1, i) by {
        GrantSharedStep(t, i);
      }
      GrantSharedWaitersOrder(t1, i, notify + [m]);
      SharedOrderGrant(t, i, notify);
    }
  }

  lemma SharedOrderGrant(t: Table, i: nat, notify: seq<RangeLock>)
    requires Valid(t) && i < |t.waitersShared| && !Conflicts(t, t.waitersShared[i])
    requires var (t1, m) := GrantSharedAt(t, i);
      var res := GrantSharedWaiters(t1, i, notify + [m]);
      && |notify + [m]| <= |res.1| && res.1[..|notify + [m]|] == notify + [m]
      && SplitAfter(t1.waitersShared, i, res.0.waitersShared, res.1[|notify + [m]|..])
    ensures var res := GrantSharedWaiters(t, i, notify);
      && |notify| <= |res.1| && res.1[..|notify|] == notify
      && SplitAfter(t.waitersShared, i, res.0.waitersShared, res.1[|notify|..])
  {
    var w := t.waitersShared[i];
    var (t1, m) := GrantSharedAt(t, i);
    var res := GrantSharedWaiters(t1, i, notify + [m]);
    assert GrantSharedWaiters(t, i, notify) == res;
    assert Granted(w, m) by {
      assert w in t.waitersShared;
      MergeScanFacts(t.shared, w);
    }
    NotifyShift(res.1, notify, m);
    SplitGrantAt(t.waitersShared, i, res.0.waitersShared, res.1[|notify| + 1..], m);
  }

  /** Order of `flockRangeTryNextWaiters` as a whole: the notify list is the granted
      exclusive waiters in queue order followed by the granted shared waiters in queue
      order, and the waiters left in each queue keep their order. */
  lemma TryNextWaitersOrder(t: Table)
    requires Valid(t) && NoConflict(t)
    ensures var (t', notify) := TryNextWaiters(t);
      exists k :: 0 <= k <= |notify|
        && SplitAfter(t.waitersExcl, 0, t'.waitersExcl, notify[..k])
        && SplitAfter(t.waitersShared, 0, t'.waitersShared, notify[k..])
  {
    TryNextPasses(t);
    var r1 := GrantExclWaiters(t, 0, []);
    var r2 := GrantSharedWaiters(r1.0, 0, r1.1);
    GrantExclWaitersOrder(t, 0, []);
    GrantSharedWaitersOrder(r1.0, 0, r1.1);
    var k := |r1.1|;
    assert r1.1[0..] == r1.1 == r2.1[..k];
    assert SplitAfter(t.waitersExcl, 0, r2.0.waitersExcl, r2.1[..k]);
    assert SplitAfter(t.waitersShared, 0, r2.0.waitersShared, r2.1[k..]);
  }

  /** The two loops of `flockRangeTryNextWaiters`, each described by its pass predicate. */
  lemma TryNextPasses(t: Table)
    requires Valid(t) && NoConflict(t)
    ensures var r1 := GrantExclWaiters(t, 0, []);
      && ExclPass(t, [], r1)
      && SharedPass(r1.0, r1.1, GrantSharedWaiters(r1.0, 0, r1.1))
      && TryNextWaiters(t) == GrantSharedWaiters(r1.0, 0, r1.1)
  {
    GrantExclWaitersFacts(t, 0, []);
    var r1 := GrantExclWaiters(t, 0, []);
    GrantSharedWaitersFacts(r1.0, 0, r1.1);
  }

  lemma TryNextHandsOver(t: Table)
    requires Valid(t) && NoConflict(t)
    ensures var (t', notify) := TryNextWaiters(t);
      Valid(t') && NoConflict(t') && HandOver(t, t', notify)
  {
    TryNextPasses(t);
    var r1 := GrantExclWaiters(t, 0, []);
    var r2 := GrantSharedWaiters(r1.0, 0, r1.1);
    assert r1.1[0..] == r1.1;
    HandOverTrans(t, r1.0, r2.0, r1.1, r2.1[|r1.1|..]);
    assert r2.1 == r1.1 + r2.1[|r1.1|..];
  }

  lemma TryNextLeavesExclBlocked(t: Table)
    requires Valid(t) && NoConflict(t)
    ensures var t' := TryNextWaiters(t).0;
      forall j :: 0 <= j < |t'.waitersExcl| ==> ConflictsEx(t', t'.waitersExcl[j], j)
  {
    TryNextPasses(t);
    var r1 := GrantExclWaiters(t, 0, []);
    var r2 := GrantSharedWaiters(r1.0, 0, r1.1);
    forall j | 0 <= j < |r2.0.waitersExcl| ensures ConflictsEx(r2.0, r2.0.waitersExcl[j], j) {
      assert r1.0.waitersExcl[j] in r1.0.waitersExcl;
      ConflictsGrow(r1.0, r2.0, r1.0.waitersExcl[j], j);
    }
  }

  lemma TryNextLeavesSharedBlocked(t: Table)
    requires Valid(t) && NoConflict(t)
    ensures var t' := TryNextWaiters(t).0;
      forall w :: w in t'.waitersShared ==> Conflicts(t', w)
  {
    TryNextPasses(t);
    var r1 := GrantExclWaiters(t, 0, []);
    var r2 := GrantSharedWaiters(r1.0, 0, r1.1);
    forall w | w in r2.0.waitersShared ensures Conflicts(r2.0, w) {
      var j :| 0 <= j < |r2.0.waitersShared| && r2.0.waitersShared[j] == w;
    }
  }

  /** `flockRangeTryNextWaiters`: afterwards the invariants hold, locks have only been
      handed to waiters (see `HandOver`), and no waiter is left that could have been
      granted: each exclusive waiter conflicts with a granted range or a waiter ahead of it,
      and each shared waiter with a granted exclusive range or an exclusive waiter. The
      notify list holds the granted exclusive waiters, then the granted shared ones, each
      in queue order and each enclosing the range it asked for; the waiters left keep their
      queue order. */
  lemma TryNextWaitersFacts(t: Table)
    requires Valid(t) && NoConflict(t)
    ensures var (t', notify) := TryNextWaiters(t);
      && Valid(t') && NoConflict(t') && HandOver(t, t', notify)
      && (forall j :: 0 <= j < |t'.waitersExcl| ==> ConflictsEx(t', t'.waitersExcl[j], j))
      && (forall w :: w in t'.waitersShared ==> Conflicts(t', w))
      && (exists k :: 0 <= k <= |notify|
           && SplitAfter(t.waitersExcl, 0, t'.waitersExcl, notify[..k])
           && SplitAfter(t.waitersShared, 0, t'.waitersShared, notify[k..]))
  {
    TryNextWaitersOrder(t);
    TryNextHandsOver(t);
    TryNextLeavesExclBlocked(t);
    TryNextLeavesSharedBlocked(t);
  }

  // ----- cancel -----

  lemma CancelMatchingKeepsInvariants(t: Table, sel: Selector)
    requires Valid(t) && NoConflict(t)
    ensures Valid(CancelMatching(t, sel).0) && NoConflict(CancelMatching(t, sel).0)
  {
    var t' := CancelMatching(t, sel).0;
    KeepDropMembers(t.excl, sel);
    KeepDropMembers(t.shared, sel);
    KeepDropMembers(t.waitersExcl, sel);
    KeepDropMembers(t.waitersShared, sel);
    KeepMerged(t.excl, sel);
    KeepMerged(t.shared, sel);
    KeepDistinct(t.waitersExcl, sel);
    KeepDistinct(t.waitersShared, sel);
    KeepDropAcks(t.waitersExcl, sel);
    KeepDropAcks(t.waitersShared, sel);
    AckIdsConcat(Drop(t.waitersExcl, sel), Drop(t.waitersShared, sel));
    assert AckIds(Drop(t.waitersExcl, sel)) <= AckIds(t.waitersExcl);
    assert AckIds(Drop(t.waitersShared, sel)) <= AckIds(t.waitersShared);
    assert AckIds(t'.waitersExcl) <= AckIds(t.waitersExcl);
    assert AckIds(t'.waitersShared) <= AckIds(t.waitersShared);
  }

  /** `flockRangeCancelByHandle`: exactly the granted ranges and waiters the selector matches
      are removed, their ack IDs are forgotten, and the result says whether anything
      matched. */
  lemma CancelRemovesExactlyMatching(t: Table, sel: Selector)
    requires Valid(t) && NoConflict(t)
    ensures var (t', removed) := CancelMatching(t, sel);
      && Valid(t') && NoConflict(t')
      && (forall r :: r in t'.excl <==> r in t.excl && !sel.Matches(r.owner))
      && (forall r :: r in t'.shared <==> r in t.shared && !sel.Matches(r.owner))
      && (forall w :: w in t'.waitersExcl <==> w in t.waitersExcl && !sel.Matches(w.owner))
      && (forall w :: w in t'.waitersShared <==> w in t.waitersShared && !sel.Matches(w.owner))
      && (forall w :: w in t.waitersExcl + t.waitersShared && sel.Matches(w.owner) ==> w.ackId !in t'.waiterIds)
      && (removed <==> exists r :: r in t.excl + t.shared + t.waitersExcl + t.waitersShared && sel.Matches(r.owner))
  {
    CancelMatchingKeepsInvariants(t, sel);
    KeepDropMembers(t.excl, sel);
    KeepDropMembers(t.shared, sel);
    KeepDropMembers(t.waitersExcl, sel);
    KeepDropMembers(t.waitersShared, sel);
    var (t', removed) := CancelMatching(t, sel);
    var all := t.excl + t.shared + t.waitersExcl + t.waitersShared;
    var dropped := Drop(t.waitersExcl, sel) + Drop(t.waitersShared, sel);
    forall w | w in t.waitersExcl + t.waitersShared && sel.Matches(w.owner) ensures w.ackId !in t'.waiterIds {
      assert w in dropped;
    }
    if removed {
      var r := if Drop(t.excl, sel) != [] then Drop(t.excl, sel)[0]
        else if Drop(t.shared, sel) != [] then Drop(t.shared, sel)[0]
        else dropped[0];
      assert r in Drop(t.excl, sel) || r in Drop(t.shared, sel) || r in Drop(t.waitersExcl, sel) || r in Drop(t.waitersShared, sel);
      assert r in all && sel.Matches(r.owner);
    }
    if r :| r in all && sel.Matches(r.owner) {
      assert r in Drop(t.excl, sel) + Drop(t.shared, sel) + dropped;
    }
  }

  /** `flockRangeCancelByClientID`: afterwards no granted range and no waiter of the client
      node is left, nothing granted to a waiter belongs to it, and the invariants hold. */
  lemma CancelByClientIDLeavesNothingOfClient(t: Table, clientId: nat)
    requires Valid(t) && NoConflict(t)
    ensures var (t', notify) := CancelByClientID(t, clientId);
      && Valid(t') && NoConflict(t')
      && (forall o :: o in Owners(t') ==> o.clientId != clientId)
      && (forall n :: n in notify ==> n.owner.clientId != clientId)
  {
    var sel := ByClient(clientId);
    var (t1, removed) := CancelMatching(t, sel);
    CancelMatchingKeepsInvariants(t, sel);
    CancelLeavesNoOwner(t, sel);
    if removed {
      assert CancelByClientID(t, clientId) == TryNextWaiters(t1);
      TryNextWaitersFacts(t1);
      TryNextKeepsOwnersOut(t1, clientId);
    } else {
      assert CancelByClientID(t, clientId) == (t1, []);
    }
  }

  lemma CancelLeavesNoOwner(t: Table, sel: Selector)
    ensures forall o :: o in Owners(CancelMatching(t, sel).0) ==> !sel.Matches(o)
  {
    var t' := CancelMatching(t, sel).0;
    KeepDropMembers(t.excl, sel);
    KeepDropMembers(t.shared, sel);
    KeepDropMembers(t.waitersExcl, sel);
    KeepDropMembers(t.waitersShared, sel);
    forall o | o in Owners(t') ensures !sel.Matches(o) {
      var r :| (r in t'.excl || r in t'.shared || r in t'.waitersExcl || r in t'.waitersShared) && r.owner == o;
    }
  }

  /** The waiter hand-over brings in no handle of a client node that had none. */
  lemma TryNextKeepsOwnersOut(t: Table, clientId: nat)
    requires Valid(t) && NoConflict(t)
    requires forall o :: o in Owners(t) ==> o.clientId != clientId
    ensures var (t', notify) := TryNextWaiters(t);
      && (forall o :: o in Owners(t') ==> o.clientId != clientId)
      && (forall n :: n in notify ==> n.owner.clientId != clientId)
  {
    TryNextWaitersFacts(t);
    var (t', notify) := TryNextWaiters(t);
    forall n | n in notify ensures n.owner.clientId != clientId {
      var w :| w in t.waitersExcl + t.waitersShared && Granted(w, n);
      assert w.owner in Owners(t);
    }
  }

  /** `flockRangeCancelAllWaiters`: the queues and the waiter-ID set are emptied, the
      granted ranges are untouched. */
  lemma CancelAllWaitersKeepsInvariants(t: Table)
    requires Valid(t) && NoConflict(t)
    ensures var t' := CancelAllWaiters(t);
      Valid(t') && NoConflict(t') && t'.excl == t.excl && t'.shared == t.shared &&
      t'.waiterIds == {} && t'.waitersExcl == [] && t'.waitersShared == []
  {
    assert AckIds([]) == {};
  }

  // ----- lock requests -----

  /** The granted ranges of the request's kind. */
  function GrantedOfKind(t: Table, op: LockOp): seq<RangeLock>
  {
    if op.Exclusive? then t.excl else t.shared
  }

  lemma EnqueueKeepsInvariants(t: Table, d: RangeLock)
    requires Valid(t) && NoConflict(t) && WellFormed(d) && (d.op.Shared? || d.op.Exclusive?)
    requires d.ackId !in t.waiterIds
    ensures var t' := Enqueue(t, d);
      && Valid(t') && NoConflict(t') && t'.excl == t.excl && t'.shared == t.shared
      && d.ackId in t'.waiterIds
  {
    AckIdsConcat(t.waitersExcl, t.waitersShared);
    if d.op.Shared? {
      DistinctAppend(t.waitersShared, d);
    } else {
      DistinctAppend(t.waitersExcl, d);
    }
  }

  /** `flockRangeUnlocked` keeps the bookkeeping and mutual-exclusion invariants. */
  lemma RequestKeepsInvariants(t: Table, d: RangeLock)
    requires Valid(t) && NoConflict(t) && WellFormed(d)
    ensures Valid(Request(t, d).0) && NoConflict(Request(t, d).0)
  {
    if d.op.Cancel? {
      var (t1, removed) := CancelMatching(t, ByHandle(d.owner));
      CancelMatchingKeepsInvariants(t, ByHandle(d.owner));
      TryNextWaitersFacts(t1);
    } else if d.op.Unlock? {
      var (t1, released) := Release(t, d);
      ReleaseFacts(t, d);
      TryNextWaitersFacts(t1);
    } else if d.ackId !in t.waiterIds && !IsGranted(t, d) {
      var conflict := Conflicts(t, d);
      var (t1, released) := if !conflict || d.mayWait then Release(t, d) else (t, false);
      ReleaseFacts(t, d);
      if !conflict {
        ShrunkConflicts(t, t1, d, -1);
        GrantFacts(t1, d);
        TryNextWaitersFacts(Grant(t1, d));
      } else if d.mayWait {
        EnqueueKeepsInvariants(t1, d);
        TryNextWaitersFacts(Enqueue(t1, d));
      } else {
        TryNextWaitersFacts(t1);
      }
    }
  }

  /** A lock request whose ack ID is still queued is a re-sent request of a waiter, and one
      whose bytes are already held was granted before: either changes nothing and notifies
      nobody, and it counts as granted exactly when it is not waiting. */
  lemma RepeatedRequestChangesNothing(t: Table, d: RangeLock)
    requires d.op.Shared? || d.op.Exclusive?
    requires d.ackId in t.waiterIds || IsGranted(t, d)
    ensures Request(t, d) == (t, d.ackId !in t.waiterIds, [])
  {
  }

  /** A lock request reported as granted leaves its handle holding every byte of the
      request in the granted set of its kind. */
  lemma GrantedRequestIsHeld(t: Table, d: RangeLock)
    requires Valid(t) && NoConflict(t) && WellFormed(d) && (d.op.Shared? || d.op.Exclusive?)
    requires Request(t, d).1
    ensures forall x :: Covers(d, x) ==> Held(GrantedOfKind(Request(t, d).0, d.op), d.owner, x)
  {
    if IsGranted(t, d) {
      GrantedInIffHeld(GrantedOfKind(t, d.op), d);
    } else {
      var (t1, released) := Release(t, d);
      ReleaseFacts(t, d);
      ShrunkConflicts(t, t1, d, -1);
      GrantFacts(t1, d);
      var t2 := Grant(t1, d);
      assert forall x :: Covers(d, x) ==> Held(GrantedOfKind(t2, d.op), d.owner, x);
      if released {
        TryNextWaitersFacts(t2);
      }
    }
  }

  /** `flockRangeUnlocked` reports success exactly for what it grants at once: a new lock
      request (not waiting, not yet held) is granted immediately exactly when the conflict
      check finds nothing in its way. */
  lemma NewRequestGrantedIffNoConflict(t: Table, d: RangeLock)
    requires d.op.Shared? || d.op.Exclusive?
    requires d.ackId !in t.waiterIds && !IsGranted(t, d)
    ensures Request(t, d).1 <==> !Conflicts(t, d)
  {
  }

  /** A new lock request that conflicts is not granted. Without permission to wait it
      changes nothing; with it, the request is queued, so its ack ID is either still
      waiting afterwards or was handed a lock by the waiter pass that followed. */
  lemma ConflictingRequestWaits(t: Table, d: RangeLock)
    requires Valid(t) && NoConflict(t) && WellFormed(d) && (d.op.Shared? || d.op.Exclusive?)
    requires d.ackId !in t.waiterIds && !IsGranted(t, d) && Conflicts(t, d)
    ensures var (t', granted, notify) := Request(t, d);
      && !granted
      && (!d.mayWait ==> t' == t && notify == [])
      && (d.mayWait ==> d.ackId in t'.waiterIds || exists n :: n in notify && n.ackId == d.ackId)
  {
    if d.mayWait {
      var (t1, released) := Release(t, d);
      ReleaseFacts(t, d);
      EnqueueKeepsInvariants(t1, d);
      var t2 := Enqueue(t1, d);
      if released {
        TryNextWaitersFacts(t2);
        var (t', notify) := TryNextWaiters(t2);
        if d.ackId !in t'.waiterIds {
          assert d.ackId in AckIds(notify);
        }
      }
    }
  }
}
