/** Properties of the scans over one granted set: merging on insert adds exactly the
    request's bytes and keeps the set merged, an unlock removes exactly the unlocked bytes of
    the handle, and `flockRangeIsGranted` answers whether the handle holds every byte. */
module RangeMergeLemmas {
  import opened LockCommon
  import opened RangeDetails
  import opened RangeLockSpec

  /** `r` lies inside `big`, which belongs to the same handle. */
  predicate Within(r: RangeLock, big: RangeLock)
  {
    r.owner == big.owner && big.start <= r.start && r.end <= big.end
  }

  /** Some range of the handle contains all of `u`. */
  predicate Encloses(rs: seq<RangeLock>, u: RangeLock)
  {
    exists r :: r in rs && r.owner == u.owner && r.start <= u.start && u.end <= r.end
  }

  /** Some range of the handle overlaps `u`. */
  predicate OwnOverlap(rs: seq<RangeLock>, u: RangeLock)
  {
    exists r :: r in rs && r.owner == u.owner && Overlaps(u, r)
  }

  lemma MergedConcat(a: seq<RangeLock>, b: seq<RangeLock>)
    ensures Merged(a + b) <==>
      Merged(a) && Merged(b) && forall x, y :: x in a && y in b && x.owner == y.owner ==> !Touches(x, y)
  {
    var s := a + b;
    if Merged(s) {
      forall i, j | 0 <= i < |a| && 0 <= j < |a| && i != j && a[i].owner == a[j].owner
        ensures !Touches(a[i], a[j])
      {
        assert s[i] == a[i] && s[j] == a[j];
      }
      forall i, j | 0 <= i < |b| && 0 <= j < |b| && i != j && b[i].owner == b[j].owner
        ensures !Touches(b[i], b[j])
      {
        assert s[|a| + i] == b[i] && s[|a| + j] == b[j];
      }
      forall x, y | x in a && y in b && x.owner == y.owner ensures !Touches(x, y) {
        var i :| 0 <= i < |a| && a[i] == x;
        var j :| 0 <= j < |b| && b[j] == y;
        assert s[i] == x && s[|a| + j] == y;
      }
    }
    if Merged(a) && Merged(b) && forall x, y :: x in a && y in b && x.owner == y.owner ==> !Touches(x, y) {
      forall i, j | 0 <= i < |s| && 0 <= j < |s| && i != j && s[i].owner == s[j].owner
        ensures !Touches(s[i], s[j])
      {
        if i < |a| && j < |a| {
          assert s[i] == a[i] && s[j] == a[j];
        } else if i >= |a| && j >= |a| {
          assert s[i] == b[i - |a|] && s[j] == b[j - |a|];
        } else if i < |a| {
          assert s[i] in a && s[j] in b;
        } else {
          assert s[j] in a && s[i] in b;
        }
      }
    }
  }

  /** In a merged set, the first range touches no other range of its handle. */
  lemma MergedHead(rs: seq<RangeLock>)
    requires Merged(rs) && rs != []
    ensures Merged(rs[1..])
    ensures forall e :: e in rs[1..] && e.owner == rs[0].owner ==> !Touches(rs[0], e)
  {
    assert rs == [rs[0]] + rs[1..];
    MergedConcat([rs[0]], rs[1..]);
  }

  // ----- merging on insert -----

  /** A range of the handle that touches neither the request nor any other range of the
      handle does not touch the merged request either. */
  lemma {:induction false} MergeScanAvoids(rs: seq<RangeLock>, d: RangeLock, x: RangeLock)
    requires AllWellFormed(rs) && WellFormed(d) && WellFormed(x)
    requires !Touches(x, d)
    requires forall r :: r in rs && r.owner == d.owner ==> !Touches(x, r)
    ensures !Touches(x, MergeScan(rs, d).1)
    decreases |rs|
  {
    if rs != [] {
      if rs[0].owner == d.owner && Touches(d, rs[0]) {
        MergeTouch(x, d, rs[0]);
        MergeCoversUnion(d, rs[0], 0);
        MergeScanAvoids(rs[1..], Merge(d, rs[0]), x);
      } else {
        MergeScanAvoids(rs[1..], d, x);
      }
    }
  }

  /** The merge loop keeps a merged subset of the old ranges, none of them touching the
      grown request, which covers the request and only bytes the handle already held. */
  lemma {:induction false} MergeScanFacts(rs: seq<RangeLock>, d: RangeLock)
    requires AllWellFormed(rs) && WellFormed(d) && Merged(rs)
    ensures var (kept, m) := MergeScan(rs, d);
      && WellFormed(m) && m.owner == d.owner && m.ackId == d.ackId && m.op == d.op
      && m.mayWait == d.mayWait && m.start <= d.start && d.end <= m.end
      && (forall r :: r in kept ==> r in rs)
      && Merged(kept)
      && (forall r :: r in kept && r.owner == d.owner ==> !Touches(r, m))
      && (forall r :: r in rs ==> r in kept || Within(r, m))
      && (forall x :: Covers(m, x) ==> Covers(d, x) || Held(rs, d.owner, x))
    decreases |rs|
  {
    if rs != [] {
      var r := rs[0];
      MergedHead(rs);
      if r.owner == d.owner && Touches(d, r) {
        var d1 := Merge(d, r);
        MergeCoversUnion(d, r, 0);
        MergeScanFacts(rs[1..], d1);
        var (kept, m) := MergeScan(rs[1..], d1);
        forall x | Covers(m, x) ensures Covers(d, x) || Held(rs, d.owner, x) {
          MergeCoversUnion(d, r, x);
          if Held(rs[1..], d.owner, x) {
            var e :| e in rs[1..] && e.owner == d.owner && Covers(e, x);
            assert e in rs;
          }
        }
      } else {
        MergeScanFacts(rs[1..], d);
        var (kept', m) := MergeScan(rs[1..], d);
        MergedConcat([r], kept');
        if r.owner == d.owner {
          MergeScanAvoids(rs[1..], d, r);
        }
        forall x | Covers(m, x) ensures Covers(d, x) || Held(rs, d.owner, x) {
          if Held(rs[1..], d.owner, x) {
            var e :| e in rs[1..] && e.owner == d.owner && Covers(e, x);
            assert e in rs;
          }
        }
      }
    }
  }

  /** `flockRangeShared` / `flockRangeExclusive` on a merged set: afterwards every handle
      holds exactly the bytes it held before, plus the request's bytes for the requester,
      and the set is still merged. */
  lemma MergeInsertHeld(rs: seq<RangeLock>, d: RangeLock)
    requires AllWellFormed(rs) && WellFormed(d) && Merged(rs)
    ensures AllWellFormed(MergeInsert(rs, d)) && Merged(MergeInsert(rs, d))
    ensures forall o, x :: Held(MergeInsert(rs, d), o, x) <==> Held(rs, o, x) || (o == d.owner && Covers(d, x))
    ensures forall r :: r in MergeInsert(rs, d) ==> r in rs || r == MergeScan(rs, d).1
  {
    MergeScanFacts(rs, d);
    var (kept, m) := MergeScan(rs, d);
    MergedConcat(kept, [m]);
    var ins := MergeInsert(rs, d);
    assert ins == kept + [m];
    forall o, x ensures Held(ins, o, x) <==> Held(rs, o, x) || (o == d.owner && Covers(d, x)) {
      if Held(rs, o, x) {
        var r :| r in rs && r.owner == o && Covers(r, x);
        if r !in kept {
          assert m in ins && Covers(m, x);
        }
      }
      if o == d.owner && Covers(d, x) {
        assert m in ins;
      }
    }
  }

  /** A range overlapping the merged request overlaps the request or a range the handle
      already held. */
  lemma MergeScanOverlap(rs: seq<RangeLock>, d: RangeLock, s: RangeLock)
    requires AllWellFormed(rs) && WellFormed(d) && Merged(rs) && WellFormed(s)
    ensures Overlaps(s, MergeScan(rs, d).1) ==>
      Overlaps(s, d) || exists r :: r in rs && r.owner == d.owner && Overlaps(s, r)
  {
    MergeScanFacts(rs, d);
    var m := MergeScan(rs, d).1;
    if Overlaps(s, m) {
      var x := if s.start < m.start then m.start else s.start;
      assert Covers(s, x) && Covers(m, x);
      if !Covers(d, x) {
        var r :| r in rs && r.owner == d.owner && Covers(r, x);
        assert Overlaps(s, r);
      }
    }
  }

  // ----- is-granted -----

  /** On a merged set, `flockRangeIsGranted`'s first-overlap scan answers exactly whether
      the handle holds every byte of the request. */
  lemma {:induction false} GrantedInIffHeld(rs: seq<RangeLock>, d: RangeLock)
    requires AllWellFormed(rs) && Merged(rs) && WellFormed(d)
    ensures GrantedIn(rs, d) <==> forall x :: Covers(d, x) ==> Held(rs, d.owner, x)
    decreases |rs|
  {
    if rs == [] {
      assert Covers(d, d.start);
    } else {
      var r := rs[0];
      MergedHead(rs);
      assert rs == [r] + rs[1..];
      assert r in rs && WellFormed(r);
      if r.owner != d.owner || !Overlaps(d, r) {
        GrantedInIffHeld(rs[1..], d);
        forall x | Covers(d, x) ensures Held(rs, d.owner, x) <==> Held(rs[1..], d.owner, x) {
        }
      } else if !(r.start <= d.start && d.end <= r.end) {
        var y := if d.start < r.start then r.start - 1 else r.end + 1;
        assert Covers(d, y) && !Covers(r, y);
        forall e | e in rs && e.owner == d.owner ensures !Covers(e, y) {
          if e != r {
            assert e in rs[1..];
            assert !Touches(r, e);
          }
        }
      }
    }
  }

  // ----- unlock -----

  lemma RemainderHeld(r: RangeLock, u: RangeLock)
    requires WellFormed(r) && WellFormed(u) && Overlaps(u, r)
    ensures forall o, x :: Held(Remainder(r, u), o, x) <==> o == r.owner && Covers(r, x) && !Covers(u, x)
    ensures AllWellFormed(Remainder(r, u)) && Merged(Remainder(r, u))
    ensures forall p :: p in Remainder(r, u) ==> Within(p, r)
  {
    RemainderFacts(r, u);
    var rem := Remainder(r, u);
    forall i, j | 0 <= i < |rem| && 0 <= j < |rem| && i != j && rem[i].owner == rem[j].owner
      ensures !Touches(rem[i], rem[j])
    {
      if i > j {
        assert !Touches(rem[j], rem[i]);
      }
    }
  }

  /** The pieces of a cut range touch no range of the handle that the whole range did not
      touch. */
  lemma WithinNoTouch(rest: seq<RangeLock>, pieces: seq<RangeLock>, r: RangeLock, tail: seq<RangeLock>)
    requires forall p :: p in pieces ==> Within(p, r)
    requires forall e :: e in rest ==> exists s :: s in tail && Within(e, s)
    requires forall e :: e in tail && e.owner == r.owner ==> !Touches(r, e)
    ensures forall x, y :: x in pieces && y in rest && x.owner == y.owner ==> !Touches(x, y)
  {
    forall x, y | x in pieces && y in rest && x.owner == y.owner ensures !Touches(x, y) {
      var s :| s in tail && Within(y, s);
      assert !Touches(r, s);
    }
  }

  /** What one loop of `flockRangeUnlock` leaves on a merged set: well-formed merged ranges,
      each inside an old range of its handle, with other handles' ranges all kept. */
  ghost predicate UnlockShape(rs: seq<RangeLock>, u: RangeLock, rest: seq<RangeLock>)
  {
    && AllWellFormed(rest) && Merged(rest)
    && (forall r :: r in rest ==> exists s :: s in rs && Within(r, s))
    && (forall r :: r in rs && r.owner != u.owner ==> r in rest)
  }

  /** The unlock removes exactly the unlocked bytes of the handle. */
  ghost predicate UnlockBytes(rs: seq<RangeLock>, u: RangeLock, rest: seq<RangeLock>)
  {
    forall o, x :: Held(rest, o, x) <==> Held(rs, o, x) && !(o == u.owner && Covers(u, x))
  }

  /** The loop reports whether a range of the handle overlapped, and stops early exactly
      when one contained the whole unlock. */
  predicate UnlockFlags(rs: seq<RangeLock>, u: RangeLock, removed: bool, done: bool)
  {
    (removed <==> OwnOverlap(rs, u)) && (done <==> Encloses(rs, u))
  }

  lemma KeepHeadMerged(rs: seq<RangeLock>, rest': seq<RangeLock>)
    requires Merged(rs) && rs != [] && Merged(rest')
    requires forall e :: e in rest' ==> exists s :: s in rs[1..] && Within(e, s)
    ensures Merged([rs[0]] + rest')
  {
    MergedHead(rs);
    WithinNoTouch(rest', [rs[0]], rs[0], rs[1..]);
    MergedConcat([rs[0]], rest');
  }

  lemma KeepHeadWellFormed(rs: seq<RangeLock>, u: RangeLock, rest': seq<RangeLock>)
    requires AllWellFormed(rs) && rs != []
    requires AllWellFormed(rest')
    ensures AllWellFormed([rs[0]] + rest')
  {
    assert rs[0] in rs;
  }
  lemma KeepHeadWithin(rs: seq<RangeLock>, u: RangeLock, rest': seq<RangeLock>)
    requires rs != []
    requires forall r :: r in rest' ==> exists s :: s in rs[1..] && Within(r, s)
    ensures forall r :: r in [rs[0]] + rest' ==> exists s :: s in rs && Within(r, s)
  {
    var r, tail := rs[0], rs[1..];
    var rest := [r] + rest';
    assert rs == [r] + tail;
    forall e | e in rest ensures exists s :: s in rs && Within(e, s) {
      if e == r {
        assert Within(r, r);
      } else {
        assert e in rest';
        var s :| s in tail && Within(e, s);
        assert s in rs;
      }
    }
  }
  lemma KeepHeadOthers(rs: seq<RangeLock>, u: RangeLock, rest': seq<RangeLock>)
    requires rs != []
    requires forall r :: r in rs[1..] && r.owner != u.owner ==> r in rest'
    ensures forall r :: r in rs && r.owner != u.owner ==> r in [rs[0]] + rest'
  {
    var r, tail := rs[0], rs[1..];
    assert rs == [r] + tail;
    forall e | e in rs && e.owner != u.owner ensures e in [r] + rest' {
      if e != r {
        assert e in tail;
      }
    }
  }

  lemma KeepHeadShape(rs: seq<RangeLock>, u: RangeLock, rest': seq<RangeLock>)
    requires AllWellFormed(rs) && Merged(rs) && rs != []
    requires UnlockShape(rs[1..], u, rest')
    ensures UnlockShape(rs, u, [rs[0]] + rest')
  {
    KeepHeadWellFormed(rs, u, rest');
    KeepHeadMerged(rs, rest');
    KeepHeadWithin(rs, u, rest');
    KeepHeadOthers(rs, u, rest');
  }

  lemma KeepHeadBytes(rs: seq<RangeLock>, u: RangeLock, rest': seq<RangeLock>)
    requires rs != [] && (rs[0].owner != u.owner || !Overlaps(u, rs[0]))
    requires UnlockBytes(rs[1..], u, rest')
    ensures UnlockBytes(rs, u, [rs[0]] + rest')
  {
    var r, tail := rs[0], rs[1..];
    var rest := [r] + rest';
    assert rs == [r] + tail;
    forall o, x ensures Held(rest, o, x) <==> Held(rs, o, x) && !(o == u.owner && Covers(u, x)) {
      if r.owner == o && Covers(r, x) {
        assert r in rest && r in rs;
      }
      if Held(rest', o, x) {
        var e :| e in rest' && e.owner == o && Covers(e, x);
        assert e in rest;
      }
      if Held(tail, o, x) {
        var e :| e in tail && e.owner == o && Covers(e, x);
        assert e in rs;
      }
      if Held(rest, o, x) && !Held(rest', o, x) {
        var e :| e in rest && e.owner == o && Covers(e, x);
        assert e == r;
      }
      if Held(rs, o, x) && !Held(tail, o, x) {
        var e :| e in rs && e.owner == o && Covers(e, x);
        assert e == r;
      }
    }
  }

  lemma KeepHeadFlags(rs: seq<RangeLock>, u: RangeLock, removed: bool, done: bool)
    requires WellFormed(u) && rs != [] && (rs[0].owner != u.owner || !Overlaps(u, rs[0]))
    requires UnlockFlags(rs[1..], u, removed, done)
    ensures UnlockFlags(rs, u, removed, done)
  {
    var r, tail := rs[0], rs[1..];
    assert rs == [r] + tail;
    if Encloses(rs, u) {
      var e :| e in rs && e.owner == u.owner && e.start <= u.start && u.end <= e.end;
      assert e != r;
      assert e in tail;
    }
    if OwnOverlap(rs, u) {
      var e :| e in rs && e.owner == u.owner && Overlaps(u, e);
      assert e in tail;
    }
    if Encloses(tail, u) {
      var e :| e in tail && e.owner == u.owner && e.start <= u.start && u.end <= e.end;
      assert e in rs;
    }
    if OwnOverlap(tail, u) {
      var e :| e in tail && e.owner == u.owner && Overlaps(u, e);
      assert e in rs;
    }
  }

  lemma StopShape(rs: seq<RangeLock>, u: RangeLock)
    requires AllWellFormed(rs) && Merged(rs) && WellFormed(u) && rs != []
    requires rs[0].owner == u.owner && Overlaps(u, rs[0])
    ensures UnlockShape(rs, u, Remainder(rs[0], u) + rs[1..])
  {
    var r, tail := rs[0], rs[1..];
    MergedHead(rs);
    assert rs == [r] + tail;
    assert r in rs;
    RemainderHeld(r, u);
    forall e | e in tail ensures exists s :: s in tail && Within(e, s) {
      assert Within(e, e);
    }
    WithinNoTouch(tail, Remainder(r, u), r, tail);
    MergedConcat(Remainder(r, u), tail);
    var rest := Remainder(r, u) + tail;
    forall e | e in rest ensures exists s :: s in rs && Within(e, s) {
      if e !in tail {
        assert Within(e, r);
      } else {
        assert Within(e, e);
      }
    }
  }

  lemma StopBytes(rs: seq<RangeLock>, u: RangeLock)
    requires AllWellFormed(rs) && Merged(rs) && WellFormed(u) && rs != []
    requires rs[0].owner == u.owner && Overlaps(u, rs[0])
    requires rs[0].start <= u.start && u.end <= rs[0].end
    ensures UnlockBytes(rs, u, Remainder(rs[0], u) + rs[1..])
  {
    var r, tail := rs[0], rs[1..];
    MergedHead(rs);
    assert rs == [r] + tail;
    assert r in rs;
    RemainderHeld(r, u);
    var rest := Remainder(r, u) + tail;
    forall o, x ensures Held(rest, o, x) <==> Held(rs, o, x) && !(o == u.owner && Covers(u, x)) {
      if o == u.owner && Covers(u, x) {
        forall e | e in tail && e.owner == o ensures !Covers(e, x) {
          assert !Touches(r, e);
        }
      }
    }
  }

  lemma StopFlags(rs: seq<RangeLock>, u: RangeLock)
    requires rs != [] && rs[0].owner == u.owner && Overlaps(u, rs[0])
    requires rs[0].start <= u.start && u.end <= rs[0].end
    ensures UnlockFlags(rs, u, true, true)
  {
    assert rs[0] in rs;
  }

  lemma CutHeadShape(rs: seq<RangeLock>, u: RangeLock, rest': seq<RangeLock>)
    requires AllWellFormed(rs) && Merged(rs) && WellFormed(u) && rs != []
    requires rs[0].owner == u.owner && Overlaps(u, rs[0])
    requires UnlockShape(rs[1..], u, rest')
    ensures UnlockShape(rs, u, Remainder(rs[0], u) + rest')
  {
    var r, tail := rs[0], rs[1..];
    MergedHead(rs);
    assert rs == [r] + tail;
    assert r in rs;
    RemainderHeld(r, u);
    WithinNoTouch(rest', Remainder(r, u), r, tail);
    MergedConcat(Remainder(r, u), rest');
    var rest := Remainder(r, u) + rest';
    forall e | e in rest ensures exists s :: s in rs && Within(e, s) {
      if e in Remainder(r, u) {
        assert Within(e, r);
      } else {
        var s :| s in tail && Within(e, s);
        assert s in rs;
      }
    }
  }

  lemma CutHeadBytes(rs: seq<RangeLock>, u: RangeLock, rest': seq<RangeLock>)
    requires AllWellFormed(rs) && WellFormed(u) && rs != []
    requires rs[0].owner == u.owner && Overlaps(u, rs[0])
    requires UnlockBytes(rs[1..], u, rest')
    ensures UnlockBytes(rs, u, Remainder(rs[0], u) + rest')
  {
    var r, tail := rs[0], rs[1..];
    var rem := Remainder(r, u);
    var rest := rem + rest';
    assert rs == [r] + tail;
    assert r in rs;
    RemainderHeld(r, u);
    forall o, x ensures Held(rest, o, x) <==> Held(rs, o, x) && !(o == u.owner && Covers(u, x)) {
      if Held(rest, o, x) {
        var e :| e in rest && e.owner == o && Covers(e, x);
        if e in rem {
          assert Held(rem, o, x);
          assert Covers(r, x);
        } else {
          assert e in rest';
          assert Held(rest', o, x);
          var f :| f in tail && f.owner == o && Covers(f, x);
          assert f in rs;
        }
      }
      if Held(rs, o, x) && !(o == u.owner && Covers(u, x)) {
        var e :| e in rs && e.owner == o && Covers(e, x);
        if e == r {
          assert Held(rem, o, x);
          var p :| p in rem && p.owner == o && Covers(p, x);
          assert p in rest;
        } else {
          assert e in tail;
          assert Held(rest', o, x);
          var p :| p in rest' && p.owner == o && Covers(p, x);
          assert p in rest;
        }
      }
    }
  }

  lemma CutHeadFlags(rs: seq<RangeLock>, u: RangeLock, removed: bool, done: bool)
    requires rs != [] && rs[0].owner == u.owner && Overlaps(u, rs[0])
    requires !(rs[0].start <= u.start && u.end <= rs[0].end)
    requires UnlockFlags(rs[1..], u, removed, done)
    ensures UnlockFlags(rs, u, true, done)
  {
    var r, tail := rs[0], rs[1..];
    assert rs == [r] + tail;
    assert r in rs;
    if Encloses(rs, u) {
      var e :| e in rs && e.owner == u.owner && e.start <= u.start && u.end <= e.end;
      assert e in tail;
    }
    if Encloses(tail, u) {
      var e :| e in tail && e.owner == u.owner && e.start <= u.start && u.end <= e.end;
      assert e in rs;
    }
  }

  /** The three facts about one result of the unlock loop. */
  ghost predicate UnlockResult(rs: seq<RangeLock>, u: RangeLock, res: (seq<RangeLock>, bool, bool))
  {
    UnlockShape(rs, u, res.0) && UnlockBytes(rs, u, res.0) && UnlockFlags(rs, u, res.1, res.2)
  }

  lemma UnlockStopCase(rs: seq<RangeLock>, u: RangeLock)
    requires AllWellFormed(rs) && Merged(rs) && WellFormed(u) && rs != []
    requires rs[0].owner == u.owner && Overlaps(u, rs[0]) && rs[0].start <= u.start && u.end <= rs[0].end
    ensures UnlockResult(rs, u, UnlockScan(rs, u))
  {
    var r, tail := rs[0], rs[1..];
    if r.start == u.start && r.end == u.end {
      assert Remainder(r, u) == [];
      assert Remainder(r, u) + tail == tail;
    }
    assert UnlockScan(rs, u) == (Remainder(r, u) + tail, true, true);
    StopShape(rs, u);
    StopBytes(rs, u);
    StopFlags(rs, u);
  }

  lemma UnlockKeepCase(rs: seq<RangeLock>, u: RangeLock)
    requires AllWellFormed(rs) && Merged(rs) && WellFormed(u) && rs != []
    requires rs[0].owner != u.owner || !Overlaps(u, rs[0])
    requires UnlockResult(rs[1..], u, UnlockScan(rs[1..], u))
    ensures UnlockResult(rs, u, UnlockScan(rs, u))
  {
    var res := UnlockScan(rs[1..], u);
    var out := [rs[0]] + res.0;
    assert UnlockScan(rs, u) == (out, res.1, res.2);
    assert UnlockShape(rs, u, out) by {
      KeepHeadShape(rs, u, res.0);
    }
    assert UnlockBytes(rs, u, out) by {
      KeepHeadBytes(rs, u, res.0);
    }
    assert UnlockFlags(rs, u, res.1, res.2) by {
      KeepHeadFlags(rs, u, res.1, res.2);
    }
  }

  lemma UnlockCutCase(rs: seq<RangeLock>, u: RangeLock)
    requires AllWellFormed(rs) && Merged(rs) && WellFormed(u) && rs != []
    requires rs[0].owner == u.owner && Overlaps(u, rs[0])
    requires !(rs[0].start <= u.start && u.end <= rs[0].end)
    requires UnlockResult(rs[1..], u, UnlockScan(rs[1..], u))
    ensures UnlockResult(rs, u, UnlockScan(rs, u))
  {
    var r, res := rs[0], UnlockScan(rs[1..], u);
    var out := Remainder(r, u) + res.0;
    assert UnlockScan(rs, u) == (out, true, res.2) by {
      if u.start <= r.start && r.end <= u.end {
        assert Remainder(r, u) == [];
        assert out == res.0;
      }
    }
    assert UnlockShape(rs, u, out) by {
      CutHeadShape(rs, u, res.0);
    }
    assert UnlockBytes(rs, u, out) by {
      CutHeadBytes(rs, u, res.0);
    }
    assert UnlockFlags(rs, u, true, res.2) by {
      CutHeadFlags(rs, u, res.1, res.2);
    }
  }

  /** One loop of `flockRangeUnlock` on a merged set removes exactly the unlocked bytes of
      the handle, leaves other handles' ranges alone, keeps the set merged, reports whether
      a range of the handle overlapped, and stops early exactly when one contained the whole
      unlock. */
  lemma {:induction false} UnlockScanFacts(rs: seq<RangeLock>, u: RangeLock)
    requires AllWellFormed(rs) && Merged(rs) && WellFormed(u)
    ensures UnlockResult(rs, u, UnlockScan(rs, u))
    decreases |rs|
  {
    if rs != [] {
      var r, tail := rs[0], rs[1..];
      if r.owner == u.owner && Overlaps(u, r) && r.start <= u.start && u.end <= r.end {
        UnlockStopCase(rs, u);
      } else {
        MergedHead(rs);
        assert AllWellFormed(tail) by {
          assert forall e :: e in tail ==> e in rs;
        }
        UnlockScanFacts(tail, u);
        if r.owner != u.owner || !Overlaps(u, r) {
          UnlockKeepCase(rs, u);
        } else {
          UnlockCutCase(rs, u);
        }
      }
    }
  }
}
