/** Facts about the sequences of the range lock table taken one at a time: ack IDs of the
    waiter queues, the split a cancel makes, removal of one waiter, and merged subsequences. */
module RangeQueueLemmas {
  import opened LockCommon
  import opened RangeDetails
  import opened RangeLockSpec
  import opened RangeMergeLemmas

  lemma AckIdsConcat(a: seq<RangeLock>, b: seq<RangeLock>)
    ensures AckIds(a + b) == AckIds(a) + AckIds(b)
  {
    forall x | x in AckIds(a + b) ensures x in AckIds(a) + AckIds(b) {
      var w :| w in a + b && w.ackId == x;
    }
  }

  lemma DistinctAppend(ws: seq<RangeLock>, d: RangeLock)
    requires DistinctAcks(ws) && d.ackId !in AckIds(ws)
    ensures DistinctAcks(ws + [d])
    ensures AckIds(ws + [d]) == AckIds(ws) + {d.ackId}
  {
    var s := ws + [d];
    forall i, j | 0 <= i < j < |s| ensures s[i].ackId != s[j].ackId {
      if j == |ws| {
        assert s[i] in ws;
      }
    }
    AckIdsConcat(ws, [d]);
  }

  lemma DistinctPrefix(ws: seq<RangeLock>, n: nat)
    requires DistinctAcks(ws) && n <= |ws|
    ensures DistinctAcks(ws[..n])
  {
    forall i, j | 0 <= i < j < n ensures ws[..n][i].ackId != ws[..n][j].ackId {
      assert ws[..n][i] == ws[i] && ws[..n][j] == ws[j];
    }
  }

  /** Taking the waiter at `i` off a queue with distinct ack IDs removes exactly its ID and
      keeps the rest distinct. */
  lemma RemoveAtFacts(ws: seq<RangeLock>, i: nat)
    requires DistinctAcks(ws) && i < |ws|
    ensures DistinctAcks(RemoveAt(ws, i))
    ensures AckIds(RemoveAt(ws, i)) == AckIds(ws) - {ws[i].ackId}
    ensures forall w :: w in RemoveAt(ws, i) ==> w in ws
    ensures |RemoveAt(ws, i)| == |ws| - 1
  {
    var s := RemoveAt(ws, i);
    assert forall k :: 0 <= k < i ==> s[k] == ws[k];
    assert forall k :: i <= k < |s| ==> s[k] == ws[k + 1];
    forall a, b | 0 <= a < b < |s| ensures s[a].ackId != s[b].ackId {
      var a', b' := if a < i then a else a + 1, if b < i then b else b + 1;
      assert s[a] == ws[a'] && s[b] == ws[b'];
    }
    forall x | x in AckIds(ws) - {ws[i].ackId} ensures x in AckIds(s) {
      var w :| w in ws && w.ackId == x;
      var k :| 0 <= k < |ws| && ws[k] == w;
      if k < i {
        assert s[k] == w;
      } else {
        assert k > i;
        assert s[k - 1] == w;
      }
    }
    forall x | x in AckIds(s) ensures x in AckIds(ws) - {ws[i].ackId} {
      var w :| w in s && w.ackId == x;
      var k :| 0 <= k < |s| && s[k] == w;
      if k < i {
        assert ws[k] == w;
      } else {
        assert ws[k + 1] == w;
      }
    }
  }

  /** `Keep` and `Drop` split a sequence by the selector. */
  lemma {:induction false} KeepDropMembers(rs: seq<RangeLock>, sel: Selector)
    ensures forall r :: r in Keep(rs, sel) <==> r in rs && !sel.Matches(r.owner)
    ensures forall r :: r in Drop(rs, sel) <==> r in rs && sel.Matches(r.owner)
    decreases |rs|
  {
    if rs != [] {
      var init, r := rs[..|rs| - 1], rs[|rs| - 1];
      assert rs == init + [r];
      KeepDropMembers(init, sel);
    }
  }

  /** The waiters a cancel keeps still have distinct ack IDs. */
  lemma {:induction false} KeepDistinct(rs: seq<RangeLock>, sel: Selector)
    requires DistinctAcks(rs)
    ensures DistinctAcks(Keep(rs, sel))
    decreases |rs|
  {
    if rs != [] {
      var init, r := rs[..|rs| - 1], rs[|rs| - 1];
      DistinctPrefix(rs, |rs| - 1);
      KeepDistinct(init, sel);
      if !sel.Matches(r.owner) {
        KeepDropMembers(init, sel);
        forall v | v in Keep(init, sel) ensures v.ackId != r.ackId {
          var i :| 0 <= i < |init| && init[i] == v;
          assert rs[i] == v;
        }
        DistinctAppend(Keep(init, sel), r);
      }
    }
  }

  lemma MergedPrefix(rs: seq<RangeLock>)
    requires Merged(rs) && rs != []
    ensures Merged(rs[..|rs| - 1])
    ensures forall e :: e in rs[..|rs| - 1] && e.owner == rs[|rs| - 1].owner ==> !Touches(e, rs[|rs| - 1])
  {
    assert rs == rs[..|rs| - 1] + [rs[|rs| - 1]];
    MergedConcat(rs[..|rs| - 1], [rs[|rs| - 1]]);
  }

  /** The granted ranges a cancel keeps are still merged. */
  lemma {:induction false} KeepMerged(rs: seq<RangeLock>, sel: Selector)
    requires Merged(rs)
    ensures Merged(Keep(rs, sel))
    decreases |rs|
  {
    if rs != [] {
      var init, r := rs[..|rs| - 1], rs[|rs| - 1];
      MergedPrefix(rs);
      KeepMerged(init, sel);
      if !sel.Matches(r.owner) {
        KeepDropMembers(init, sel);
        MergedConcat(Keep(init, sel), [r]);
      }
    }
  }

  /** With distinct ack IDs, the kept IDs are exactly those not removed. */
  lemma KeepDropAcks(ws: seq<RangeLock>, sel: Selector)
    requires DistinctAcks(ws)
    ensures AckIds(Keep(ws, sel)) == AckIds(ws) - AckIds(Drop(ws, sel))
  {
    KeepDropMembers(ws, sel);
    forall x | x in AckIds(ws) - AckIds(Drop(ws, sel)) ensures x in AckIds(Keep(ws, sel)) {
      var w :| w in ws && w.ackId == x;
      assert w !in Drop(ws, sel);
    }
    forall w, v | w in Keep(ws, sel) && v in Drop(ws, sel) ensures w.ackId != v.ackId {
      var i :| 0 <= i < |ws| && ws[i] == w;
      var j :| 0 <= j < |ws| && ws[j] == v;
      assert i != j;
    }
  }

  // ----- splitting a queue in order -----

  /** The elements of `q` whose flag in `mask` is `b`, in queue order. */
  function Pick<T>(q: seq<T>, mask: seq<bool>, b: bool): (p: seq<T>)
    requires |mask| == |q|
    ensures |p| <= |q|
    decreases |q|
  {
    if q == [] then []
    else (if mask[0] == b then [q[0]] else []) + Pick(q[1..], mask[1..], b)
  }

  lemma {:induction false} PickConcat<T>(q1: seq<T>, m1: seq<bool>, q2: seq<T>, m2: seq<bool>, b: bool)
    requires |m1| == |q1| && |m2| == |q2|
    ensures Pick(q1 + q2, m1 + m2, b) == Pick(q1, m1, b) + Pick(q2, m2, b)
    decreases |q1|
  {
    if q1 == [] {
      assert q1 + q2 == q2 && m1 + m2 == m2;
    } else {
      assert (q1 + q2)[1..] == q1[1..] + q2 && (m1 + m2)[1..] == m1[1..] + m2;
      assert (q1 + q2)[0] == q1[0] && (m1 + m2)[0] == m1[0];
      PickConcat(q1[1..], m1[1..], q2, m2, b);
    }
  }

  /** A mask that never says `b` picks nothing, and one that always says the opposite of
      `b` picks the whole queue. */
  lemma {:induction false} PickConstant<T>(q: seq<T>, mask: seq<bool>, b: bool)
    requires |mask| == |q| && forall k :: 0 <= k < |mask| ==> mask[k] != b
    ensures Pick(q, mask, b) == [] && Pick(q, mask, !b) == q
    decreases |q|
  {
    if q != [] {
      PickConstant(q[1..], mask[1..], b);
      assert q == [q[0]] + q[1..];
    }
  }

  /** Picking from a queue with one element flagged `true` put in between two parts. */
  lemma PickInsert<T>(a: seq<T>, ma: seq<bool>, x: T, c: seq<T>, mc: seq<bool>, b: bool)
    requires |ma| == |a| && |mc| == |c|
    ensures Pick(a + [x] + c, ma + [true] + mc, b) == Pick(a, ma, b) + (if b then [x] else []) + Pick(c, mc, b)
    ensures Pick(a + c, ma + mc, b) == Pick(a, ma, b) + Pick(c, mc, b)
  {
    PickConcat(a, ma, [x], [true], b);
    PickConcat(a + [x], ma + [true], c, mc, b);
    PickConcat(a, ma, c, mc, b);
    assert Pick([x], [true], b) == (if b then [x] else []) + Pick([], [], b);
  }

  /** Flagging the element at `i` in a mask of the queue without it, when the mask flags
      nothing before `i`. */
  lemma PickFlagAt<T>(q: seq<T>, i: nat, mask1: seq<bool>, b: bool)
    requires i < |q| && |mask1| == |q| - 1 && forall j :: 0 <= j < i ==> !mask1[j]
    ensures Pick(q, mask1[..i] + [true] + mask1[i..], b) == (if b then [q[i]] else []) + Pick(q[..i] + q[i + 1..], mask1, b)
  {
    var a, c, ma, mc := q[..i], q[i + 1..], mask1[..i], mask1[i..];
    assert q == a + [q[i]] + c;
    assert mask1 == ma + mc;
    PickInsert(a, ma, q[i], c, mc, b);
    if b {
      PickConstant(a, ma, true);
    }
  }
}
