/** Properties of the entry lock manager: the bookkeeping and mutual-exclusion invariants
    are kept by every operation, waiters are granted by the writer-preference policy in
    FIFO order, and cancels remove exactly what they select. */
module EntryLockLemmas {
  import opened LockCommon
  import opened EntryLockSpec

  // ----- ack-ID bookkeeping -----

  lemma AckIdsConcat(a: seq<EntryLock>, b: seq<EntryLock>)
    ensures AckIds(a + b) == AckIds(a) + AckIds(b)
  {
    forall x | x in AckIds(a + b) ensures x in AckIds(a) + AckIds(b) {
      var w :| w in a + b && w.ackId == x;
    }
  }

  lemma DistinctSameAck(ws: seq<EntryLock>, a: EntryLock, b: EntryLock)
    requires DistinctAcks(ws) && a in ws && b in ws && a.ackId == b.ackId
    ensures a == b
  {
    var i :| 0 <= i < |ws| && ws[i] == a;
    var j :| 0 <= j < |ws| && ws[j] == b;
    assert i == j;
  }

  lemma DistinctAppend(ws: seq<EntryLock>, d: EntryLock)
    requires DistinctAcks(ws) && d.ackId !in AckIds(ws)
    ensures DistinctAcks(ws + [d])
    ensures AckIds(ws + [d]) == AckIds(ws) + {d.ackId}
  {
    var s := ws + [d];
    forall i, j | 0 <= i < j < |s| ensures s[i].ackId != s[j].ackId {
      if j == |ws| {
        assert s[i] in ws;
      }
    }
    AckIdsConcat(ws, [d]);
  }

  lemma DistinctTail(ws: seq<EntryLock>)
    requires DistinctAcks(ws) && ws != []
    ensures DistinctAcks(ws[1..])
    ensures AckIds(ws[1..]) == AckIds(ws) - {ws[0].ackId}
  {
    assert ws == [ws[0]] + ws[1..];
    AckIdsConcat([ws[0]], ws[1..]);
    forall w | w in ws[1..] ensures w.ackId != ws[0].ackId {
      var k :| 0 <= k < |ws[1..]| && ws[1..][k] == w;
      assert ws[k + 1] == w;
    }
  }

  /** `Keep` and `Drop` split a queue by the selector. */
  lemma {:induction false} KeepDropMembers(ws: seq<EntryLock>, sel: Selector)
    ensures forall w :: w in Keep(ws, sel) <==> w in ws && !sel.Matches(w.owner)
    ensures forall w :: w in Drop(ws, sel) <==> w in ws && sel.Matches(w.owner)
    decreases |ws|
  {
    if ws != [] {
      var init, w := ws[..|ws| - 1], ws[|ws| - 1];
      assert ws == init + [w];
      KeepDropMembers(init, sel);
    }
  }

  lemma DistinctPrefix(ws: seq<EntryLock>, n: nat)
    requires DistinctAcks(ws) && n <= |ws|
    ensures DistinctAcks(ws[..n])
  {
    forall i, j | 0 <= i < j < n ensures ws[..n][i].ackId != ws[..n][j].ackId {
      assert ws[..n][i] == ws[i] && ws[..n][j] == ws[j];
    }
  }

  /** The waiters a cancel keeps still have distinct ack IDs. */
  lemma {:induction false} KeepDistinct(ws: seq<EntryLock>, sel: Selector)
    requires DistinctAcks(ws)
    ensures DistinctAcks(Keep(ws, sel))
    decreases |ws|
  {
    if ws != [] {
      var init, w := ws[..|ws| - 1], ws[|ws| - 1];
      DistinctPrefix(ws, |ws| - 1);
      KeepDistinct(init, sel);
      if !sel.Matches(w.owner) {
        KeepDropMembers(init, sel);
        forall v | v in Keep(init, sel) ensures v.ackId != w.ackId {
          var i :| 0 <= i < |init| && init[i] == v;
          assert ws[i] == v;
        }
        DistinctAppend(Keep(init, sel), w);
      }
    }
  }

  /** With distinct ack IDs, the kept IDs are exactly those not removed. */
  lemma KeepDropFacts(ws: seq<EntryLock>, sel: Selector)
    ensures forall w :: w in Keep(ws, sel) <==> w in ws && !sel.Matches(w.owner)
    ensures forall w :: w in Drop(ws, sel) <==> w in ws && sel.Matches(w.owner)
    ensures DistinctAcks(ws) ==> DistinctAcks(Keep(ws, sel))
    ensures DistinctAcks(ws) ==> AckIds(Keep(ws, sel)) == AckIds(ws) - AckIds(Drop(ws, sel))
  {
    KeepDropMembers(ws, sel);
    if DistinctAcks(ws) {
      KeepDistinct(ws, sel);
      forall x | x in AckIds(Keep(ws, sel)) ensures x !in AckIds(Drop(ws, sel)) {
        var a :| a in Keep(ws, sel) && a.ackId == x;
        forall b | b in Drop(ws, sel) ensures b.ackId != x {
          if b.ackId == x {
            DistinctSameAck(ws, a, b);
          }
        }
      }
    }
  }

  /** Granting shared waiters only adds holders: each waiter's handle ends up holding, and
      holders already present keep their entry. */
  lemma {:induction false} GrantAllSharedFacts(m: map<Owner, EntryLock>, ws: seq<EntryLock>)
    ensures forall o :: o in GrantAllShared(m, ws) <==> o in m || exists w :: w in ws && w.owner == o
    ensures forall o :: o in m ==> GrantAllShared(m, ws)[o] == m[o]
    ensures (forall o :: o in m ==> m[o].owner == o) ==>
              forall o :: o in GrantAllShared(m, ws) ==> GrantAllShared(m, ws)[o].owner == o
    decreases |ws|
  {
    if ws != [] {
      GrantAllSharedFacts(InsertShared(m, ws[0]), ws[1..]);
      assert ws == [ws[0]] + ws[1..];
    }
  }

  // ----- try-next-waiters -----

  /** The policy of `flockEntryTryNextWaiters`: nothing while an exclusive lock is held;
      every shared waiter, in queue order, when no exclusive waiter exists; otherwise the
      head exclusive waiter once no shared lock is held. The notify list is exactly the
      waiters taken off the queues, and their ack IDs leave the waiter-ID set. */
  lemma TryNextWaitersPolicy(q: Queues)
    requires Valid(q)
    ensures var (q', n) := TryNextWaiters(q);
      && (q.excl.Some? ==> q' == q && n == [])
      && (q.excl.None? && q.waitersShared != [] && q.waitersExcl == [] ==>
            && n == q.waitersShared && q'.waitersShared == [] && q'.waitersExcl == []
            && q'.excl.None?
            && (forall w :: w in n ==> w.owner in q'.shared)
            && (forall o :: o in q.shared ==> o in q'.shared && q'.shared[o] == q.shared[o])
            && (forall o :: o in q'.shared ==> o in q.shared || exists w :: w in n && w.owner == o))
      && (q.excl.None? && q.waitersExcl != [] && q.shared == map[] ==>
            && n == [q.waitersExcl[0]] && q'.excl == Some(q.waitersExcl[0])
            && q'.waitersExcl == q.waitersExcl[1..] && q'.waitersShared == q.waitersShared
            && q'.shared == q.shared)
      && (q.excl.None? && q.waitersExcl != [] && q.shared != map[] ==> q' == q && n == [])
      && (q.waitersExcl == [] && q.waitersShared == [] ==> q' == q && n == [])
      && q'.waiterIds == q.waiterIds - AckIds(n)
      && AckIds(n) !! q'.waiterIds
  {
    var (q', n) := TryNextWaiters(q);
    if q.excl.None? && q.waitersShared != [] && q.waitersExcl == [] {
      GrantAllSharedFacts(q.shared, q.waitersShared);
    } else if q.excl.None? && q.waitersExcl != [] && q.shared == map[] {
      assert AckIds(n) == {q.waitersExcl[0].ackId};
    } else {
      assert AckIds(n) == {};
    }
  }

  lemma TryNextWaitersKeepsInvariants(q: Queues)
    requires Valid(q) && NoConflict(q)
    ensures Valid(TryNextWaiters(q).0) && NoConflict(TryNextWaiters(q).0)
  {
    if q.excl.None? && q.waitersShared != [] && q.waitersExcl == [] {
      GrantAllSharedFacts(q.shared, q.waitersShared);
    } else if q.excl.None? && q.waitersExcl != [] && q.shared == map[] {
      DistinctTail(q.waitersExcl);
    }
  }

  // ----- cancel -----

  /** A cancel removes every granted lock and waiter the selector matches and nothing else,
      takes the removed waiters' ack IDs out of the waiter-ID set, and reports whether it
      removed anything. */
  lemma CancelRemovesExactlyMatching(q: Queues, sel: Selector)
    requires Valid(q)
    ensures var (q', removed) := CancelMatching(q, sel);
      && (q'.excl.Some? ==> q'.excl == q.excl && !sel.Matches(q'.excl.value.owner))
      && (q.excl.Some? && !sel.Matches(q.excl.value.owner) ==> q'.excl == q.excl)
      && (forall o :: o in q'.shared <==> o in q.shared && !sel.Matches(q.shared[o].owner))
      && (forall o :: o in q'.shared ==> q'.shared[o] == q.shared[o])
      && (forall w :: w in q'.waitersExcl <==> w in q.waitersExcl && !sel.Matches(w.owner))
      && (forall w :: w in q'.waitersShared <==> w in q.waitersShared && !sel.Matches(w.owner))
      && q'.waiterIds == AckIds(q'.waitersExcl) + AckIds(q'.waitersShared)
      && (forall w :: w in q.waitersExcl + q.waitersShared && sel.Matches(w.owner) ==>
            w.ackId !in q'.waiterIds)
      && (removed <==>
            || (q.excl.Some? && sel.Matches(q.excl.value.owner))
            || (exists o :: o in q.shared && sel.Matches(q.shared[o].owner))
            || (exists w :: w in q.waitersExcl + q.waitersShared && sel.Matches(w.owner)))
  {
    CancelMatchingKeepsInvariants(q, sel);
    KeepDropFacts(q.waitersExcl, sel);
    KeepDropFacts(q.waitersShared, sel);
    AckIdsConcat(Drop(q.waitersExcl, sel), Drop(q.waitersShared, sel));
    var (q', removed) := CancelMatching(q, sel);
    var dropped := Drop(q.waitersExcl, sel) + Drop(q.waitersShared, sel);
    if dropped != [] {
      var w := dropped[0];
      assert w in Drop(q.waitersExcl, sel) || w in Drop(q.waitersShared, sel);
      assert w in q.waitersExcl + q.waitersShared;
    }
    if exists w :: w in q.waitersExcl + q.waitersShared && sel.Matches(w.owner) {
      var w :| w in q.waitersExcl + q.waitersShared && sel.Matches(w.owner);
      assert w in dropped;
    }
    forall w | w in q.waitersExcl + q.waitersShared && sel.Matches(w.owner)
      ensures w.ackId !in q'.waiterIds
    {
      assert w in dropped;
    }
  }

  lemma CancelMatchingKeepsInvariants(q: Queues, sel: Selector)
    requires Valid(q)
    ensures Valid(CancelMatching(q, sel).0)
    ensures NoConflict(q) ==> NoConflict(CancelMatching(q, sel).0)
  {
    KeepDropFacts(q.waitersExcl, sel);
    KeepDropFacts(q.waitersShared, sel);
    AckIdsConcat(Drop(q.waitersExcl, sel), Drop(q.waitersShared, sel));
    var q' := CancelMatching(q, sel).0;
    assert AckIds(q'.waitersExcl) !! AckIds(q'.waitersShared) by {
      forall x | x in AckIds(q'.waitersExcl) ensures x !in AckIds(q'.waitersShared) {
        var a :| a in q'.waitersExcl && a.ackId == x;
      }
    }
    if NoConflict(q) && q'.excl.Some? {
      assert q'.shared.Keys == {};
    }
  }

  /** No granted lock and no waiter of the queues belongs to client node `clientId`. */
  ghost predicate NothingOfClient(q: Queues, clientId: nat)
  {
    && (q.excl.Some? ==> q.excl.value.owner.clientId != clientId)
    && (forall o :: o in q.shared ==> q.shared[o].owner.clientId != clientId)
    && (forall w :: w in q.waitersExcl + q.waitersShared ==> w.owner.clientId != clientId)
  }

  lemma CancelLeavesNothingOfClient(q: Queues, clientId: nat)
    requires Valid(q)
    ensures NothingOfClient(CancelMatching(q, ByClient(clientId)).0, clientId)
  {
    CancelRemovesExactlyMatching(q, ByClient(clientId));
  }

  /** `flockEntryTryNextWaiters` only hands locks to waiters, so it brings no lock of a
      client node that has none into the queues. */
  lemma TryNextKeepsNothingOfClient(q: Queues, clientId: nat)
    requires Valid(q) && NothingOfClient(q, clientId)
    ensures var (q', n) := TryNextWaiters(q);
      NothingOfClient(q', clientId) && forall w :: w in n ==> w.owner.clientId != clientId
  {
    TryNextWaitersPolicy(q);
    var (q', n) := TryNextWaiters(q);
    forall o | o in q'.shared ensures q'.shared[o].owner.clientId != clientId {
      if q.excl.None? && q.waitersShared != [] && q.waitersExcl == [] {
        GrantAllSharedFacts(q.shared, q.waitersShared);
        if o !in q.shared {
          var w :| w in n && w.owner == o;
          assert w in q.waitersShared;
        }
      }
    }
    forall w | w in q'.waitersExcl + q'.waitersShared ensures w.owner.clientId != clientId {
      if q.excl.None? && q.waitersExcl != [] && q.shared == map[] {
        assert w in q.waitersExcl[1..] || w in q.waitersShared;
        assert w in q.waitersExcl || w in q.waitersShared;
      }
    }
    forall w | w in n ensures w.owner.clientId != clientId {
      assert w in q.waitersExcl + q.waitersShared;
    }
  }

  /** After cancelling a client node, no lock and no waiter of that node is left, and the
      invariants still hold. */
  lemma CancelByClientIDLeavesNothingOfClient(q: Queues, clientId: nat)
    requires Valid(q) && NoConflict(q)
    ensures var (q', n) := CancelByClientID(q, clientId);
      && Valid(q') && NoConflict(q')
      && (q'.excl.Some? ==> q'.excl.value.owner.clientId != clientId)
      && (forall o :: o in q'.shared ==> q'.shared[o].owner.clientId != clientId)
      && (forall w :: w in q'.waitersExcl + q'.waitersShared ==> w.owner.clientId != clientId)
      && (forall w :: w in n ==> w.owner.clientId != clientId)
  {
    var sel := ByClient(clientId);
    var (q1, removed) := CancelMatching(q, sel);
    CancelMatchingKeepsInvariants(q, sel);
    CancelLeavesNothingOfClient(q, clientId);
    if removed {
      TryNextWaitersKeepsInvariants(q1);
      TryNextKeepsNothingOfClient(q1, clientId);
    }
  }

  lemma CancelAllWaitersKeepsInvariants(q: Queues)
    requires Valid(q) && NoConflict(q)
    ensures var q' := CancelAllWaiters(q);
      Valid(q') && NoConflict(q') && q'.excl == q.excl && q'.shared == q.shared &&
      q'.waiterIds == {} && q'.waitersExcl == [] && q'.waitersShared == []
  {
    assert AckIds([]) == {};
  }

  // ----- lock requests -----

  lemma ReleaseKeepsInvariants(q: Queues, o: Owner)
    requires Valid(q) && NoConflict(q)
    ensures var (q', released) := Release(q, o);
      Valid(q') && NoConflict(q') && q'.waitersExcl == q.waitersExcl &&
      q'.waitersShared == q.waitersShared && q'.waiterIds == q.waiterIds &&
      (q'.excl.Some? ==> q'.excl == q.excl && q.excl.value.owner != o) &&
      o !in q'.shared && (released <==> (q.excl.Some? && q.excl.value.owner == o) || o in q.shared)
  {
  }

  /** A request the conflict check lets through leaves a state that still respects mutual
      exclusion once it is granted. */
  lemma GrantKeepsInvariants(q: Queues, d: EntryLock)
    requires Valid(q) && NoConflict(q)
    requires d.op.Shared? || d.op.Exclusive?
    requires !Conflicts(q, d)
    ensures var q2 := Grant(Release(q, d.owner).0, d);
      Valid(q2) && NoConflict(q2) && IsGranted(q2, d)
  {
    var q1 := Release(q, d.owner).0;
    if d.op.Exclusive? && !(q.excl.Some? && q.excl.value.owner == d.owner) {
      assert forall o :: o in q.shared ==> o == d.owner;
      assert q1.shared.Keys == {};
    }
  }

  lemma EnqueueKeepsInvariants(q: Queues, d: EntryLock)
    requires Valid(q) && NoConflict(q)
    requires d.op.Shared? || d.op.Exclusive?
    requires d.ackId !in q.waiterIds
    ensures Valid(Enqueue(q, d)) && NoConflict(Enqueue(q, d))
  {
    if d.op.Shared? {
      DistinctAppend(q.waitersShared, d);
    } else {
      DistinctAppend(q.waitersExcl, d);
    }
  }

  /** Every request to `flockEntryUnlocked` keeps the bookkeeping and the mutual-exclusion
      invariant. */
  lemma RequestKeepsInvariants(q: Queues, d: EntryLock)
    requires Valid(q) && NoConflict(q)
    ensures Valid(Request(q, d).0) && NoConflict(Request(q, d).0)
  {
    if d.op.Cancel? {
      var (q1, removed) := CancelMatching(q, ByHandle(d.owner));
      CancelMatchingKeepsInvariants(q, ByHandle(d.owner));
      if removed {
        TryNextWaitersKeepsInvariants(q1);
      }
    } else if d.op.Unlock? {
      var (q1, released) := Release(q, d.owner);
      ReleaseKeepsInvariants(q, d.owner);
      if released {
        TryNextWaitersKeepsInvariants(q1);
      }
    } else if d.ackId !in q.waiterIds && !IsGranted(q, d) {
      var conflict := Conflicts(q, d);
      var (q1, released) := if !conflict || d.mayWait then Release(q, d.owner) else (q, false);
      ReleaseKeepsInvariants(q, d.owner);
      var q2 := if !conflict then Grant(q1, d) else if d.mayWait then Enqueue(q1, d) else q1;
      if !conflict {
        GrantKeepsInvariants(q, d);
      } else if d.mayWait {
        EnqueueKeepsInvariants(q1, d);
      }
      if released {
        TryNextWaitersKeepsInvariants(q2);
      }
    }
  }

  /** A repeated request whose ack ID is still queued keeps waiting and changes nothing; a
      request for a lock the handle already holds is granted and changes nothing. */
  lemma RepeatedRequestChangesNothing(q: Queues, d: EntryLock)
    requires d.op.Shared? || d.op.Exclusive?
    requires d.ackId in q.waiterIds || IsGranted(q, d)
    ensures Request(q, d).0 == q && Request(q, d).2 == []
    ensures Request(q, d).1 <==> d.ackId !in q.waiterIds
  {
  }

  /** A lock request that is granted immediately is held afterwards, even once the waiters
      it made eligible have been granted too. */
  lemma GrantedRequestIsHeld(q: Queues, d: EntryLock)
    requires Valid(q) && NoConflict(q)
    requires d.op.Shared? || d.op.Exclusive?
    requires Request(q, d).1
    ensures IsGranted(Request(q, d).0, d)
  {
    if d.ackId !in q.waiterIds && !IsGranted(q, d) {
      var (q1, released) := Release(q, d.owner);
      GrantKeepsInvariants(q, d);
      var q2 := Grant(q1, d);
      if released && d.op.Shared? {
        GrantAllSharedFacts(q2.shared, q2.waitersShared);
      }
    }
  }

  /** `flockEntryUnlocked` reports success exactly for what it grants at once: a new lock
      request (not waiting, not yet held) is granted immediately exactly when the conflict
      check finds nothing in its way. */
  lemma NewRequestGrantedIffNoConflict(q: Queues, d: EntryLock)
    requires d.op.Shared? || d.op.Exclusive?
    requires d.ackId !in q.waiterIds && !IsGranted(q, d)
    ensures Request(q, d).1 <==> !Conflicts(q, d)
  {
  }

  /** Writer preference and NOWAIT: a new request the conflict check refuses is not granted;
      without permission to wait it changes nothing, and with it the request joins the end
      of its queue and stays there, even if its own released lock lets another waiter in. */
  lemma ConflictingRequestWaits(q: Queues, d: EntryLock)
    requires Valid(q) && NoConflict(q)
    requires d.op.Shared? || d.op.Exclusive?
    requires d.ackId !in q.waiterIds && !IsGranted(q, d)
    requires Conflicts(q, d)
    ensures var (q', granted, n) := Request(q, d);
      && !granted
      && (!d.mayWait ==> q' == q && n == [])
      && (d.mayWait && d.op.Shared? ==> q'.waitersShared == q.waitersShared + [d])
      && (d.mayWait && d.op.Exclusive? ==> q'.waitersExcl == q.waitersExcl + [d])
      && (d.mayWait ==> d.ackId in q'.waiterIds)
  {
    if d.mayWait {
      var (q1, released) := Release(q, d.owner);
      var q2 := Enqueue(q1, d);
      if d.op.Exclusive? && !(q.excl.Some? && q.excl.value.owner != d.owner) {
        // a foreign shared holder survives the release and keeps the exclusive waiters out
        var o :| o in q.shared && q.shared[o].owner != d.owner;
        assert o in q2.shared;
      }
      if released && d.op.Shared? && q2.excl.None? && q2.waitersExcl != [] && q2.shared == map[] {
        assert q.waitersExcl[0] in q.waitersExcl;
      }
    }
  }

  // ----- finding: the exclusive branch of flockEntryTryNextWaiters -----

  /** As written, an upgrade from shared to exclusive is granted while another handle still
      holds its shared lock: handles A and B hold shared locks, B asks for an exclusive lock
      and may wait; the conflict with A queues B after releasing B's shared lock, and the
      unconditional exclusive branch then grants B at once. With the check on the shared
      holders, B keeps waiting and mutual exclusion holds. */
  lemma UpgradeGrantedBesideSharedHolderAsWritten()
    ensures
      var a := Owner(1, 10);
      var b := Owner(2, 20);
      var la := EntryLock(a, "a", Shared, true);
      var lb := EntryLock(b, "b", Shared, true);
      var q := Queues(None, map[a := la, b := lb], [], [], {});
      var up := EntryLock(b, "b2", Exclusive, true);
      var q2 := Enqueue(Release(q, b).0, up);
      && Valid(q) && NoConflict(q)
      && Conflicts(q, up) && Release(q, b).1
      && Request(q, up) == Finish(q2, false, true)
      && TryNextWaitersAsWritten(q2).1 == [up]
      && !NoConflict(TryNextWaitersAsWritten(q2).0)
      && NoConflict(Request(q, up).0)
      && Request(q, up).0.waitersExcl == [up]
  {
    var a := Owner(1, 10);
    var b := Owner(2, 20);
    var la := EntryLock(a, "a", Shared, true);
    var lb := EntryLock(b, "b", Shared, true);
    var q := Queues(None, map[a := la, b := lb], [], [], {});
    var up := EntryLock(b, "b2", Exclusive, true);
    assert a in q.shared && q.shared[a].owner != up.owner;
    var q1 := Release(q, b).0;
    assert a in q1.shared;
    assert AckIds([]) == {};
    RequestKeepsInvariants(q, up);
  }
}
