/** The entry lock queues of a file inode as mutable state: the containers the C++ routines
    change in place, with each routine proved to leave exactly the state that the matching
    function of `EntryLockSpec` computes, and to keep the invariants of `EntryLockLemmas`. */
module EntryLocking {
  import opened LockCommon
  import opened EntryLockSpec
  import EntryLockLemmas

  /** The erase loop of the cancel routines over one waiter queue: the waiters kept, in
      order, and the waiters removed. */
  method FilterWaiters(ws: seq<EntryLock>, sel: Selector) returns (kept: seq<EntryLock>, dropped: seq<EntryLock>)
    ensures kept == Keep(ws, sel) && dropped == Drop(ws, sel)
  {
    kept, dropped := [], [];
    var i := 0;
    while i < |ws|
      invariant 0 <= i <= |ws|
      invariant kept == Keep(ws[..i], sel) && dropped == Drop(ws[..i], sel)
    {
      assert ws[..i + 1][..i] == ws[..i];
      if sel.Matches(ws[i].owner) {
        dropped := dropped + [ws[i]];
      } else {
        kept := kept + [ws[i]];
      }
      i := i + 1;
    }
    assert ws[..|ws|] == ws;
  }

  /** `flockEntryCheckConflicts`: scans the shared holders for a foreign one when the request
      is exclusive. */
  method CheckConflicts(q: Queues, d: EntryLock) returns (conflict: bool)
    ensures conflict <==> Conflicts(q, d)
  {
    if q.excl.Some? && q.excl.value.owner != d.owner {
      return true;
    }
    if d.op.Exclusive? {
      var rest := q.shared.Keys;
      while rest != {}
        invariant rest <= q.shared.Keys
        invariant forall o :: o in q.shared && o !in rest ==> q.shared[o].owner == d.owner
        decreases |rest|
      {
        var o :| o in rest;
        if q.shared[o].owner != d.owner {
          return true;
        }
        rest := rest - {o};
      }
      return false;
    }
    return q.waitersExcl != [];
  }

  /** The erase loop of the cancel routines over the shared holders: the holders kept, and
      whether any was removed. */
  method FilterShared(m: map<Owner, EntryLock>, sel: Selector) returns (kept: map<Owner, EntryLock>, hit: bool)
    ensures kept == KeepShared(m, sel)
    ensures hit <==> exists o :: o in m && sel.Matches(m[o].owner)
  {
    kept, hit := m, false;
    var rest := m.Keys;
    while rest != {}
      invariant rest <= m.Keys
      invariant forall o :: o in kept <==> o in m && (o in rest || !sel.Matches(m[o].owner))
      invariant forall o :: o in kept ==> kept[o] == m[o]
      invariant hit <==> exists o :: o in m && o !in rest && sel.Matches(m[o].owner)
      decreases |rest|
    {
      var o :| o in rest;
      if sel.Matches(m[o].owner) {
        kept := kept - {o};
        hit := true;
      }
      rest := rest - {o};
    }
  }

  /** The grant-all loop of `flockEntryTryNextWaiters`: pops the shared waiters front to back,
      grants each one and erases its ack ID; the popped waiters are the notify list. */
  method GrantWaitingShared(m: map<Owner, EntryLock>, ws: seq<EntryLock>, ids: set<AckId>)
    returns (m': map<Owner, EntryLock>, ids': set<AckId>, notify: seq<EntryLock>)
    ensures m' == GrantAllShared(m, ws)
    ensures ids' == ids - AckIds(ws)
    ensures notify == ws
  {
    m', ids', notify := m, ids, [];
    var rest := ws;
    while rest != []
      invariant notify + rest == ws
      invariant GrantAllShared(m', rest) == GrantAllShared(m, ws)
      invariant ids' == ids - AckIds(notify)
      decreases |rest|
    {
      var w := rest[0];
      m' := InsertShared(m', w);
      EntryLockLemmas.AckIdsConcat(notify, [w]);
      assert AckIds([w]) == {w.ackId};
      notify := notify + [w];
      ids' := ids' - {w.ackId};
      rest := rest[1..];
    }
  }

  /** One `EntryLockQueuesContainer` (flock or append locks) of a file inode. Every method
      computes the state its `EntryLockSpec` function describes, and keeps the bookkeeping
      and mutual-exclusion invariant `Valid()` whenever it held before. */
  class EntryLockQueues {
    var excl: Option<EntryLock>
    var shared: map<Owner, EntryLock>
    var waitersExcl: seq<EntryLock>
    var waitersShared: seq<EntryLock>
    var waiterIds: set<AckId>

    function Snapshot(): Queues
      reads this
    {
      Queues(excl, shared, waitersExcl, waitersShared, waiterIds)
    }

    ghost predicate Valid()
      reads this
    {
      EntryLockSpec.Valid(Snapshot()) && NoConflict(Snapshot())
    }

    constructor ()
      ensures Valid() && Snapshot() == Empty
    {
      excl, shared, waitersExcl, waitersShared, waiterIds := None, map[], [], [], {};
      assert EntryLockSpec.AckIds([]) == {};
    }

    /** `flockEntryUnlock`. */
    method Release(o: Owner) returns (released: bool)
      modifies this
      ensures (Snapshot(), released) == EntryLockSpec.Release(old(Snapshot()), o)
      ensures old(Valid()) ==> Valid()
    {
      ghost var q0, valid0 := Snapshot(), Valid();
      released := false;
      if excl.Some? && excl.value.owner == o {
        excl := None;
        released := true;
      } else if o in shared {
        shared := shared - {o};
        released := true;
      }
      if valid0 {
        EntryLockLemmas.ReleaseKeepsInvariants(q0, o);
      }
    }

    /** `flockEntryCancelByHandle` and the removal part of
        `flockEntryGenericCancelByClientID`. */
    method CancelMatching(sel: Selector) returns (removed: bool)
      modifies this
      ensures (Snapshot(), removed) == EntryLockSpec.CancelMatching(old(Snapshot()), sel)
      ensures old(Valid()) ==> Valid()
    {
      ghost var q0, valid0 := Snapshot(), Valid();
      var exclHit := excl.Some? && sel.Matches(excl.value.owner);
      var keptShared, sharedHit := FilterShared(shared, sel);
      var keptExcl, droppedExcl := FilterWaiters(waitersExcl, sel);
      var keptWaitersShared, droppedShared := FilterWaiters(waitersShared, sel);
      if exclHit {
        excl := None;
      }
      shared, waitersExcl, waitersShared := keptShared, keptExcl, keptWaitersShared;
      waiterIds := waiterIds - AckIds(droppedExcl) - AckIds(droppedShared);
      removed := exclHit || sharedHit || droppedExcl != [] || droppedShared != [];
      ghost var spec := EntryLockSpec.CancelMatching(q0, sel);
      assert waiterIds == spec.0.waiterIds by {
        EntryLockLemmas.AckIdsConcat(droppedExcl, droppedShared);
      }
      assert removed == spec.1 by {
        assert droppedExcl + droppedShared != [] <==> droppedExcl != [] || droppedShared != [];
      }
      assert Snapshot() == spec.0;
      if valid0 {
        assert Valid() by {
          EntryLockLemmas.CancelMatchingKeepsInvariants(q0, sel);
        }
      }
    }

    /** `flockEntryTryNextWaiters`, with the exclusive branch taken only when no shared lock
        is held. */
    method TryNextWaiters() returns (notify: seq<EntryLock>)
      modifies this
      ensures (Snapshot(), notify) == EntryLockSpec.TryNextWaiters(old(Snapshot()))
      ensures old(Valid()) ==> Valid()
    {
      ghost var q0, valid0 := Snapshot(), Valid();
      notify := [];
      if excl.None? {
        if waitersShared != [] && waitersExcl == [] {
          shared, waiterIds, notify := GrantWaitingShared(shared, waitersShared, waiterIds);
          waitersShared := [];
        } else if waitersExcl != [] && shared == map[] {
          var w := waitersExcl[0];
          excl := Some(w);
          notify := [w];
          waiterIds := waiterIds - {w.ackId};
          waitersExcl := waitersExcl[1..];
        }
      }
      if valid0 {
        EntryLockLemmas.TryNextWaitersKeepsInvariants(q0);
      }
    }

    /** `flockEntryUnlocked`: returns whether the request was granted immediately and the
        waiters that were granted as a consequence. */
    method Request(d: EntryLock) returns (granted: bool, notify: seq<EntryLock>)
      modifies this
      ensures (Snapshot(), granted, notify) == EntryLockSpec.Request(old(Snapshot()), d)
      ensures old(Valid()) ==> Valid()
    {
      ghost var q0, valid0 := Snapshot(), Valid();
      if valid0 {
        EntryLockLemmas.RequestKeepsInvariants(q0, d);
      }
      var tryNext := false;
      granted := false;
      if d.op.Cancel? {
        tryNext := CancelMatching(ByHandle(d.owner));
        granted := true;
      } else if d.op.Unlock? {
        tryNext := Release(d.owner);
        granted := true;
      } else {
        if d.ackId in waiterIds {
          return false, [];
        }
        if IsGranted(Snapshot(), d) {
          return true, [];
        }
        var conflict := CheckConflicts(Snapshot(), d);
        if !conflict || d.mayWait {
          tryNext := Release(d.owner);
        }
        if !conflict {
          if d.op.Shared? {
            shared := InsertShared(shared, d);
          } else {
            excl := Some(d);
          }
          granted := true;
        } else if d.mayWait {
          if d.op.Shared? {
            waitersShared := waitersShared + [d];
          } else {
            waitersExcl := waitersExcl + [d];
          }
          waiterIds := waiterIds + {d.ackId};
        }
      }
      notify := [];
      if tryNext {
        notify := TryNextWaiters();
      }
    }

    /** `flockEntryGenericCancelByClientID`. */
    method CancelByClientID(clientId: nat) returns (notify: seq<EntryLock>)
      modifies this
      ensures (Snapshot(), notify) == EntryLockSpec.CancelByClientID(old(Snapshot()), clientId)
      ensures old(Valid()) ==> Valid()
    {
      ghost var q0, valid0 := Snapshot(), Valid();
      var removed := CancelMatching(ByClient(clientId));
      notify := [];
      if removed {
        notify := TryNextWaiters();
      }
      if valid0 {
        EntryLockLemmas.CancelByClientIDLeavesNothingOfClient(q0, clientId);
      }
    }

    /** `flockEntryGenericCancelAllWaiters`. */
    method CancelAllWaiters()
      modifies this
      ensures Snapshot() == EntryLockSpec.CancelAllWaiters(old(Snapshot()))
      ensures old(Valid()) ==> Valid()
    {
      ghost var q0, valid0 := Snapshot(), Valid();
      waiterIds := {};
      waitersExcl := [];
      waitersShared := [];
      if valid0 {
        EntryLockLemmas.CancelAllWaitersKeepsInvariants(q0);
      }
    }
  }
}
