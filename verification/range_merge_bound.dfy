/** The early exit of the merge loop in `flockRangeExclusive`. The exclusive ranges sit in a
    set ordered by start, so the loop stops at the first range that starts beyond the byte
    after the request's end. Range bounds are unsigned 64-bit there, and the byte after the
    end is computed in that width. */
module RangeMergeBound {
  import opened LockCommon
  import opened RangeDetails
  import opened RangeLockSpec

  /** One more than the largest unsigned 64-bit value. */
  const Uint64Limit: nat := 0x1_0000_0000_0000_0000

  /** The ranges are in the order of the source's ordered set. */
  predicate SortedByStart(rs: seq<RangeLock>)
  {
    forall i, j :: 0 <= i < j < |rs| ==> rs[i].start <= rs[j].start
  }

  /** The merge loop as written: the bound `end + 1` wraps to 0 when the request ends at the
      largest 64-bit offset. */
  function MergeScanAsWritten(rs: seq<RangeLock>, d: RangeLock): (seq<RangeLock>, RangeLock)
    decreases |rs|
  {
    if rs == [] || rs[0].start > (d.end + 1) % Uint64Limit then (rs, d)
    else if rs[0].owner == d.owner && Touches(d, rs[0]) then MergeScanAsWritten(rs[1..], Merge(d, rs[0]))
    else
      var (kept, m) := MergeScanAsWritten(rs[1..], d);
      ([rs[0]] + kept, m)
  }

  /** The merge loop with the bound computed without wrap-around. */
  function MergeScanBounded(rs: seq<RangeLock>, d: RangeLock): (seq<RangeLock>, RangeLock)
    decreases |rs|
  {
    if rs == [] || rs[0].start > d.end + 1 then (rs, d)
    else if rs[0].owner == d.owner && Touches(d, rs[0]) then MergeScanBounded(rs[1..], Merge(d, rs[0]))
    else
      var (kept, m) := MergeScanBounded(rs[1..], d);
      ([rs[0]] + kept, m)
  }

  /** Ranges that all start beyond the byte after the request's end are left alone by the
      full merge scan. */
  lemma {:induction false} ScanPastEndKeepsAll(rs: seq<RangeLock>, d: RangeLock)
    requires forall r :: r in rs ==> r.start > d.end + 1
    ensures MergeScan(rs, d) == (rs, d)
    decreases |rs|
  {
    if rs != [] {
      assert rs[0] in rs;
      assert forall r :: r in rs[1..] ==> r in rs;
      ScanPastEndKeepsAll(rs[1..], d);
      assert rs == [rs[0]] + rs[1..];
    }
  }

  /** On ranges ordered by start, stopping early at the unwrapped bound loses nothing: the
      bounded loop computes exactly the full merge scan the rest of the model uses. */
  lemma {:induction false} BoundedScanMatchesFullScan(rs: seq<RangeLock>, d: RangeLock)
    requires SortedByStart(rs)
    ensures MergeScanBounded(rs, d) == MergeScan(rs, d)
    decreases |rs|
  {
    if rs != [] {
      assert SortedByStart(rs[1..]);
      if rs[0].start > d.end + 1 {
        forall r | r in rs ensures r.start > d.end + 1 {
          var k :| 0 <= k < |rs| && rs[k] == r;
          assert rs[0].start <= rs[k].start;
        }
        ScanPastEndKeepsAll(rs, d);
      } else if rs[0].owner == d.owner && Touches(d, rs[0]) {
        BoundedScanMatchesFullScan(rs[1..], Merge(d, rs[0]));
      } else {
        BoundedScanMatchesFullScan(rs[1..], d);
      }
    }
  }

  /** The wrapped bound skips an adjacent range of the same handle: a handle holding bytes
      5..9 that locks 10 up to the largest 64-bit offset ends up with two side-by-side
      ranges, where the unwrapped loop merges them into one. */
  lemma WrappedBoundSkipsAdjacentRange()
    ensures var h := Owner(1, 100);
      var held := RangeLock(h, "a", Exclusive, false, 5, 9);
      var d := RangeLock(h, "b", Exclusive, false, 10, Uint64Limit - 1);
      var (kept, m) := MergeScanAsWritten([held], d);
      && SortedByStart([held])
      && kept + [m] == [held, d] && !Merged(kept + [m])
      && MergeScanBounded([held], d) == MergeScan([held], d)
      && MergeInsert([held], d) == [RangeLock(h, "b", Exclusive, false, 5, Uint64Limit - 1)]
  {
    var h := Owner(1, 100);
    var held := RangeLock(h, "a", Exclusive, false, 5, 9);
    var d := RangeLock(h, "b", Exclusive, false, 10, Uint64Limit - 1);
    assert (d.end + 1) % Uint64Limit == 0;
    var both := [held, d];
    assert both[0] == held && both[1] == d && Touches(both[0], both[1]);
    BoundedScanMatchesFullScan([held], d);
    assert [held][1..] == [];
  }
}
