/** Byte ranges of POSIX record locks (`RangeLockDetails`): inclusive ranges start..end, their
    overlap classification, merging of touching ranges and the pieces left by an unlock. */
module RangeDetails {
  import opened LockCommon

  /** A range lock request or a granted range: the owning handle (client node and process),
      the ack ID, the operation, whether the requester may wait, and the bytes start..end. */
  datatype RangeLock = RangeLock(owner: Owner, ackId: AckId, op: LockOp, mayWait: bool, start: nat, end: nat)

  predicate WellFormed(r: RangeLock)
  {
    r.start <= r.end
  }

  /** Byte `x` lies in the range. */
  predicate Covers(r: RangeLock, x: int)
  {
    r.start <= x <= r.end
  }

  /** `overlaps`: the two ranges share a byte. */
  predicate Overlaps(a: RangeLock, b: RangeLock)
  {
    a.start <= b.end && b.start <= a.end
  }

  /** `isMergeable`: the ranges overlap or are side by side. */
  predicate Touches(a: RangeLock, b: RangeLock)
  {
    a.start <= b.end + 1 && b.start <= a.end + 1
  }

  /** `merge`: `d` grown to span `r` as well; everything but the bounds stays `d`'s. */
  function Merge(d: RangeLock, r: RangeLock): (m: RangeLock)
    ensures m.owner == d.owner && m.ackId == d.ackId && m.op == d.op && m.mayWait == d.mayWait
    ensures m.start <= d.start && m.start <= r.start && d.end <= m.end && r.end <= m.end
    ensures m.start == d.start || m.start == r.start
    ensures m.end == d.end || m.end == r.end
  {
    d.(start := if r.start < d.start then r.start else d.start,
       end := if r.end > d.end then r.end else d.end)
  }

  /** `RangeOverlapType`, the result of `overlapsEx`: how the request `d` lies relative to
      the granted range `r`. */
  datatype Overlap = Equals | IsContained | Contains | StartOverlap | EndOverlap | NoOverlap

  function OverlapKind(d: RangeLock, r: RangeLock): (k: Overlap)
    ensures k != NoOverlap <==> Overlaps(d, r)
    ensures (k == Equals || k == IsContained) <==> Overlaps(d, r) && r.start <= d.start && d.end <= r.end
  {
    if !Overlaps(d, r) then NoOverlap
    else if d.start == r.start && d.end == r.end then Equals
    else if r.start <= d.start && d.end <= r.end then IsContained
    else if d.start <= r.start && r.end <= d.end then Contains
    else if d.start < r.start then StartOverlap
    else EndOverlap
  }

  /** `trim` and `split`: the parts of `r` that an unlock of `u` leaves locked, at most one
      on each side of `u`. */
  function Remainder(r: RangeLock, u: RangeLock): seq<RangeLock>
  {
    (if r.start < u.start then [r.(end := u.start - 1)] else []) +
    (if u.end < r.end then [r.(start := u.end + 1)] else [])
  }

  // ----- lemmas -----

  /** Two well-formed ranges overlap exactly when some byte lies in both. */
  lemma OverlapsIffCommonByte(a: RangeLock, b: RangeLock)
    requires WellFormed(a) && WellFormed(b)
    ensures Overlaps(a, b) <==> exists x :: Covers(a, x) && Covers(b, x)
  {
    if Overlaps(a, b) {
      var x := if a.start < b.start then b.start else a.start;
      assert Covers(a, x) && Covers(b, x);
    }
  }

  /** Merging touching ranges covers exactly their union: no byte is gained or lost. */
  lemma MergeCoversUnion(a: RangeLock, b: RangeLock, x: int)
    requires WellFormed(a) && WellFormed(b) && Touches(a, b)
    ensures WellFormed(Merge(a, b))
    ensures Covers(Merge(a, b), x) <==> Covers(a, x) || Covers(b, x)
  {
  }

  /** A range that overlaps the merge of two touching ranges overlaps one of them. */
  lemma MergeOverlap(s: RangeLock, a: RangeLock, b: RangeLock)
    requires WellFormed(s) && WellFormed(a) && WellFormed(b) && Touches(a, b)
    ensures Overlaps(s, Merge(a, b)) ==> Overlaps(s, a) || Overlaps(s, b)
  {
  }

  /** A range touching neither of two touching ranges does not touch their merge either. */
  lemma MergeTouch(x: RangeLock, a: RangeLock, b: RangeLock)
    requires WellFormed(x) && WellFormed(a) && WellFormed(b) && Touches(a, b)
    requires !Touches(x, a) && !Touches(x, b)
    ensures !Touches(x, Merge(a, b))
  {
  }

  /** The pieces an unlock leaves are well formed, lie inside `r`, keep `r`'s owner and ack
      ID, are not side by side, and cover exactly the bytes of `r` outside `u`. */
  lemma RemainderFacts(r: RangeLock, u: RangeLock)
    requires WellFormed(r) && WellFormed(u) && Overlaps(u, r)
    ensures forall p :: p in Remainder(r, u) ==>
      WellFormed(p) && p.owner == r.owner && p.ackId == r.ackId && r.start <= p.start && p.end <= r.end
    ensures forall i, j :: 0 <= i < j < |Remainder(r, u)| ==> !Touches(Remainder(r, u)[i], Remainder(r, u)[j])
    ensures forall x :: (exists p :: p in Remainder(r, u) && Covers(p, x)) <==> Covers(r, x) && !Covers(u, x)
    ensures Remainder(r, u) == [] <==> u.start <= r.start && r.end <= u.end
  {
    var rem := Remainder(r, u);
    forall x ensures (exists p :: p in rem && Covers(p, x)) <==> Covers(r, x) && !Covers(u, x) {
      if Covers(r, x) && !Covers(u, x) {
        if x < u.start {
          assert Covers(rem[0], x);
        } else {
          assert Covers(rem[|rem| - 1], x);
        }
      }
    }
  }
}
