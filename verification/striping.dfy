/** The arithmetic of `initFileInfoVec`: a file of `fileSize` bytes striped over `numTargets`
    targets in chunks of `chunkSize` bytes. Complete stripe sets give every target the same
    length; the last, incomplete stripe set is handed out chunk by chunk from the first target.
    When the number of targets is a power of two the source replaces modulo and division by a
    bit mask and a right shift; both are modelled bit by bit on non-negative integers. */
module Striping {

  function Pow2(k: nat): (r: nat)
    ensures r >= 1
  {
    if k == 0 then 1 else 2 * Pow2(k - 1)
  }

  /** `MathTk::isPowerOfTwo` on positive numbers. */
  predicate IsPowerOfTwo(n: nat)
    decreases n
  {
    n == 1 || (n > 1 && n % 2 == 0 && IsPowerOfTwo(n / 2))
  }

  /** `MathTk::log2Int32`: the integer part of the base-2 logarithm. */
  function Log2(n: nat): nat
    decreases n
  {
    if n <= 1 then 0 else 1 + Log2(n / 2)
  }

  /** Bitwise `&` of two non-negative integers, one bit at a time from the lowest. */
  function BitAnd(x: nat, y: nat): (r: nat)
    ensures r <= x && r <= y
    decreases x
  {
    if x == 0 || y == 0 then 0
    else (if x % 2 == 1 && y % 2 == 1 then 1 else 0) + 2 * BitAnd(x / 2, y / 2)
  }

  /** `x >> k` on a non-negative integer: `k` times dropping the lowest bit. */
  function ShiftRight(x: nat, k: nat): nat
  {
    if k == 0 then x else ShiftRight(x / 2, k - 1)
  }

  lemma {:induction false} Pow2Add(a: nat, b: nat)
    ensures Pow2(a) * Pow2(b) == Pow2(a + b)
    decreases a
  {
    if a > 0 {
      Pow2Add(a - 1, b);
      calc {
        Pow2(a) * Pow2(b);
        2 * Pow2(a - 1) * Pow2(b);
        { assert 2 * Pow2(a - 1) * Pow2(b) == 2 * (Pow2(a - 1) * Pow2(b)); }
        2 * Pow2(a - 1 + b);
      }
    }
  }

  /** A power of two is `Pow2` of its logarithm. */
  lemma {:induction false} PowerOfTwoLog(n: nat)
    requires IsPowerOfTwo(n)
    ensures Pow2(Log2(n)) == n
    decreases n
  {
    if n != 1 {
      PowerOfTwoLog(n / 2);
    }
  }

  lemma MulAtLeast(d: nat, k: int)
    ensures k >= 1 ==> d * k >= d
  {
    if k >= 1 {
      assert d * k == d * (k - 1) + d;
    }
  }

  /** Division and remainder are determined by any decomposition with a small remainder. */
  lemma DivModUnique(x: nat, d: nat, q: nat, r: nat)
    requires d > 0 && r < d && x == d * q + r
    ensures x / d == q && x % d == r
  {
    var q', r' := x / d, x % d;
    assert d * (q' - q) == r - r' by {
      assert d * q' + r' == d * q + r;
      assert d * (q' - q) == d * q' - d * q;
    }
    MulAtLeast(d, q' - q);
    MulAtLeast(d, q - q');
    assert d * (q - q') == r' - r;
  }

  /** Dividing by `2 * m` is halving and then dividing by `m`; the remainder is rebuilt from
      the dropped low bit. */
  lemma DivModDouble(x: nat, m: nat)
    requires m > 0
    ensures x / (2 * m) == (x / 2) / m
    ensures x % (2 * m) == x % 2 + 2 * ((x / 2) % m)
  {
    var q, c, b := (x / 2) / m, (x / 2) % m, x % 2;
    assert x / 2 == m * q + c;
    assert x == 2 * (x / 2) + b;
    assert x == (2 * m) * q + (2 * c + b);
    DivModUnique(x, 2 * m, q, 2 * c + b);
  }

  /** The mask `2^k - 1` for `k > 0` has its lowest bit set, and halving it gives the mask
      one bit shorter. */
  lemma MaskHalves(k: nat)
    requires k > 0
    ensures (Pow2(k) - 1) % 2 == 1 && (Pow2(k) - 1) / 2 == Pow2(k - 1) - 1
  {
    DivModUnique(Pow2(k) - 1, 2, Pow2(k - 1) - 1, 1);
  }

  /** One step of `BitAnd` against a mask: the low bit of `x`, then the rest against the
      shorter mask. */
  lemma MaskStep(x: nat, k: nat)
    requires k > 0 && x > 0
    ensures BitAnd(x, Pow2(k) - 1) == x % 2 + 2 * BitAnd(x / 2, Pow2(k - 1) - 1)
  {
    MaskHalves(k);
  }

  /** The induction step of `MaskIsModulo`: if the mask one bit shorter keeps the remainder
      of `x / 2`, the full mask keeps the remainder of `x`. */
  lemma MaskStepModulo(x: nat, k: nat)
    requires k > 0 && x > 0
    requires BitAnd(x / 2, Pow2(k - 1) - 1) == (x / 2) % Pow2(k - 1)
    ensures BitAnd(x, Pow2(k) - 1) == x % Pow2(k)
  {
    MaskStep(x, k);
    DivModDouble(x, Pow2(k - 1));
  }

  /** The mask `2^k - 1` keeps exactly the remainder modulo `2^k`. */
  lemma {:induction false} MaskIsModulo(x: nat, k: nat)
    ensures BitAnd(x, Pow2(k) - 1) == x % Pow2(k)
    decreases k
  {
    if k == 0 {
      assert Pow2(k) == 1;
    } else if x == 0 {
      DivModUnique(x, Pow2(k), 0, 0);
    } else {
      MaskIsModulo(x / 2, k - 1);
      MaskStepModulo(x, k);
    }
  }

  /** Shifting right by `k` is dividing by `2^k`. */
  lemma {:induction false} ShiftIsDivision(x: nat, k: nat)
    ensures ShiftRight(x, k) == x / Pow2(k)
    decreases k
  {
    if k > 0 {
      ShiftIsDivision(x / 2, k - 1);
      DivModDouble(x, Pow2(k - 1));
    }
  }

  /** The three quantities the source derives before its loop. */
  datatype StripeLayout = StripeLayout(lastStripeSetSize: nat, stripeSetStart: nat, fullLengthPerTarget: nat)

  /** The division path, for a stripe set of `stripeSetSize` bytes: the remainder after the
      last complete stripe set, where that set ends, and each target's share of the complete
      sets. */
  function DivisionLayout(fileSize: nat, stripeSetSize: nat, numTargets: nat): (l: StripeLayout)
    requires stripeSetSize > 0 && numTargets > 0
    ensures l.lastStripeSetSize < stripeSetSize
    ensures l.stripeSetStart + l.lastStripeSetSize == fileSize
  {
    var last := fileSize % stripeSetSize;
    StripeLayout(last, fileSize - last, (fileSize - last) / numTargets)
  }

  /** The mask and shift path, taken when `numTargets` is a power of two. */
  function MaskLayout(fileSize: nat, stripeSetSize: nat, numTargets: nat): StripeLayout
    requires stripeSetSize > 0 && numTargets > 0
  {
    var last := BitAnd(fileSize, stripeSetSize - 1);
    StripeLayout(last, fileSize - last, ShiftRight(fileSize - last, Log2(numTargets)))
  }

  lemma {:induction false} Pow2IsPowerOfTwo(k: nat)
    ensures IsPowerOfTwo(Pow2(k))
    decreases k
  {
    if k > 0 {
      Pow2IsPowerOfTwo(k - 1);
      assert Pow2(k) / 2 == Pow2(k - 1);
    }
  }

  /** The product of two powers of two is one. */
  lemma ProductIsPowerOfTwo(a: nat, b: nat)
    requires IsPowerOfTwo(a) && IsPowerOfTwo(b)
    ensures IsPowerOfTwo(a * b)
  {
    PowerOfTwoLog(a);
    PowerOfTwoLog(b);
    Pow2Add(Log2(a), Log2(b));
    Pow2IsPowerOfTwo(Log2(a) + Log2(b));
  }

  /** Masking with one less than a power of two is the remainder modulo it. */
  lemma MaskByPowerOfTwo(x: nat, n: nat)
    requires IsPowerOfTwo(n)
    ensures BitAnd(x, n - 1) == x % n
  {
    PowerOfTwoLog(n);
    MaskIsModulo(x, Log2(n));
  }

  /** Shifting right by the logarithm of a power of two is dividing by it. */
  lemma ShiftByPowerOfTwo(x: nat, n: nat)
    requires IsPowerOfTwo(n)
    ensures ShiftRight(x, Log2(n)) == x / n
  {
    PowerOfTwoLog(n);
    ShiftIsDivision(x, Log2(n));
  }

  /** With a power-of-two stripe set size and target count, the mask and shift path yields
      the same layout as the division path. */
  lemma FastPathMatchesDivision(fileSize: nat, stripeSetSize: nat, numTargets: nat)
    requires IsPowerOfTwo(stripeSetSize) && IsPowerOfTwo(numTargets)
    ensures MaskLayout(fileSize, stripeSetSize, numTargets) == DivisionLayout(fileSize, stripeSetSize, numTargets)
  {
    var l := DivisionLayout(fileSize, stripeSetSize, numTargets);
    calc {
      MaskLayout(fileSize, stripeSetSize, numTargets);
      { MaskByPowerOfTwo(fileSize, stripeSetSize); }
      StripeLayout(l.lastStripeSetSize, l.stripeSetStart, ShiftRight(l.stripeSetStart, Log2(numTargets)));
      { ShiftByPowerOfTwo(l.stripeSetStart, numTargets); }
      l;
    }
  }

  /** The first half of `initFileInfoVec`: the layout by mask and shift when the number of
      targets is a power of two, by modulo and division otherwise. Either way it is the
      division layout. */
  method ComputeLayout(fileSize: nat, chunkSize: nat, numTargets: nat)
    returns (lastStripeSetSize: nat, stripeSetStart: nat, fullLengthPerTarget: nat)
    requires IsPowerOfTwo(chunkSize) && numTargets > 0
    ensures StripeLayout(lastStripeSetSize, stripeSetStart, fullLengthPerTarget)
      == DivisionLayout(fileSize, chunkSize * numTargets, numTargets)
  {
    var stripeSetSize := chunkSize * numTargets;
    ghost var layout := DivisionLayout(fileSize, stripeSetSize, numTargets);
    if IsPowerOfTwo(numTargets) {
      ProductIsPowerOfTwo(chunkSize, numTargets);
      lastStripeSetSize := BitAnd(fileSize, stripeSetSize - 1);
      stripeSetStart := fileSize - lastStripeSetSize;
      fullLengthPerTarget := ShiftRight(stripeSetStart, Log2(numTargets));
      FastPathMatchesDivision(fileSize, stripeSetSize, numTargets);
    } else {
      lastStripeSetSize := fileSize % stripeSetSize;
      assert lastStripeSetSize == layout.lastStripeSetSize;
      stripeSetStart := fileSize - lastStripeSetSize;
      fullLengthPerTarget := stripeSetStart / numTargets;
    }
  }

  /** The complete stripe sets split evenly: every target gets a whole number of chunks and
      the targets' shares add up to the start of the last stripe set. */
  lemma DivisionLayoutEven(fileSize: nat, chunkSize: nat, numTargets: nat)
    requires chunkSize > 0 && numTargets > 0
    ensures var l := DivisionLayout(fileSize, chunkSize * numTargets, numTargets);
      && l.fullLengthPerTarget * numTargets == l.stripeSetStart
      && l.fullLengthPerTarget % chunkSize == 0
  {
    var setSize := chunkSize * numTargets;
    var q := fileSize / setSize;
    var start := fileSize - fileSize % setSize;
    assert start == numTargets * (chunkSize * q) + 0 by {
      assert fileSize == setSize * q + fileSize % setSize;
    }
    DivModUnique(start, numTargets, chunkSize * q, 0);
    DivModUnique(chunkSize * q, chunkSize, q, 0);
  }

  /** What target `target` gets of the last stripe set, given what was left of it before that
      target: at most one chunk, and nothing once it is used up. */
  function LastSetShare(remaining: int, chunkSize: nat): (r: nat)
    ensures r <= chunkSize
  {
    if remaining > 0 then (if remaining < chunkSize then remaining else chunkSize) else 0
  }

  /** The length of the chunk file on target `target`. */
  function TargetLength(l: StripeLayout, chunkSize: nat, target: nat): nat
  {
    l.fullLengthPerTarget + LastSetShare(l.lastStripeSetSize - target * chunkSize, chunkSize)
  }

  /** The lengths of the first `n` chunk files, added up. */
  function SumLengths(l: StripeLayout, chunkSize: nat, n: nat): nat
  {
    if n == 0 then 0 else SumLengths(l, chunkSize, n - 1) + TargetLength(l, chunkSize, n - 1)
  }

  /** The first `n` targets together take `n` chunks of the last stripe set, or all of it. */
  lemma {:induction false} SharesAddUp(l: StripeLayout, chunkSize: nat, n: nat)
    ensures SumLengths(l, chunkSize, n) == n * l.fullLengthPerTarget
      + (if l.lastStripeSetSize < n * chunkSize then l.lastStripeSetSize else n * chunkSize)
  {
    if n > 0 {
      SharesAddUp(l, chunkSize, n - 1);
      assert n * chunkSize == (n - 1) * chunkSize + chunkSize;
      assert n * l.fullLengthPerTarget == (n - 1) * l.fullLengthPerTarget + l.fullLengthPerTarget;
    }
  }

  /** The chunk files of all targets add up to the file size. */
  lemma LengthsSumToFileSize(fileSize: nat, chunkSize: nat, numTargets: nat)
    requires chunkSize > 0 && numTargets > 0
    ensures SumLengths(DivisionLayout(fileSize, chunkSize * numTargets, numTargets), chunkSize, numTargets) == fileSize
  {
    var l := DivisionLayout(fileSize, chunkSize * numTargets, numTargets);
    SharesAddUp(l, chunkSize, numTargets);
    DivisionLayoutEven(fileSize, chunkSize, numTargets);
    assert numTargets * chunkSize == chunkSize * numTargets;
  }

  /** Targets before the one where the last stripe set runs out hold one chunk of it more than
      the targets after it, so lengths never grow along the target list. */
  lemma LengthsNonIncreasing(l: StripeLayout, chunkSize: nat, i: nat, j: nat)
    requires i <= j
    ensures TargetLength(l, chunkSize, j) <= TargetLength(l, chunkSize, i)
      <= TargetLength(l, chunkSize, j) + chunkSize
  {
    assert i * chunkSize <= j * chunkSize;
  }
}
