/** The squared distance metric delta² of Krippendorff's alpha, for the
    nominal and the ordinal scale. */
module Distances {
  import opened Sums

  /** The measurement scale of a variable. Only the first two are supported
      by the alpha computation. */
  datatype Scale = Nominal | Ordinal | Interval

  predicate Supported(scale: Scale)
  {
    scale.Nominal? || scale.Ordinal?
  }

  /** Σ_{g = lo..hi} valSums[g], both ends included. */
  function RangeSum(valSums: seq<int>, lo: nat, hi: nat): int
    requires lo <= hi < |valSums|
  {
    SumInt(valSums[lo..hi + 1])
  }

  /** The ordinal distance before squaring: the marginals from c to k, with
      the two end points counted by half. */
  function OrdinalGap(valSums: seq<int>, c: nat, k: nat): real
    requires c < |valSums| && k < |valSums|
  {
    var s := if c < k then RangeSum(valSums, c, k) else RangeSum(valSums, k, c);
    s as real - (valSums[c] + valSums[k]) as real / 2.0
  }

  /** delta²[c][k] for a supported scale. */
  function Delta(scale: Scale, valSums: seq<int>, c: nat, k: nat): real
    requires Supported(scale) && c < |valSums| && k < |valSums|
  {
    if scale.Nominal? then (if c != k then 1.0 else 0.0)
    else OrdinalGap(valSums, c, k) * OrdinalGap(valSums, c, k)
  }

  /** The table deltaSq: a metric table, zero on the diagonal, symmetric and
      never negative. */
  function DeltaSq(scale: Scale, valSums: seq<int>): (d: seq<seq<real>>)
    requires Supported(scale)
    ensures |d| == |valSums| && Rectangular(d, |valSums|)
    ensures forall c, k :: 0 <= c < |valSums| && 0 <= k < |valSums| ==> d[c][k] == Delta(scale, valSums, c, k)
    ensures forall c :: 0 <= c < |valSums| ==> d[c][c] == 0.0
    ensures forall c, k :: 0 <= c < |valSums| && 0 <= k < |valSums| ==> d[c][k] == d[k][c] && d[c][k] >= 0.0
  {
    var w := |valSums|;
    DeltaFacts(scale, valSums);
    seq(w, c requires 0 <= c < w => seq(w, k requires 0 <= k < w => Delta(scale, valSums, c, k)))
  }

  lemma DeltaFacts(scale: Scale, valSums: seq<int>)
    requires Supported(scale)
    ensures forall c :: 0 <= c < |valSums| ==> Delta(scale, valSums, c, c) == 0.0
    ensures forall c, k :: 0 <= c < |valSums| && 0 <= k < |valSums| ==>
      Delta(scale, valSums, c, k) == Delta(scale, valSums, k, c) && Delta(scale, valSums, c, k) >= 0.0
  {
    forall c | 0 <= c < |valSums| ensures Delta(scale, valSums, c, c) == 0.0 {
      DeltaDiagonal(scale, valSums, c);
    }
  }

  /** A value is at distance zero from itself. */
  lemma DeltaDiagonal(scale: Scale, valSums: seq<int>, c: nat)
    requires Supported(scale) && c < |valSums|
    ensures Delta(scale, valSums, c, c) == 0.0
  {
    GapDiagonal(valSums, c);
  }

  lemma GapDiagonal(valSums: seq<int>, c: nat)
    requires c < |valSums|
    ensures OrdinalGap(valSums, c, c) == 0.0
  {
    assert valSums[c..c + 1] == [valSums[c]];
    SumIntSingle([valSums[c]], 0);
    assert (valSums[c] + valSums[c]) as real / 2.0 == valSums[c] as real;
  }

  /** The distance is symmetric. */
  lemma DeltaSymmetric(scale: Scale, valSums: seq<int>, c: nat, k: nat)
    requires Supported(scale) && c < |valSums| && k < |valSums|
    ensures Delta(scale, valSums, c, k) == Delta(scale, valSums, k, c)
  {
  }

  /** Distinct values are at a positive distance unless neither was used:
      on the nominal scale always 1, on the ordinal scale at least the square
      of the average of the two marginals. */
  lemma DeltaPositive(scale: Scale, valSums: seq<int>, c: nat, k: nat)
    requires Supported(scale) && c < |valSums| && k < |valSums| && c != k
    requires NonNegativeInts(valSums) && valSums[c] + valSums[k] > 0
    ensures Delta(scale, valSums, c, k) > 0.0
  {
    if scale.Ordinal? {
      OrdinalGapBound(valSums, c, k);
      var g := OrdinalGap(valSums, c, k);
      assert g > 0.0;
      assert g * g > 0.0;
    }
  }

  /** The distance is never negative. */
  lemma DeltaNonNegative(scale: Scale, valSums: seq<int>, c: nat, k: nat)
    requires Supported(scale) && c < |valSums| && k < |valSums|
    ensures Delta(scale, valSums, c, k) >= 0.0
  {
  }

  /** For distinct values the gap is at least the average of their marginals. */
  lemma OrdinalGapBound(valSums: seq<int>, c: nat, k: nat)
    requires c < |valSums| && k < |valSums| && c != k && NonNegativeInts(valSums)
    ensures OrdinalGap(valSums, c, k) >= (valSums[c] + valSums[k]) as real / 2.0
  {
    if c < k {
      RangeEnds(valSums, c, k);
    } else {
      RangeEnds(valSums, k, c);
    }
  }

  lemma RangeEnds(valSums: seq<int>, lo: nat, hi: nat)
    requires lo < hi < |valSums| && NonNegativeInts(valSums)
    ensures RangeSum(valSums, lo, hi) >= valSums[lo] + valSums[hi]
  {
    var r := valSums[lo..hi + 1];
    var inner := valSums[lo + 1..hi];
    SumIntFront(r);
    assert r[1..] == inner + [valSums[hi]];
    SumIntConcat(inner, [valSums[hi]]);
    SumIntSingle([valSums[hi]], 0);
    assert NonNegativeInts(inner) by {
      forall i | 0 <= i < |inner| ensures inner[i] >= 0 {
        assert inner[i] == valSums[lo + 1 + i];
      }
    }
    SumIntNonNegative(inner);
  }

  /** The gap never goes below zero. */
  lemma OrdinalGapNonNegative(valSums: seq<int>, c: nat, k: nat)
    requires c < |valSums| && k < |valSums| && NonNegativeInts(valSums)
    ensures OrdinalGap(valSums, c, k) >= 0.0
  {
    if c == k {
      GapDiagonal(valSums, c);
    } else {
      OrdinalGapBound(valSums, c, k);
    }
  }

  /** Moving k one step further right of c adds the average of the two
      marginals it moves between. */
  lemma GapStepRight(valSums: seq<int>, c: nat, k: nat)
    requires c <= k && k + 1 < |valSums|
    ensures OrdinalGap(valSums, c, k + 1) == OrdinalGap(valSums, c, k) + (valSums[k] + valSums[k + 1]) as real / 2.0
  {
    var r := valSums[c..k + 2];
    assert r[..|r| - 1] == valSums[c..k + 1];
    assert RangeSum(valSums, c, k + 1) == RangeSum(valSums, c, k) + valSums[k + 1];
  }

  /** Moving k one step further left of c, likewise. */
  lemma GapStepLeft(valSums: seq<int>, c: nat, k: nat)
    requires 0 < k <= c < |valSums|
    ensures OrdinalGap(valSums, c, k - 1) == OrdinalGap(valSums, c, k) + (valSums[k - 1] + valSums[k]) as real / 2.0
  {
    var r := valSums[k - 1..c + 1];
    SumIntFront(r);
    assert r[1..] == valSums[k..c + 1];
    assert RangeSum(valSums, k - 1, c) == valSums[k - 1] + RangeSum(valSums, k, c);
  }

  lemma SquareMonotone(a: real, b: real)
    requires 0.0 <= a <= b
    ensures a * a <= b * b
  {
    assert a * a <= a * b;
  }

  /** On the ordinal scale, with non-negative marginals, the distance from c
      never decreases as k moves away from c to the right. */
  lemma {:induction false} OrdinalMonotoneRight(valSums: seq<int>, c: nat, k: nat, k': nat)
    requires c <= k <= k' < |valSums| && NonNegativeInts(valSums)
    ensures Delta(Ordinal, valSums, c, k) <= Delta(Ordinal, valSums, c, k')
    decreases k' - k
  {
    if k < k' {
      OrdinalMonotoneRight(valSums, c, k + 1, k');
      GapStepRight(valSums, c, k);
      OrdinalGapNonNegative(valSums, c, k);
      SquareMonotone(OrdinalGap(valSums, c, k), OrdinalGap(valSums, c, k + 1));
    }
  }

  /** The same to the left of c. */
  lemma {:induction false} OrdinalMonotoneLeft(valSums: seq<int>, c: nat, k: nat, k': nat)
    requires k' <= k <= c < |valSums| && NonNegativeInts(valSums)
    ensures Delta(Ordinal, valSums, c, k) <= Delta(Ordinal, valSums, c, k')
    decreases k - k'
  {
    if k' < k {
      OrdinalMonotoneLeft(valSums, c, k - 1, k');
      GapStepLeft(valSums, c, k);
      OrdinalGapNonNegative(valSums, c, k);
      SquareMonotone(OrdinalGap(valSums, c, k), OrdinalGap(valSums, c, k - 1));
    }
  }
}
