/** Krippendorff's alpha for nominal and ordinal data: the tables built by
    the constructor, the point estimate, and the resample depth M. */
module Krippendorff {
  import opened Common
  import opened Sums
  import opened AlphaTables
  import opened Distances
  import opened DataMatrices

  /** `UnsupportedDataException`. */
  datatype AlphaError = UnsupportedData

  /** What the constructor computes from the data before bootstrapping. */
  datatype Tabulation = Tabulation(
    w: nat,
    coincidences: seq<seq<real>>,
    valSums: seq<int>,
    totalSums: int,
    expecteds: seq<seq<real>>,
    deltaSq: seq<seq<real>>)

  /** The constructor's tables for a matrix whose cells are -1 or indices
      among `w` values. They are consistent: non-negative symmetric
      coincidences whose rows add up to the marginals, non-negative marginals
      adding up to n (never 1), a non-negative metric that vanishes on the
      diagonal. */
  function Tabulate(matrix: seq<seq<int>>, w: nat, scale: Scale): (t: Tabulation)
    requires Supported(scale)
    ensures Shaped(t) && Consistent(t)
    ensures t.w == w
  {
    var vbu := ValuesByUnits(matrix, w);
    var unitSums := UnitSums(vbu);
    var valSums := ValSums(vbu, unitSums, w);
    var n := TotalSums(unitSums);
    var t := Tabulation(w, Coincidences(vbu, unitSums, w), valSums, n,
      Expecteds(valSums, n), DeltaSq(scale, valSums));
    TablesConsistent(vbu, unitSums, scale, t);
    t
  }

  /** The tables built from a values-by-units table of non-negative counts
      and its own unit sums are consistent. */
  lemma TablesConsistent(vbu: seq<seq<int>>, unitSums: seq<int>, scale: Scale, t: Tabulation)
    requires Supported(scale) && Rectangular(vbu, t.w) && NonNegativeCounts(vbu, t.w)
    requires unitSums == UnitSums(vbu)
    requires t.valSums == ValSums(vbu, unitSums, t.w) && t.totalSums == TotalSums(unitSums)
    requires t.coincidences == Coincidences(vbu, unitSums, t.w)
    requires t.expecteds == Expecteds(t.valSums, t.totalSums)
    requires t.deltaSq == DeltaSq(scale, t.valSums)
    ensures Shaped(t) && Consistent(t)
  {
    assert Tabulated(vbu, unitSums, t.w);
    assert Marginals(t);
    assert NonNegativeTable(t.coincidences, t.w);
    assert SymmetricTable(t.coincidences, t.w);
    MetricTable(scale, t.valSums);
  }

  lemma MetricTable(scale: Scale, valSums: seq<int>)
    requires Supported(scale)
    ensures NonNegativeTable(DeltaSq(scale, valSums), |valSums|)
    ensures ZeroDiagonal(DeltaSq(scale, valSums), |valSums|)
  {
  }

  /** Every table is w × w and the marginals have w entries. */
  predicate Shaped(t: Tabulation)
  {
    |t.coincidences| == t.w && Rectangular(t.coincidences, t.w) &&
    |t.expecteds| == t.w && Rectangular(t.expecteds, t.w) &&
    |t.deltaSq| == t.w && Rectangular(t.deltaSq, t.w) &&
    |t.valSums| == t.w
  }

  /** Cell-by-cell products of two w × w tables. */
  function CellProducts(a: seq<seq<real>>, d: seq<seq<real>>, w: nat): (p: seq<seq<real>>)
    requires |a| == w && Rectangular(a, w) && |d| == w && Rectangular(d, w)
    ensures |p| == w && Rectangular(p, w)
    ensures forall c, k :: 0 <= c < w && 0 <= k < w ==> p[c][k] == a[c][k] * d[c][k]
  {
    seq(w, c requires 0 <= c < w => seq(w, k requires 0 <= k < w => a[c][k] * d[c][k]))
  }

  /** Σ_c Σ_k a[c][k] · d[c][k]: non-negative when both tables are. */
  function Weighted(a: seq<seq<real>>, d: seq<seq<real>>, w: nat): (r: real)
    requires |a| == w && Rectangular(a, w) && |d| == w && Rectangular(d, w)
    ensures NonNegativeTable(a, w) && NonNegativeTable(d, w) ==> r >= 0.0
  {
    var p := CellProducts(a, d, w);
    ProductsFacts(a, d, w, p);
    Sum(RowSums(p))
  }

  /** The observed disagreement Σ o·δ²: for consistent tables it is
      non-negative and, when n ≥ 2, at most n − 1 times the expected one. */
  function Observed(t: Tabulation): (o: real)
    requires Shaped(t)
    ensures Consistent(t) ==> o >= 0.0
    ensures Consistent(t) && t.totalSums >= 2 ==> o <= (t.totalSums - 1) as real * Expected(t)
  {
    ObservedFacts(t);
    Weighted(t.coincidences, t.deltaSq, t.w)
  }

  /** The expected disagreement Σ e·δ²: non-negative for consistent tables. */
  function Expected(t: Tabulation): (e: real)
    requires Shaped(t)
    ensures Consistent(t) ==> e >= 0.0
  {
    ExpectedsNonNegative(t);
    Weighted(t.expecteds, t.deltaSq, t.w)
  }

  /** The point estimate 1 − (Σ o·δ² / n) / (Σ e·δ² / n); `None` is the NaN
      the Java division gives when n or the expected disagreement is 0. For
      consistent tables the defined value is 1 − D_o / D_e and lies between
      2 − n and 1. */
  function AlphaValue(t: Tabulation): (v: Option<real>)
    requires Shaped(t)
    ensures v.Some? <==> t.totalSums != 0 && Expected(t) != 0.0
    ensures Consistent(t) && v.Some? ==> v.value == 1.0 - Observed(t) / Expected(t)
    ensures Consistent(t) && v.Some? ==> (2 - t.totalSums) as real <= v.value <= 1.0
  {
    var n := t.totalSums as real;
    if n == 0.0 || Expected(t) == 0.0 then None
    else
      AlphaRatio(t);
      Some(1.0 - (Observed(t) / n) / (Expected(t) / n))
  }

  /** The constructor: any scale other than nominal or ordinal is rejected. */
  function Alpha(dm: DataMatrix, scale: Scale): (r: Result<Option<real>, AlphaError>)
    requires WellFormed(dm)
    ensures r.Failure? <==> !Supported(scale)
    ensures r.Success? ==> r.value == AlphaValue(Tabulate(dm.matrix, |dm.values|, scale))
  {
    if !Supported(scale) then Failure(UnsupportedData)
    else Success(AlphaValue(Tabulate(dm.matrix, |dm.values|, scale)))
  }

  // ---------------------------------------------------------------------
  // Weighted sums

  predicate NonNegativeTable(a: seq<seq<real>>, w: nat)
    requires |a| == w && Rectangular(a, w)
  {
    forall c, k :: 0 <= c < w && 0 <= k < w ==> a[c][k] >= 0.0
  }

  lemma RowSumsNonNegative(p: seq<seq<real>>, w: nat)
    requires |p| == w && Rectangular(p, w) && NonNegativeTable(p, w)
    ensures NonNegative(RowSums(p))
  {
    forall c | 0 <= c < w ensures RowSums(p)[c] >= 0.0 {
      assert NonNegative(p[c]);
      SumNonNegative(p[c]);
    }
  }

  /** The cell products of two non-negative tables add up to a non-negative
      total. */
  lemma ProductsFacts(a: seq<seq<real>>, d: seq<seq<real>>, w: nat, p: seq<seq<real>>)
    requires |a| == w && Rectangular(a, w) && |d| == w && Rectangular(d, w)
    requires p == CellProducts(a, d, w)
    ensures NonNegativeTable(a, w) && NonNegativeTable(d, w) ==> Sum(RowSums(p)) >= 0.0
  {
    if NonNegativeTable(a, w) && NonNegativeTable(d, w) {
      forall c, k | 0 <= c < w && 0 <= k < w ensures p[c][k] >= 0.0 {
        MultiplyNonNegativeReal(a[c][k], d[c][k]);
      }
      RowSumsNonNegative(p, w);
      SumNonNegative(RowSums(p));
    }
  }

  /** A weighted sum whose every term vanishes is zero. */
  lemma WeightedZero(a: seq<seq<real>>, d: seq<seq<real>>, w: nat)
    requires |a| == w && Rectangular(a, w) && |d| == w && Rectangular(d, w)
    requires forall c, k :: 0 <= c < w && 0 <= k < w ==> a[c][k] * d[c][k] == 0.0
    ensures Weighted(a, d, w) == 0.0
  {
    var p := CellProducts(a, d, w);
    forall c | 0 <= c < w ensures RowSums(p)[c] == 0.0 {
      SumZeroes(p[c]);
    }
    SumZeroes(RowSums(p));
  }

  /** Each term of a non-negative weighted sum is at most the sum. */
  lemma WeightedTermBound(a: seq<seq<real>>, d: seq<seq<real>>, w: nat, c: nat, k: nat)
    requires |a| == w && Rectangular(a, w) && |d| == w && Rectangular(d, w)
    requires NonNegativeTable(a, w) && NonNegativeTable(d, w) && c < w && k < w
    ensures a[c][k] * d[c][k] <= Weighted(a, d, w)
  {
    var p := CellProducts(a, d, w);
    assert NonNegativeTable(p, w);
    assert NonNegative(p[c]);
    SumTermBound(p[c], k);
    RowSumsNonNegative(p, w);
    SumTermBound(RowSums(p), c);
  }

  /** Weighted sums inherit a cell-by-cell bound. */
  lemma WeightedBound(a: seq<seq<real>>, b: seq<seq<real>>, d: seq<seq<real>>, w: nat, m: real)
    requires |a| == w && Rectangular(a, w) && |b| == w && Rectangular(b, w)
    requires |d| == w && Rectangular(d, w)
    requires forall c, k :: 0 <= c < w && 0 <= k < w ==> a[c][k] * d[c][k] <= m * (b[c][k] * d[c][k])
    ensures Weighted(a, d, w) <= m * Weighted(b, d, w)
  {
    var p := CellProducts(a, d, w);
    var q := CellProducts(b, d, w);
    assert Weighted(a, d, w) == Sum(RowSums(p));
    assert Weighted(b, d, w) == Sum(RowSums(q));
    ProductsBound(a, b, d, w, m);
    TableBound(p, q, w, m);
  }

  lemma ProductsBound(a: seq<seq<real>>, b: seq<seq<real>>, d: seq<seq<real>>, w: nat, m: real)
    requires |a| == w && Rectangular(a, w) && |b| == w && Rectangular(b, w)
    requires |d| == w && Rectangular(d, w)
    requires forall c, k :: 0 <= c < w && 0 <= k < w ==> a[c][k] * d[c][k] <= m * (b[c][k] * d[c][k])
    ensures var p, q := CellProducts(a, d, w), CellProducts(b, d, w);
      forall c, k :: 0 <= c < w && 0 <= k < w ==> p[c][k] <= m * q[c][k]
  {
  }

  /** Table sums inherit a cell-by-cell bound. */
  lemma TableBound(p: seq<seq<real>>, q: seq<seq<real>>, w: nat, m: real)
    requires |p| == w && Rectangular(p, w) && |q| == w && Rectangular(q, w)
    requires forall c, k :: 0 <= c < w && 0 <= k < w ==> p[c][k] <= m * q[c][k]
    ensures Sum(RowSums(p)) <= m * Sum(RowSums(q))
  {
    var rp, rq := RowSums(p), RowSums(q);
    forall c | 0 <= c < w ensures rp[c] <= m * rq[c] {
      var x, y := p[c], q[c];
      assert forall k :: 0 <= k < |x| ==> x[k] <= m * y[k];
      ScaledBound(x, y, m);
    }
    ScaledBound(rp, rq, m);
  }

  // ---------------------------------------------------------------------
  // What the tables satisfy

  predicate ZeroDiagonal(d: seq<seq<real>>, w: nat)
    requires |d| == w && Rectangular(d, w)
  {
    forall c :: 0 <= c < w ==> d[c][c] == 0.0
  }

  predicate SymmetricTable(a: seq<seq<real>>, w: nat)
    requires |a| == w && Rectangular(a, w)
  {
    forall c, k :: 0 <= c < w && 0 <= k < w ==> a[c][k] == a[k][c]
  }

  /** Non-negative marginals adding up to n, which is not 1, and the expected
      table built from them. */
  predicate Marginals(t: Tabulation)
  {
    NonNegativeInts(t.valSums) && SumInt(t.valSums) == t.totalSums && t.totalSums != 1 &&
    t.expecteds == Expecteds(t.valSums, t.totalSums)
  }

  /** The facts about the tables that the point estimate relies on. */
  predicate Consistent(t: Tabulation)
  {
    Shaped(t) && Marginals(t) &&
    NonNegativeTable(t.coincidences, t.w) && SymmetricTable(t.coincidences, t.w) &&
    RowsAddUp(t.coincidences, t.valSums, t.w) &&
    NonNegativeTable(t.deltaSq, t.w) && ZeroDiagonal(t.deltaSq, t.w)
  }

  // ---------------------------------------------------------------------
  // The point estimate

  /** The expected table is non-negative. */
  lemma ExpectedsNonNegative(t: Tabulation)
    requires Shaped(t)
    ensures Consistent(t) ==> Weighted(t.expecteds, t.deltaSq, t.w) >= 0.0
  {
    if Consistent(t) {
      var v := t.valSums;
      if t.totalSums == 0 {
        SumIntNonNegative(v);
        SumIntZero(v);
        forall c, k | 0 <= c < t.w && 0 <= k < t.w ensures t.expecteds[c][k] >= 0.0 {
          assert v[c] == 0;
        }
      } else {
        assert t.totalSums >= 2 by {
          SumIntNonNegative(v);
        }
      }
      assert NonNegativeTable(t.expecteds, t.w);
    }
  }

  /** A coincidence never exceeds the marginal of its row or of its column. */
  lemma CoincidenceBelowMarginals(t: Tabulation, c: nat, k: nat)
    requires Shaped(t) && NonNegativeTable(t.coincidences, t.w) && SymmetricTable(t.coincidences, t.w)
    requires RowsAddUp(t.coincidences, t.valSums, t.w) && c < t.w && k < t.w
    ensures t.coincidences[c][k] <= t.valSums[c] as real
    ensures t.coincidences[c][k] <= t.valSums[k] as real
  {
    var o := t.coincidences;
    assert NonNegative(o[c]);
    SumTermBound(o[c], k);
    assert NonNegative(o[k]);
    SumTermBound(o[k], c);
  }

  /** Off the diagonal, n − 1 expected coincidences are at least the
      observed ones: o_ck ≤ n_c n_k = (n − 1) e_ck. */
  lemma CoincidenceBelowExpected(t: Tabulation, c: nat, k: nat)
    requires Consistent(t) && t.totalSums >= 2 && c < t.w && k < t.w && c != k
    ensures t.coincidences[c][k] <= (t.totalSums - 1) as real * t.expecteds[c][k]
  {
    var v := t.valSums;
    CoincidenceBelowMarginals(t, c, k);
    ProductBound(t.coincidences[c][k], v[c], v[k]);
    Unscale(v[c] * v[k], t.totalSums - 1);
  }

  lemma ProductBound(o: real, a: int, b: int)
    requires a >= 0 && b >= 0 && o <= a as real && o <= b as real
    ensures o <= (a * b) as real
  {
    if b >= 1 {
      assert a <= a * b;
    }
  }

  lemma Unscale(a: int, d: int)
    requires d > 0
    ensures d as real * (a as real / d as real) == a as real
  {
  }

  lemma CellBelowExpected(t: Tabulation, c: nat, k: nat)
    requires Consistent(t) && t.totalSums >= 2 && c < t.w && k < t.w
    ensures t.coincidences[c][k] * t.deltaSq[c][k]
         <= (t.totalSums - 1) as real * (t.expecteds[c][k] * t.deltaSq[c][k])
  {
    var m := (t.totalSums - 1) as real;
    if c != k {
      CoincidenceBelowExpected(t, c, k);
      MultiplyBound(t.coincidences[c][k], m, t.expecteds[c][k], t.deltaSq[c][k]);
    } else {
      ZeroProduct(t.coincidences[c][k], t.deltaSq[c][k]);
      ZeroProduct(t.expecteds[c][k], t.deltaSq[c][k]);
    }
  }

  lemma MultiplyBound(a: real, m: real, e: real, x: real)
    requires a <= m * e && x >= 0.0
    ensures a * x <= m * (e * x)
  {
    assert m * (e * x) == (m * e) * x;
  }

  lemma ZeroProduct(a: real, b: real)
    requires b == 0.0
    ensures a * b == 0.0 && b * a == 0.0
  {
  }

  /** Every weighted coincidence is at most m times the weighted expected one. */
  predicate CellsBelow(t: Tabulation, m: real)
    requires Shaped(t)
  {
    forall c, k :: 0 <= c < t.w && 0 <= k < t.w ==>
      t.coincidences[c][k] * t.deltaSq[c][k] <= m * (t.expecteds[c][k] * t.deltaSq[c][k])
  }

  lemma CellsBelowExpected(t: Tabulation)
    requires Consistent(t) && t.totalSums >= 2
    ensures Shaped(t) && CellsBelow(t, (t.totalSums - 1) as real)
  {
    forall c, k | 0 <= c < t.w && 0 <= k < t.w
      ensures t.coincidences[c][k] * t.deltaSq[c][k] <= (t.totalSums - 1) as real * (t.expecteds[c][k] * t.deltaSq[c][k])
    {
      CellBelowExpected(t, c, k);
    }
  }

  /** The observed weighted sum is non-negative and, for n ≥ 2, at most
      n − 1 times the expected one. */
  lemma ObservedFacts(t: Tabulation)
    requires Shaped(t)
    ensures Consistent(t) ==> Weighted(t.coincidences, t.deltaSq, t.w) >= 0.0
    ensures Consistent(t) && t.totalSums >= 2 ==>
      Weighted(t.coincidences, t.deltaSq, t.w) <= (t.totalSums - 1) as real * Weighted(t.expecteds, t.deltaSq, t.w)
  {
    if Consistent(t) {
      assert NonNegativeTable(t.coincidences, t.w) && NonNegativeTable(t.deltaSq, t.w);
      if t.totalSums >= 2 {
        ObservedBelow(t);
      }
    }
  }

  lemma ObservedBelow(t: Tabulation)
    requires Consistent(t) && t.totalSums >= 2
    ensures Weighted(t.coincidences, t.deltaSq, t.w) <= (t.totalSums - 1) as real * Weighted(t.expecteds, t.deltaSq, t.w)
  {
    CellsBelowExpected(t);
    CellsBelowWeighted(t, (t.totalSums - 1) as real);
  }

  lemma CellsBelowWeighted(t: Tabulation, m: real)
    requires Shaped(t) && CellsBelow(t, m)
    ensures Weighted(t.coincidences, t.deltaSq, t.w) <= m * Weighted(t.expecteds, t.deltaSq, t.w)
  {
    WeightedBound(t.coincidences, t.expecteds, t.deltaSq, t.w, m);
  }

  /** The estimate is undefined only as 0/0, never as an infinity: when n > 0
      and the expected disagreement is 0, so is the observed one. */
  lemma AlphaNeverInfinite(t: Tabulation)
    requires Consistent(t) && t.totalSums > 0 && Expected(t) == 0.0
    ensures Observed(t) == 0.0
  {
  }

  /** With n and D_e non-zero, the estimate's ratio cancels n and lies
      between 0 and n − 1. */
  lemma AlphaRatio(t: Tabulation)
    requires Shaped(t) && t.totalSums != 0 && Expected(t) != 0.0
    ensures (Observed(t) / t.totalSums as real) / (Expected(t) / t.totalSums as real) == Observed(t) / Expected(t)
    ensures Consistent(t) ==> 0.0 <= Observed(t) / Expected(t) <= (t.totalSums - 1) as real
  {
    var o, e := Observed(t), Expected(t);
    CancelN(o, e, t.totalSums as real);
    if Consistent(t) {
      assert t.totalSums >= 2 by {
        SumIntNonNegative(t.valSums);
      }
      assert 0.0 <= o <= (t.totalSums - 1) as real * e && e > 0.0;
      RatioBounds(o, e, (t.totalSums - 1) as real);
    }
  }

  lemma CancelN(o: real, e: real, n: real)
    requires n != 0.0 && e != 0.0
    ensures (o / n) / (e / n) == o / e
  {
    assert o / n == (o / e) * (e / n);
  }

  lemma RatioBounds(o: real, e: real, m: real)
    requires o >= 0.0 && e > 0.0 && o <= m * e
    ensures 0.0 <= o / e <= m
  {
    assert o / e * e == o;
  }

  /** Perfect agreement: when every off-diagonal coincidence is zero and the
      estimate is defined, alpha is exactly 1. */
  lemma AlphaPerfect(t: Tabulation)
    requires Shaped(t) && ZeroDiagonal(t.deltaSq, t.w) && t.totalSums != 0 && Expected(t) != 0.0
    requires forall c, k :: 0 <= c < t.w && 0 <= k < t.w && c != k ==> t.coincidences[c][k] == 0.0
    ensures AlphaValue(t) == Some(1.0)
  {
    forall c, k | 0 <= c < t.w && 0 <= k < t.w
      ensures t.coincidences[c][k] * t.deltaSq[c][k] == 0.0
    {
      if c == k {
        ZeroProduct(t.coincidences[c][k], t.deltaSq[c][k]);
      } else {
        ZeroProduct(t.deltaSq[c][k], t.coincidences[c][k]);
      }
    }
    WeightedZero(t.coincidences, t.deltaSq, t.w);
    ZeroRatio(Expected(t), t.totalSums as real);
  }

  lemma ZeroRatio(e: real, n: real)
    requires e != 0.0 && n != 0.0
    ensures 1.0 - (0.0 / n) / (e / n) == 1.0
  {
  }

  // ---------------------------------------------------------------------
  // Resample depth

  /** The number of strictly positive entries of a row: 0 exactly when no
      entry is positive. */
  function PositiveCount(row: seq<real>): (n: nat)
    ensures n <= |row|
    ensures n == 0 <==> forall k :: 0 <= k < |row| ==> row[k] <= 0.0
  {
    if |row| == 0 then 0
    else
      var front := row[..|row| - 1];
      assert forall k :: 0 <= k < |front| ==> front[k] == row[k];
      PositiveCount(front) + (if row[|row| - 1] > 0.0 then 1 else 0)
  }

  /** `Q()`: the number of strictly positive coincidences; 0 exactly when no
      coincidence is positive. */
  function Q(o: seq<seq<real>>): (q: nat)
    ensures q == 0 <==> forall c, k :: 0 <= c < |o| && 0 <= k < |o[c]| ==> o[c][k] <= 0.0
  {
    if |o| == 0 then 0
    else
      var front := o[..|o| - 1];
      assert forall c :: 0 <= c < |front| ==> front[c] == o[c];
      Q(front) + PositiveCount(o[|o| - 1])
  }

  /** `M`: min(25·Q, n(m − 1)/2) with Java's integer division when there
      are resamples, 0 otherwise. */
  function ResampleDepth(resamples: int, q: nat, n: int, observers: nat): (m: int)
    ensures resamples > 0 ==> m <= 25 * q
  {
    if resamples > 0 then MinInt(25 * q, JavaDiv(n * (observers - 1), 2)) else 0
  }

  /** A positive coincidence needs a positive total. */
  lemma QNeedsTotal(t: Tabulation)
    requires Shaped(t) && NonNegativeTable(t.coincidences, t.w) && SymmetricTable(t.coincidences, t.w)
    requires RowsAddUp(t.coincidences, t.valSums, t.w) && Marginals(t)
    ensures Q(t.coincidences) >= 1 ==> t.totalSums > 0
  {
    if Q(t.coincidences) >= 1 {
      var c, k :| 0 <= c < t.w && 0 <= k < t.w && t.coincidences[c][k] > 0.0;
      CoincidenceBelowMarginals(t, c, k);
      SumIntTermBound(t.valSums, c);
    }
  }

  /** A positive total needs a positive coincidence. */
  lemma TotalNeedsQ(t: Tabulation)
    requires Shaped(t) && RowsAddUp(t.coincidences, t.valSums, t.w) && Marginals(t)
    ensures t.totalSums > 0 ==> Q(t.coincidences) >= 1
  {
    if Q(t.coincidences) == 0 {
      var zero := seq(t.w, c requires 0 <= c < t.w => 0);
      forall c | 0 <= c < t.w ensures t.valSums[c] <= zero[c] {
        var row := t.coincidences[c];
        SumMonotone(row, seq(t.w, k requires 0 <= k < t.w => 0.0));
        SumZeroes(seq(t.w, k requires 0 <= k < t.w => 0.0));
      }
      SumIntMonotone(t.valSums, zero);
      SumIntZeroes(zero);
    }
  }

  /** A pairable unit needs two observers: with fewer the total is 0. */
  lemma ObserversNeeded(matrix: seq<seq<int>>, w: nat, observers: nat)
    requires forall u :: 0 <= u < |matrix| ==> |matrix[u]| == observers && Coded(matrix[u], w)
    ensures observers < 2 ==> TotalSums(UnitSums(ValuesByUnits(matrix, w))) == 0
  {
    var unitSums := UnitSums(ValuesByUnits(matrix, w));
    if observers < 2 {
      var vbu := ValuesByUnits(matrix, w);
      forall u | 0 <= u < |matrix| ensures !Pairable(unitSums[u]) {
        assert unitSums[u] == NonMissing(matrix[u]);
      }
    }
  }

  /** With resamples and some pairable unit the depth M is at least 1, so
      the bootstrap draws at least once per sample; conversely a positive M
      means a positive total. */
  lemma ResampleDepthPositive(matrix: seq<seq<int>>, w: nat, observers: nat, scale: Scale, resamples: int)
    requires Supported(scale) && resamples > 0
    requires forall u :: 0 <= u < |matrix| ==> |matrix[u]| == observers && Coded(matrix[u], w)
    ensures var t := Tabulate(matrix, w, scale);
      t.totalSums > 0 <==> ResampleDepth(resamples, Q(t.coincidences), t.totalSums, observers) >= 1
  {
    var t := Tabulate(matrix, w, scale);
    ObserversNeeded(matrix, w, observers);
    TotalNeedsQ(t);
    QNeedsTotal(t);
    if t.totalSums > 0 {
      assert t.totalSums >= 2 && observers >= 2;
      Product2(t.totalSums, observers - 1);
      JavaDivNonNegative(t.totalSums * (observers - 1), 2);
    }
  }

  lemma Product2(a: int, b: int)
    requires a >= 2 && b >= 1
    ensures a * b >= 2
  {
  }
}
