/** The earlier, nominal-only computation of Krippendorff's alpha,
    1 − (n − 1) · Σ_{c<k} o_ck / Σ_{c<k} n_c n_k, and its agreement with the
    general formula on the nominal scale. */
module NominalAlpha {
  import opened Common
  import opened Sums
  import opened AlphaTables
  import opened Distances
  import opened Krippendorff

  /** Σ_c Σ_{k>c} a_ck: the row-by-row loop adds up exactly the upper
      triangle of the table, and is non-negative for a non-negative table. */
  function Nominator(a: seq<seq<real>>, w: nat): (r: real)
    requires |a| == w && Rectangular(a, w)
    ensures r == Sum(RowSums(Above(a, w)))
    ensures NonNegativeTable(a, w) ==> r >= 0.0
  {
    var rows := UpperRowSums(a, w);
    UpperRows(a, w, rows);
    Sum(rows)
  }

  /** The tail sums right of the diagonal are the row sums of the upper
      triangle. */
  lemma UpperRows(a: seq<seq<real>>, w: nat, rows: seq<real>)
    requires |a| == w && Rectangular(a, w) && rows == UpperRowSums(a, w)
    ensures Sum(rows) == Sum(RowSums(Above(a, w)))
    ensures NonNegativeTable(a, w) ==> Sum(rows) >= 0.0
  {
    var upper := Above(a, w);
    forall c | 0 <= c < w ensures RowSums(upper)[c] == rows[c] {
      AboveRowSum(a[c], c, w);
      assert a[c][c + 1..w] == a[c][c + 1..];
    }
    assert RowSums(upper) == rows;
    if NonNegativeTable(a, w) {
      forall c | 0 <= c < w ensures rows[c] >= 0.0 {
        var tail := a[c][c + 1..];
        assert forall j :: 0 <= j < |tail| ==> tail[j] == a[c][c + 1 + j];
        SumNonNegative(tail);
      }
      SumNonNegative(rows);
    }
  }

  /** Row by row, the sum right of the diagonal. */
  function UpperRowSums(a: seq<seq<real>>, w: nat): (r: seq<real>)
    requires |a| == w && Rectangular(a, w)
    ensures |r| == w && forall c :: 0 <= c < w ==> r[c] == Sum(a[c][c + 1..])
  {
    seq(w, c requires 0 <= c < w => Sum(a[c][c + 1..]))
  }

  /** Σ_c n_c · Σ_{k>c} n_k, in integer arithmetic. For non-negative
      marginals it is non-negative, and zero exactly when fewer than two
      values occur. */
  function Denominator(v: seq<int>): (d: int)
    ensures NonNegativeInts(v) ==> d >= 0
    ensures NonNegativeInts(v) ==> (d == 0 <==> ValuesUsed(v) <= 1)
  {
    var terms := CrossProducts(v);
    CrossProductsFacts(v, terms);
    SumInt(terms)
  }

  /** How many values have a non-zero marginal. */
  function ValuesUsed(v: seq<int>): (n: nat)
    ensures n <= |v|
  {
    if |v| == 0 then 0 else ValuesUsed(v[..|v| - 1]) + (if v[|v| - 1] != 0 then 1 else 0)
  }

  /** No two distinct values both have a non-zero marginal. */
  predicate AtMostOneValue(v: seq<int>)
  {
    forall c, k :: 0 <= c < k < |v| ==> v[c] == 0 || v[k] == 0
  }

  lemma {:induction false} NoValueUsed(v: seq<int>)
    ensures ValuesUsed(v) == 0 <==> forall i :: 0 <= i < |v| ==> v[i] == 0
  {
    if |v| > 0 {
      var front := v[..|v| - 1];
      NoValueUsed(front);
      assert forall i :: 0 <= i < |front| ==> front[i] == v[i];
    }
  }

  /** Counting the values used agrees with the pairwise statement. */
  lemma {:induction false} OneValueUsed(v: seq<int>)
    ensures ValuesUsed(v) <= 1 <==> AtMostOneValue(v)
  {
    if |v| > 0 {
      var front := v[..|v| - 1];
      var last := v[|v| - 1];
      OneValueUsed(front);
      NoValueUsed(front);
      assert forall i :: 0 <= i < |front| ==> front[i] == v[i];
      if ValuesUsed(v) <= 1 {
        forall c, k | 0 <= c < k < |v| ensures v[c] == 0 || v[k] == 0 {
          if k < |v| - 1 {
            assert v[c] == front[c] && v[k] == front[k];
          }
        }
      } else if last != 0 {
        assert ValuesUsed(front) >= 1;
        var i :| 0 <= i < |front| && front[i] != 0;
        assert v[i] != 0 && v[|v| - 1] != 0;
      } else {
        assert !AtMostOneValue(front);
        var c, k :| 0 <= c < k < |front| && front[c] != 0 && front[k] != 0;
        assert v[c] != 0 && v[k] != 0;
      }
    }
  }

  lemma CrossProductsFacts(v: seq<int>, terms: seq<int>)
    requires terms == CrossProducts(v)
    ensures NonNegativeInts(v) ==> SumInt(terms) >= 0
    ensures NonNegativeInts(v) ==> (SumInt(terms) == 0 <==> ValuesUsed(v) <= 1)
  {
    if NonNegativeInts(v) {
      CrossProductsNonNegative(v, terms);
      SumIntNonNegative(terms);
      OneValueUsed(v);
      if AtMostOneValue(v) {
        CrossProductsVanish(v, terms);
      } else {
        CrossProductPositive(v, terms);
      }
    }
  }

  lemma CrossProductsNonNegative(v: seq<int>, terms: seq<int>)
    requires terms == CrossProducts(v) && NonNegativeInts(v)
    ensures NonNegativeInts(terms)
  {
    forall c | 0 <= c < |v| ensures terms[c] >= 0 {
      var tail := v[c + 1..];
      assert NonNegativeInts(tail);
      SumIntNonNegative(tail);
      MultiplyNonNegative(v[c], SumInt(tail));
    }
  }

  lemma CrossProductsVanish(v: seq<int>, terms: seq<int>)
    requires terms == CrossProducts(v) && AtMostOneValue(v)
    ensures SumInt(terms) == 0
  {
    forall c | 0 <= c < |v| ensures terms[c] == 0 {
      var tail := v[c + 1..];
      if v[c] != 0 {
        forall j | 0 <= j < |tail| ensures tail[j] == 0 {
          assert tail[j] == v[c + 1 + j];
        }
        SumIntZeroes(tail);
      }
    }
    SumIntZeroes(terms);
  }

  lemma CrossProductPositive(v: seq<int>, terms: seq<int>)
    requires terms == CrossProducts(v) && NonNegativeInts(v) && !AtMostOneValue(v)
    ensures SumInt(terms) > 0
  {
    var c, k :| 0 <= c < k < |v| && v[c] != 0 && v[k] != 0;
    TailPositive(v, c, k);
    ProductPositive(v[c], SumInt(v[c + 1..]));
    CrossProductsNonNegative(v, terms);
    SumIntTermBound(terms, c);
  }

  /** Term by term, n_c · Σ_{k>c} n_k. */
  function CrossProducts(v: seq<int>): (r: seq<int>)
    ensures |r| == |v| && forall c :: 0 <= c < |v| ==> r[c] == v[c] * SumInt(v[c + 1..])
  {
    seq(|v|, c requires 0 <= c < |v| => v[c] * SumInt(v[c + 1..]))
  }

  lemma TailPositive(v: seq<int>, c: nat, k: nat)
    requires NonNegativeInts(v) && c < k < |v| && v[k] != 0
    ensures SumInt(v[c + 1..]) >= 1
  {
    var tail := v[c + 1..];
    assert tail[k - c - 1] == v[k];
    assert NonNegativeInts(tail);
    SumIntTermBound(tail, k - c - 1);
  }

  lemma ProductPositive(a: int, b: int)
    requires a >= 1 && b >= 1
    ensures a * b >= 1
  {
    MultiplyNonNegative(a - 1, b - 1);
  }

  /** The old point estimate; `None` where the quotient is not finite. For
      consistent tables that is exactly when at most one value occurs, and
      a defined estimate is at most 1. */
  function OldAlpha(t: Tabulation): (r: Option<real>)
    requires Shaped(t)
    ensures r.Some? <==> Denominator(t.valSums) != 0
    ensures Consistent(t) ==> (r.None? <==> ValuesUsed(t.valSums) <= 1)
    ensures Consistent(t) && r.Some? ==> r.value <= 1.0
  {
    if Denominator(t.valSums) == 0 then None
    else
      var q := Nominator(t.coincidences, t.w) / Denominator(t.valSums) as real;
      OldAlphaBound(t, q);
      Some(1.0 - (t.totalSums - 1) as real * q)
  }

  /** For consistent tables with a non-zero denominator, the subtracted
      term (n − 1) · N / D is non-negative. */
  lemma OldAlphaBound(t: Tabulation, q: real)
    requires Shaped(t) && Denominator(t.valSums) != 0
    requires q == Nominator(t.coincidences, t.w) / Denominator(t.valSums) as real
    ensures Consistent(t) ==> (t.totalSums - 1) as real * q >= 0.0
  {
    if Consistent(t) {
      OldAlphaParts(t);
      ScaledQuotient(Nominator(t.coincidences, t.w), Denominator(t.valSums) as real, (t.totalSums - 1) as real, q);
    }
  }

  /** For consistent tables with values in use, the old nominator is
      non-negative, the denominator positive and n at least 1. */
  lemma OldAlphaParts(t: Tabulation)
    requires Consistent(t) && Denominator(t.valSums) != 0
    ensures Nominator(t.coincidences, t.w) >= 0.0 && Denominator(t.valSums) > 0 && t.totalSums >= 1
  {
    UsedMeansTotal(t.valSums);
  }

  lemma ScaledQuotient(x: real, y: real, k: real, q: real)
    requires x >= 0.0 && y > 0.0 && k >= 0.0 && q == x / y
    ensures k * q >= 0.0
  {
    QuotientNonNegative(x, y);
    MultiplyNonNegativeReal(k, q);
  }

  lemma QuotientNonNegative(x: real, y: real)
    requires x >= 0.0 && y > 0.0
    ensures x / y >= 0.0
  {
  }

  /** Two values in use mean at least one value in total. */
  lemma UsedMeansTotal(v: seq<int>)
    requires NonNegativeInts(v) && Denominator(v) != 0
    ensures SumInt(v) >= 1
  {
    OneValueUsed(v);
    var c, k :| 0 <= c < k < |v| && v[c] != 0 && v[k] != 0;
    SumIntTermBound(v, c);
  }

  /** With no coincidence above the diagonal and a non-zero denominator,
      the old estimate is 1. */
  lemma OldAlphaPerfect(t: Tabulation)
    requires Shaped(t) && Denominator(t.valSums) != 0
    requires forall c, k :: 0 <= c < k < t.w ==> t.coincidences[c][k] == 0.0
    ensures OldAlpha(t) == Some(1.0)
  {
    NominatorZero(t.coincidences, t.w);
    OldAlphaOfZero(t);
  }

  lemma OldAlphaOfZero(t: Tabulation)
    requires Shaped(t) && Denominator(t.valSums) != 0 && Nominator(t.coincidences, t.w) == 0.0
    ensures OldAlpha(t) == Some(1.0)
  {
    var q := Nominator(t.coincidences, t.w) / Denominator(t.valSums) as real;
    assert q == 0.0;
    assert OldAlpha(t).Some?;
    assert OldAlpha(t).value == 1.0 - (t.totalSums - 1) as real * q;
    assert (t.totalSums - 1) as real * q == 0.0;
  }

  /** Nothing above the diagonal sums to nothing. */
  lemma NominatorZero(a: seq<seq<real>>, w: nat)
    requires |a| == w && Rectangular(a, w)
    requires forall c, k :: 0 <= c < k < w ==> a[c][k] == 0.0
    ensures Nominator(a, w) == 0.0
  {
    var rows := UpperRowSums(a, w);
    forall c | 0 <= c < w ensures rows[c] == 0.0 {
      var tail := a[c][c + 1..];
      forall j | 0 <= j < |tail| ensures tail[j] == 0.0 {
        assert tail[j] == a[c][c + 1 + j];
      }
      SumZeroes(tail);
    }
    SumZeroes(rows);
  }

  /** The old and the general point estimate agree on the nominal scale. */
  lemma OldAlphaAgrees(matrix: seq<seq<int>>, w: nat)
    ensures OldAlpha(Tabulate(matrix, w, Nominal)) == AlphaValue(Tabulate(matrix, w, Nominal))
  {
    AgreesOnNominal(Tabulate(matrix, w, Nominal));
  }

  /** The same for any consistent tabulation with the nominal metric. */
  lemma AgreesOnNominal(t: Tabulation)
    requires Consistent(t) && t.deltaSq == DeltaSq(Nominal, t.valSums)
    ensures OldAlpha(t) == AlphaValue(t)
  {
    if t.totalSums == 0 {
      SumIntZero(t.valSums);
      DenominatorOfZeroes(t.valSums);
    } else {
      ObservedNominal(t);
      ExpectedNominal(t);
      Combine(t);
    }
  }

  lemma Combine(t: Tabulation)
    requires Shaped(t) && t.totalSums >= 2
    requires Observed(t) == 2.0 * Nominator(t.coincidences, t.w)
    requires Expected(t) == NominalExpected(Denominator(t.valSums), t.totalSums)
    ensures OldAlpha(t) == AlphaValue(t)
  {
    var nom := Nominator(t.coincidences, t.w);
    var d := Denominator(t.valSums);
    var o, e := Observed(t), Expected(t);
    OldAlphaIs(t);
    AlphaValueIs(t);
    Rewrite(nom, d, t.totalSums, o, e);
  }

  /** The old estimate from its nominator N, denominator D and total n. */
  function OldFormula(nom: real, d: int, n: int): Option<real>
  {
    if d == 0 then None else Some(1.0 - (n - 1) as real * (nom / d as real))
  }

  /** The expected disagreement on the nominal scale, 2D / (n − 1), for a
      denominator D and a total n. */
  function NominalExpected(d: int, n: int): real
    requires n >= 2
  {
    2.0 * d as real / (n - 1) as real
  }

  /** The general estimate from D_o, D_e and the total n. */
  function NewFormula(o: real, e: real, n: int): Option<real>
  {
    if n == 0 || e == 0.0 then None else Some(1.0 - (o / n as real) / (e / n as real))
  }

  lemma OldAlphaIs(t: Tabulation)
    requires Shaped(t)
    ensures OldAlpha(t) == OldFormula(Nominator(t.coincidences, t.w), Denominator(t.valSums), t.totalSums)
  {
    var nom, d := Nominator(t.coincidences, t.w), Denominator(t.valSums);
    if d != 0 {
      assert OldAlpha(t).value == 1.0 - (t.totalSums - 1) as real * (nom / d as real);
      assert OldFormula(nom, d, t.totalSums).value == 1.0 - (t.totalSums - 1) as real * (nom / d as real);
    }
  }

  lemma AlphaValueIs(t: Tabulation)
    requires Shaped(t)
    ensures AlphaValue(t) == NewFormula(Observed(t), Expected(t), t.totalSums)
  {
  }

  /** With n ≥ 2, O = 2N and E = 2D / (n − 1), both point estimates are
      undefined exactly when D = 0, and agree otherwise. */
  lemma Rewrite(nom: real, d: int, n: int, o: real, e: real)
    requires n >= 2 && o == 2.0 * nom && e == NominalExpected(d, n)
    ensures OldFormula(nom, d, n) == NewFormula(o, e, n)
  {
    RatioRewrite(nom, d as real, n as real, (n - 1) as real, o, e);
    if d != 0 {
      assert d as real != 0.0 && e != 0.0;
      assert OldFormula(nom, d, n).value == 1.0 - (n - 1) as real * (nom / d as real);
      assert NewFormula(o, e, n).value == 1.0 - (o / n as real) / (e / n as real);
    }
  }

  lemma RatioRewrite(nom: real, den: real, n: real, k: real, o: real, e: real)
    requires n >= 2.0 && k == n - 1.0 && o == 2.0 * nom && e == 2.0 * den / k
    ensures e == 0.0 <==> den == 0.0
    ensures den != 0.0 ==> 1.0 - (o / n) / (e / n) == 1.0 - k * (nom / den)
  {
    if den != 0.0 {
      assert e * k == 2.0 * den;
      assert (o / n) / (e / n) == o / e;
      assert o / e == k * (nom / den);
    }
  }

  lemma DenominatorOfZeroes(v: seq<int>)
    requires forall i :: 0 <= i < |v| ==> v[i] == 0
    ensures Denominator(v) == 0
  {
    SumIntZeroes(CrossProducts(v));
  }

  // ---------------------------------------------------------------------
  // Triangles of a table

  /** Row c of a table, kept right of the diagonal only. */
  function AboveRow(r: seq<real>, c: nat, m: nat): (s: seq<real>)
    requires m <= |r|
    ensures |s| == m
  {
    seq(m, k requires 0 <= k < m => if c < k then r[k] else 0.0)
  }

  /** Row c of a table, kept left of the diagonal only. */
  function BelowRow(r: seq<real>, c: nat, m: nat): (s: seq<real>)
    requires m <= |r|
    ensures |s| == m
  {
    seq(m, k requires 0 <= k < m => if k < c then r[k] else 0.0)
  }

  function Above(a: seq<seq<real>>, w: nat): (b: seq<seq<real>>)
    requires |a| == w && Rectangular(a, w)
    ensures |b| == w && Rectangular(b, w)
    ensures forall c :: 0 <= c < w ==> b[c] == AboveRow(a[c], c, w)
  {
    seq(w, c requires 0 <= c < w => AboveRow(a[c], c, w))
  }

  function Below(a: seq<seq<real>>, w: nat): (b: seq<seq<real>>)
    requires |a| == w && Rectangular(a, w)
    ensures |b| == w && Rectangular(b, w)
    ensures forall c :: 0 <= c < w ==> b[c] == BelowRow(a[c], c, w)
  {
    seq(w, c requires 0 <= c < w => BelowRow(a[c], c, w))
  }

  /** The loop `for (k = c+1; k < cN; k++)` adds up the part of row c right
      of the diagonal. */
  lemma {:induction false} AboveRowSum(r: seq<real>, c: nat, m: nat)
    requires c < m <= |r|
    ensures Sum(AboveRow(r, c, m)) == Sum(r[c + 1..m])
    decreases m
  {
    var s := AboveRow(r, c, m);
    if m == c + 1 {
      SumZeroes(s);
    } else {
      AboveRowSum(r, c, m - 1);
      assert s[..m - 1] == AboveRow(r, c, m - 1);
      assert r[c + 1..m][..m - 1 - (c + 1)] == r[c + 1..m - 1];
    }
  }

  /** The part below the diagonal of a symmetric table adds up to the part
      above it. */
  lemma BelowIsAbove(a: seq<seq<real>>, w: nat)
    requires |a| == w && Rectangular(a, w) && SymmetricTable(a, w)
    ensures Sum(RowSums(Below(a, w))) == Sum(RowSums(Above(a, w)))
  {
    var lower := Below(a, w);
    var upper := Above(a, w);
    SumExchange(lower, w);
    forall k | 0 <= k < w ensures Column(lower, k) == upper[k] {
      forall c | 0 <= c < w ensures Column(lower, k)[c] == upper[k][c] {
        assert a[c][k] == a[k][c];
      }
    }
    assert ColumnSums(lower, w) == RowSums(upper);
  }

  /** Σ_{c≠k} a_ck splits into the two triangles. */
  lemma OffDiagonalSplits(a: seq<seq<real>>, w: nat, delta: seq<seq<real>>)
    requires |a| == w && Rectangular(a, w) && |delta| == w && Rectangular(delta, w)
    requires forall c, k :: 0 <= c < w && 0 <= k < w ==> delta[c][k] == if c != k then 1.0 else 0.0
    ensures Weighted(a, delta, w) == Sum(RowSums(Above(a, w))) + Sum(RowSums(Below(a, w)))
  {
    var p := CellProducts(a, delta, w);
    var upper := Above(a, w);
    var lower := Below(a, w);
    forall c | 0 <= c < w ensures RowSums(p)[c] == RowSums(upper)[c] + RowSums(lower)[c] {
      SumAdd(upper[c], lower[c], p[c]);
    }
    SumAdd(RowSums(upper), RowSums(lower), RowSums(p));
  }

  /** On a symmetric table Σ_{c≠k} a_ck = 2 Σ_c Σ_{k>c} a_ck. */
  lemma OffDiagonalTwice(a: seq<seq<real>>, w: nat, delta: seq<seq<real>>)
    requires |a| == w && Rectangular(a, w) && SymmetricTable(a, w)
    requires |delta| == w && Rectangular(delta, w)
    requires forall c, k :: 0 <= c < w && 0 <= k < w ==> delta[c][k] == if c != k then 1.0 else 0.0
    ensures Weighted(a, delta, w) == 2.0 * Nominator(a, w)
  {
    OffDiagonalSplits(a, w, delta);
    BelowIsAbove(a, w);
  }

  // ---------------------------------------------------------------------
  // The two disagreements on the nominal scale

  /** The observed disagreement is twice the old nominator. */
  lemma ObservedNominal(t: Tabulation)
    requires Consistent(t) && t.deltaSq == DeltaSq(Nominal, t.valSums)
    ensures Observed(t) == 2.0 * Nominator(t.coincidences, t.w)
  {
    OffDiagonalTwice(t.coincidences, t.w, t.deltaSq);
  }

  /** The expected disagreement is 2 Σ_{c<k} n_c n_k / (n − 1). */
  lemma ExpectedNominal(t: Tabulation)
    requires Consistent(t) && t.deltaSq == DeltaSq(Nominal, t.valSums) && t.totalSums != 0
    ensures t.totalSums >= 2
    ensures Expected(t) == NominalExpected(Denominator(t.valSums), t.totalSums)
  {
    SumIntNonNegative(t.valSums);
    ExpectedsTwice(t.valSums, t.totalSums, t.deltaSq);
  }

  /** Weighted by the nominal metric, the expected table adds up to
      2 Σ_{c<k} n_c n_k / (n − 1). */
  lemma ExpectedsTwice(v: seq<int>, n: int, d: seq<seq<real>>)
    requires n >= 2 && d == DeltaSq(Nominal, v)
    ensures Weighted(Expecteds(v, n), d, |v|) == NominalExpected(Denominator(v), n)
  {
    var e := Expecteds(v, n);
    ExpectedsOffDiagonal(v, n, d);
    ExpectedNominator(v, n);
    TwiceQuotient(Weighted(e, d, |v|), Nominator(e, |v|), Denominator(v) as real, (n - 1) as real);
  }

  /** Weighted by the nominal δ², the expected coincidences count each pair
      above the diagonal twice. */
  lemma ExpectedsOffDiagonal(v: seq<int>, n: int, d: seq<seq<real>>)
    requires n >= 2 && d == DeltaSq(Nominal, v)
    ensures Weighted(Expecteds(v, n), d, |v|) == 2.0 * Nominator(Expecteds(v, n), |v|)
  {
    OffDiagonalTwice(Expecteds(v, n), |v|, d);
  }

  lemma TwiceQuotient(x: real, y: real, den: real, k: real)
    requires k > 0.0 && x == 2.0 * y && y == den / k
    ensures x == 2.0 * den / k
  {
  }

  /** Σ_c Σ_{k>c} e_ck = Σ_c n_c Σ_{k>c} n_k / (n − 1). */
  lemma ExpectedNominator(v: seq<int>, n: int)
    requires n >= 2
    ensures Nominator(Expecteds(v, n), |v|) == Denominator(v) as real / (n - 1) as real
  {
    var e := Expecteds(v, n);
    var w := |v|;
    var d := (n - 1) as real;
    var terms := CrossProducts(v);
    var rows := UpperRowSums(e, w);
    forall c | 0 <= c < w ensures rows[c] == ToReal(terms)[c] / d {
      ExpectedRow(v, n, c);
    }
    SumDivide(ToReal(terms), d, rows);
    SumCast(terms);
  }

  /** Σ_{k>c} e_ck = n_c Σ_{k>c} n_k / (n − 1). */
  lemma ExpectedRow(v: seq<int>, n: int, c: nat)
    requires n >= 2 && c < |v|
    ensures Sum(Expecteds(v, n)[c][c + 1..]) == (v[c] * SumInt(v[c + 1..])) as real / (n - 1) as real
  {
    var row := Expecteds(v, n)[c][c + 1..];
    var tail := v[c + 1..];
    var products := seq(|tail|, i requires 0 <= i < |tail| => v[c] * tail[i]);
    forall i | 0 <= i < |row| ensures row[i] == ToReal(products)[i] / (n - 1) as real {
      assert row[i] == Expecteds(v, n)[c][c + 1 + i];
    }
    SumDivide(ToReal(products), (n - 1) as real, row);
    SumCast(products);
    SumIntScale(tail, v[c], products);
  }
}
