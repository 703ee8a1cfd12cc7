/** Fleiss' kappa over the units every observer rated: the count table
    n_ij, P̄, P_e, the point estimate, and Gwet's variance with its Java
    integer divisions. */
module Fleiss {
  import opened Common
  import opened Sums
  import opened AlphaTables
  import opened DataMatrices
  import opened NormalTests

  /** `ArithmeticException` from an integer division by zero. */
  datatype FleissError = DivisionByZero

  /** What the constructor leaves behind. */
  datatype Estimate = Estimate(value: Option<real>, variance: Option<real>, units: nat)

  /** Every observer supplied a value. */
  predicate Complete(row: seq<int>)
  {
    forall o :: 0 <= o < |row| ==> row[o] >= 0
  }

  /** The kept units, in their original order: a row is kept exactly when
      it is a complete row of the matrix, and a complete row is kept as
      many times as it occurs, since every occurrence is one more unit. */
  function Kept(matrix: seq<seq<int>>): (kept: seq<seq<int>>)
    ensures |kept| <= |matrix|
    ensures forall row :: row in kept <==> row in matrix && Complete(row)
    ensures forall row :: multiset(kept)[row] == if Complete(row) then multiset(matrix)[row] else 0
  {
    if |matrix| == 0 then []
    else
      var front := matrix[..|matrix| - 1];
      var row := matrix[|matrix| - 1];
      assert matrix == front + [row];
      assert multiset(matrix) == multiset(front) + multiset{row};
      if Complete(row) then Kept(front) + [row] else Kept(front)
  }

  /** The table n_ij: how many observers put kept unit i in category j. */
  function Nij(kept: seq<seq<int>>, k: nat): (nij: seq<seq<int>>)
    ensures |nij| == |kept| && Rectangular(nij, k)
  {
    seq(|kept|, i requires 0 <= i < |kept| => Counts(kept[i], k))
  }

  /** Every unit's counts are non-negative and add up to the number of
      observers. */
  predicate RatedRows(nij: seq<seq<int>>, n: nat)
  {
    forall i :: 0 <= i < |nij| ==> NonNegativeInts(nij[i]) && SumInt(nij[i]) == n
  }

  /** The table of a well-formed matrix: one row of k counts per kept unit,
      each row non-negative and adding up to the number of observers. */
  predicate CountTable(nij: seq<seq<int>>, n: nat, k: nat)
  {
    Rectangular(nij, k) && RatedRows(nij, n)
  }

  lemma NijRows(matrix: seq<seq<int>>, n: nat, k: nat)
    requires Grid(matrix, n, k)
    ensures CountTable(Nij(Kept(matrix), k), n, k)
  {
    var kept := Kept(matrix);
    var nij := Nij(kept, k);
    forall i | 0 <= i < |nij| ensures NonNegativeInts(nij[i]) && SumInt(nij[i]) == n {
      var row := kept[i];
      assert row in kept;
      assert |row| == n && Coded(row, k);
      CountsSum(row, k, Counts(row, k));
      CompleteCount(row);
    }
  }

  lemma {:induction false} CompleteCount(row: seq<int>)
    requires Complete(row)
    ensures NonMissing(row) == |row|
  {
    if |row| > 0 {
      CompleteCount(row[..|row| - 1]);
    }
  }

  // ---------------------------------------------------------------------
  // P̄

  function IntSquares(s: seq<int>): (r: seq<int>)
    ensures |r| == |s|
    ensures forall j :: 0 <= j < |s| ==> r[j] == s[j] * s[j]
  {
    seq(|s|, j requires 0 <= j < |s| => s[j] * s[j])
  }

  /** Σ_i Σ_j n_ij². */
  function SquareSum(nij: seq<seq<int>>): int
  {
    SumInt(UnitSquares(nij))
  }

  /** Unit by unit, Σ_j n_ij². */
  function UnitSquares(nij: seq<seq<int>>): (r: seq<int>)
    ensures |r| == |nij|
    ensures forall i :: 0 <= i < |nij| ==> r[i] == SumInt(IntSquares(nij[i]))
  {
    seq(|nij|, i requires 0 <= i < |nij| => SumInt(IntSquares(nij[i])))
  }

  /** N copies of c. */
  function Constant(c: int, N: nat): (r: seq<int>)
    ensures |r| == N && forall i :: 0 <= i < N ==> r[i] == c
  {
    seq(N, i requires 0 <= i < N => c)
  }

  /** n·(n − 1), the number of ordered pairs of distinct observers; it is
      0 exactly when there are fewer than two. */
  function Pairs(n: int): (p: int)
    ensures n >= 0 ==> (p == 0 <==> n < 2)
    ensures n >= 2 ==> p > 0
  {
    n * (n - 1)
  }

  /** P̄ = (Σ n_ij² − N·n) / (N·n·(n − 1)); the divisor is 0 exactly when no
      unit or fewer than two observers are left, and then the numerator is
      0 as well, so P̄ is NaN. On rows that each hold n ratings, the
      observed agreement is a proportion, and it is 1 exactly when every
      unit is unanimous. */
  function PBar(nij: seq<seq<int>>, n: nat): (p: Option<real>)
    ensures p.Some? <==> |nij| > 0 && n >= 2
    ensures p.Some? && RatedRows(nij, n) ==> 0.0 <= p.value <= 1.0
    ensures p.Some? && RatedRows(nij, n) ==>
      (p.value == 1.0 <==> forall i :: 0 <= i < |nij| ==> Unanimous(nij[i], n))
  {
    if |nij| * Pairs(n) == 0 then None
    else
      var x := (SquareSum(nij) - |nij| * n) as real / (|nij| * Pairs(n)) as real;
      PBarFacts(nij, n);
      Some(x)
  }

  /** A unit is unanimous when one category got every rating. */
  predicate Unanimous(counts: seq<int>, n: int)
  {
    exists j :: 0 <= j < |counts| && counts[j] == n
  }

  /** The ratio behind P̄ lies in [0, 1], and is 1 exactly when every unit is
      unanimous. */
  lemma PBarFacts(nij: seq<seq<int>>, n: nat)
    requires |nij| > 0 && n >= 2
    ensures |nij| * Pairs(n) > 0
    ensures var x := (SquareSum(nij) - |nij| * n) as real / (|nij| * Pairs(n)) as real;
      RatedRows(nij, n) ==>
        0.0 <= x <= 1.0 && (x == 1.0 <==> forall i :: 0 <= i < |nij| ==> Unanimous(nij[i], n))
  {
    MultiplyNonNegative(|nij| - 1, Pairs(n));
    if RatedRows(nij, n) {
      SquareSumRange(nij, n);
      PBarArithmetic(SquareSum(nij), |nij|, n);
    }
  }

  /** N·n ≤ Σ_i Σ_j n_ij² ≤ N·n², with equality on the right exactly when
      every unit is unanimous. */
  lemma SquareSumRange(nij: seq<seq<int>>, n: nat)
    requires RatedRows(nij, n) && n >= 2
    ensures |nij| * n <= SquareSum(nij) <= |nij| * (n * n)
    ensures SquareSum(nij) == |nij| * (n * n) <==> forall i :: 0 <= i < |nij| ==> Unanimous(nij[i], n)
  {
    var N := |nij|;
    var rows := UnitSquares(nij);
    var low := Constant(n, N);
    var high := Constant(n * n, N);
    forall i | 0 <= i < N ensures n <= rows[i] <= n * n && (rows[i] == n * n <==> Unanimous(nij[i], n)) {
      RowSquares(nij[i], n);
    }
    SumIntMonotone(low, rows);
    SumIntMonotone(rows, high);
    ConstantSum(n, N);
    ConstantSum(n * n, N);
    if forall i :: 0 <= i < N ==> Unanimous(nij[i], n) {
      assert rows == high;
    } else {
      var i :| 0 <= i < N && !Unanimous(nij[i], n);
      StrictSumInt(rows, high, i);
    }
  }

  lemma PBarArithmetic(s: int, N: nat, n: nat)
    requires N > 0 && n >= 2 && N * n <= s <= N * (n * n)
    ensures N * Pairs(n) > 0
    ensures 0.0 <= (s - N * n) as real / (N * Pairs(n)) as real <= 1.0
    ensures (s - N * n) as real / (N * Pairs(n)) as real == 1.0 <==> s == N * (n * n)
  {
    var d := N * Pairs(n);
    assert N * (n * n) - N * n == d;
    assert d > 0;
  }

  /** n ≤ Σ_j n_j² ≤ n², with equality on the right exactly for a
      unanimous unit. */
  lemma RowSquares(counts: seq<int>, n: nat)
    requires NonNegativeInts(counts) && SumInt(counts) == n && n >= 2
    ensures n <= SumInt(IntSquares(counts)) <= n * n
    ensures SumInt(IntSquares(counts)) == n * n <==> Unanimous(counts, n)
  {
    var sq := IntSquares(counts);
    var scaled := seq(|counts|, j requires 0 <= j < |counts| => n * counts[j]);
    forall j | 0 <= j < |counts| ensures counts[j] <= sq[j] <= scaled[j] {
      SumIntTermBound(counts, j);
      SquareBetween(counts[j], n);
    }
    SumIntMonotone(counts, sq);
    SumIntMonotone(sq, scaled);
    SumIntScale(counts, n, scaled);
    if Unanimous(counts, n) {
      var j :| 0 <= j < |counts| && counts[j] == n;
      OnlyCategory(counts, n, j);
      SumIntSingle(sq, j);
    } else {
      var j := PositiveTerm(counts);
      SumIntTermBound(counts, j);
      SquareBetween(counts[j], n);
      StrictSumInt(sq, scaled, j);
    }
  }

  /** c ≤ c² ≤ n·c for 0 ≤ c ≤ n, strictly on the right when 0 < c < n. */
  lemma SquareBetween(c: int, n: int)
    requires 0 <= c <= n
    ensures c <= c * c <= n * c
    ensures 0 < c < n ==> c * c < n * c
  {
    if c > 0 {
      assert c * c <= n * c;
    }
  }

  /** A positive total has a positive term. */
  lemma PositiveTerm(s: seq<int>) returns (j: nat)
    requires NonNegativeInts(s) && SumInt(s) > 0
    ensures j < |s| && s[j] > 0
  {
    if forall i :: 0 <= i < |s| ==> s[i] == 0 {
      SumIntZeroes(s);
      assert false;
    }
    j :| 0 <= j < |s| && s[j] != 0;
  }

  /** In a unanimous unit every other category is empty. */
  lemma OnlyCategory(counts: seq<int>, n: nat, j: nat)
    requires NonNegativeInts(counts) && SumInt(counts) == n && j < |counts| && counts[j] == n
    ensures forall i :: 0 <= i < |counts| && i != j ==> counts[i] == 0
  {
    forall i | 0 <= i < |counts| && i != j ensures counts[i] == 0 {
      TwoTerms(counts, i, j);
    }
  }

  /** Two different terms of a non-negative sequence add up to at most its sum. */
  lemma TwoTerms(s: seq<int>, i: nat, j: nat)
    requires NonNegativeInts(s) && i < |s| && j < |s| && i != j
    ensures s[i] + s[j] <= SumInt(s)
  {
    var without := s[j := 0];
    SumIntUpdate(without, j, s[j]);
    assert without[j := s[j]] == s;
    SumIntTermBound(without, i);
  }

  /** Σ of N copies of c. */
  lemma {:induction false} ConstantSum(c: int, N: nat)
    ensures SumInt(Constant(c, N)) == N * c
  {
    if N > 0 {
      assert Constant(c, N)[..N - 1] == Constant(c, N - 1);
      ConstantSum(c, N - 1);
    }
  }

  /** A sum stays strictly below when one term does. */
  lemma StrictSumInt(a: seq<int>, b: seq<int>, i: nat)
    requires |a| == |b| && i < |a|
    requires forall j :: 0 <= j < |a| ==> a[j] <= b[j]
    requires a[i] < b[i]
    ensures SumInt(a) < SumInt(b)
  {
    SumIntAround(a, i);
    SumIntAround(b, i);
    SumIntMonotone(a[..i], b[..i]);
    SumIntMonotone(a[i + 1..], b[i + 1..]);
  }

  // ---------------------------------------------------------------------
  // P_e

  /** p_j = Σ_i n_ij / (n·N), each NaN when n·N = 0. */
  function Proportions(nij: seq<seq<int>>, n: nat, k: nat): (p: seq<real>)
    requires Rectangular(nij, k) && n * |nij| != 0
    ensures |p| == k
  {
    seq(k, j requires 0 <= j < k => IntColumnSums(nij, k)[j] as real / (n * |nij|) as real)
  }

  /** P_e = Σ_j p_j², NaN as soon as one p_j is (no category, no NaN). On a
      count table the chance agreement is a proportion. */
  function Pe(nij: seq<seq<int>>, n: nat, k: nat): (p: Option<real>)
    requires Rectangular(nij, k)
    ensures p.Some? <==> k == 0 || n * |nij| != 0
    ensures p.Some? && CountTable(nij, n, k) ==> 0.0 <= p.value <= 1.0
  {
    if k == 0 then Some(0.0)
    else if n * |nij| == 0 then None
    else
      PeFacts(nij, n, k);
      Some(Sum(Squares(Proportions(nij, n, k))))
  }

  /** On a count table, Σ_j p_j² ∈ [0, 1], since the p_j are proportions
      adding up to 1. */
  lemma PeFacts(nij: seq<seq<int>>, n: nat, k: nat)
    requires Rectangular(nij, k) && n * |nij| != 0
    ensures CountTable(nij, n, k) ==> 0.0 <= Sum(Squares(Proportions(nij, n, k))) <= 1.0
  {
    if CountTable(nij, n, k) {
      ColumnTotal(nij, n, k);
      ProportionsSum(nij, n, k);
      ProportionsBounded(nij, n, k);
      SquaresBelow(Proportions(nij, n, k));
    }
  }

  /** The category proportions add up to 1. */
  lemma ProportionsSum(nij: seq<seq<int>>, n: nat, k: nat)
    requires Rectangular(nij, k) && n * |nij| != 0
    requires SumInt(IntColumnSums(nij, k)) == n * |nij|
    ensures Sum(Proportions(nij, n, k)) == 1.0
  {
    SharesSum(IntColumnSums(nij, k), n * |nij|, Proportions(nij, n, k));
  }

  /** Shares of a non-zero total add up to 1. */
  lemma SharesSum(c: seq<int>, total: int, p: seq<real>)
    requires total != 0 && SumInt(c) == total && |p| == |c|
    requires forall j :: 0 <= j < |c| ==> p[j] == c[j] as real / total as real
    ensures Sum(p) == 1.0
  {
    var t := total as real;
    var a := ToReal(c);
    assert forall j :: 0 <= j < |c| ==> p[j] == a[j] / t;
    SumDivide(a, t, p);
    SumCast(c);
    assert Sum(a) == t;
    DivideSelf(t);
  }

  /** Every kept unit contributes n ratings, so the columns hold n·N. */
  lemma ColumnTotal(nij: seq<seq<int>>, n: nat, k: nat)
    requires CountTable(nij, n, k)
    ensures SumInt(IntColumnSums(nij, k)) == n * |nij|
  {
    var N := |nij|;
    SumIntExchange(nij, k);
    assert IntRowSums(nij) == Constant(n, N);
    ConstantSum(n, N);
  }

  /** Σ p_j² ∈ [0, 1] when the p_j are proportions adding up to 1. */
  lemma SquaresBelow(p: seq<real>)
    requires forall j :: 0 <= j < |p| ==> 0.0 <= p[j] <= 1.0
    requires Sum(p) == 1.0
    ensures 0.0 <= Sum(Squares(p)) <= 1.0
  {
    var sq := Squares(p);
    SquaresBetween(p);
    SumMonotone(sq, p);
    SumNonNegative(sq);
  }

  lemma SquaresBetween(p: seq<real>)
    requires forall j :: 0 <= j < |p| ==> 0.0 <= p[j] <= 1.0
    ensures NonNegative(Squares(p))
    ensures forall j :: 0 <= j < |p| ==> Squares(p)[j] <= p[j]
  {
    var sq := Squares(p);
    forall j | 0 <= j < |p| ensures 0.0 <= sq[j] <= p[j] {
      ProportionSquare(p[j], sq[j]);
    }
  }

  /** Each proportion lies in [0, 1]. */
  lemma ProportionsBounded(nij: seq<seq<int>>, n: nat, k: nat)
    requires CountTable(nij, n, k) && n * |nij| != 0
    ensures forall j :: 0 <= j < k ==> 0.0 <= Proportions(nij, n, k)[j] <= 1.0
  {
    var columns := IntColumnSums(nij, k);
    ColumnTotal(nij, n, k);
    ColumnsNonNegative(nij, n, k);
    forall j | 0 <= j < k ensures 0.0 <= Proportions(nij, n, k)[j] <= 1.0 {
      SumIntTermBound(columns, j);
      UnitShare(columns[j] as real, (n * |nij|) as real);
    }
  }

  lemma ColumnsNonNegative(nij: seq<seq<int>>, n: nat, k: nat)
    requires CountTable(nij, n, k)
    ensures NonNegativeInts(IntColumnSums(nij, k))
  {
    forall j | 0 <= j < k ensures IntColumnSums(nij, k)[j] >= 0 {
      assert NonNegativeInts(Column(nij, j)) by {
        forall i | 0 <= i < |nij| ensures Column(nij, j)[i] >= 0 {
          assert Column(nij, j)[i] == nij[i][j];
        }
      }
      SumIntNonNegative(Column(nij, j));
    }
  }

  lemma UnitShare(x: real, total: real)
    requires 0.0 <= x <= total && total > 0.0
    ensures 0.0 <= x / total <= 1.0
  {
  }

  lemma ProportionSquare(q: real, square: real)
    requires 0.0 <= q <= 1.0 && square == q * q
    ensures 0.0 <= square <= q
  {
    var rest := 1.0 - q;
    MultiplyNonNegativeReal(q, rest);
    MultiplyNonNegativeReal(q, q);
    assert q * rest == q - q * q;
  }

  // ---------------------------------------------------------------------
  // The point estimate

  /** κ = (P̄ − P_e) / (1 − P_e), NaN when either is NaN or P_e = 1. With
      P̄ ≤ 1 and P_e < 1, κ ≤ 1, with equality exactly when P̄ = 1. */
  function Kappa(pbar: Option<real>, pe: Option<real>): (r: Option<real>)
    ensures r.Some? <==> pbar.Some? && pe.Some? && pe.value != 1.0
    ensures r.Some? && pbar.value <= 1.0 && pe.value < 1.0 ==>
      r.value <= 1.0 && (r.value == 1.0 <==> pbar.value == 1.0)
  {
    if pbar.None? || pe.None? || pe.value == 1.0 then None
    else
      KappaRatio(pbar.value, pe.value);
      Some((pbar.value - pe.value) / (1.0 - pe.value))
  }

  lemma KappaRatio(pbar: real, pe: real)
    requires pe != 1.0
    ensures pbar <= 1.0 && pe < 1.0 ==>
      (pbar - pe) / (1.0 - pe) <= 1.0 && ((pbar - pe) / (1.0 - pe) == 1.0 <==> pbar == 1.0)
  {
    if pbar <= 1.0 && pe < 1.0 {
      QuotientAtMostOne(pbar - pe, 1.0 - pe);
    }
  }

  /** The constructor as written: it throws when a kept unit meets the
      variance loop's integer division by n·(n − 1) with fewer than two
      observers, and its variance uses the truncated pai and pei. */
  function FleissKappaAsWritten(dm: DataMatrix): (r: Result<Estimate, FleissError>)
    requires WellFormed(dm)
    ensures r.Failure? <==> |Kept(dm.matrix)| > 0 && |dm.values| > 0 && |dm.observers| < 2
    ensures r.Success? ==> r.value.units == |Kept(dm.matrix)|
    ensures r.Success? ==> r.value.value == FleissKappa(dm).value
  {
    var n := |dm.observers|;
    var k := |dm.values|;
    var nij := Nij(Kept(dm.matrix), k);
    var value := Kappa(PBar(nij, n), Pe(nij, n, k));
    var variance := VarianceAsWritten(nij, n, k, Pe(nij, n, k), value);
    if variance.Failure? then Failure(variance.error)
    else Success(Estimate(value, variance.value, |nij|))
  }

  /** The constructor with pai and pei computed in floating point: κ is at
      most 1, and the variance, when defined, is non-negative. */
  function FleissKappa(dm: DataMatrix): (e: Estimate)
    requires WellFormed(dm)
    ensures e.units == |Kept(dm.matrix)|
    ensures e.value.Some? ==> e.value.value <= 1.0
    ensures e.value.Some? ==> (e.value.value == 1.0 <==>
      forall i :: 0 <= i < e.units ==> Unanimous(Nij(Kept(dm.matrix), |dm.values|)[i], |dm.observers|))
    ensures e.variance.Some? ==> e.value.Some? && e.units >= 2 && e.variance.value >= 0.0
  {
    var n := |dm.observers|;
    var k := |dm.values|;
    var nij := Nij(Kept(dm.matrix), k);
    var value := Kappa(PBar(nij, n), Pe(nij, n, k));
    EstimateBound(dm);
    Estimate(value, Variance(nij, n, k, Pe(nij, n, k), value), |nij|)
  }

  /** κ is at most 1, and it is 1 exactly when every kept unit is unanimous. */
  lemma EstimateBound(dm: DataMatrix)
    requires WellFormed(dm)
    ensures var nij := Nij(Kept(dm.matrix), |dm.values|);
      var value := Kappa(PBar(nij, |dm.observers|), Pe(nij, |dm.observers|, |dm.values|));
      value.Some? ==> (value.value <= 1.0 &&
        (value.value == 1.0 <==> forall i :: 0 <= i < |nij| ==> Unanimous(nij[i], |dm.observers|)))
  {
    var n := |dm.observers|;
    var k := |dm.values|;
    var nij := Nij(Kept(dm.matrix), k);
    NijRows(dm.matrix, n, k);
    if PBar(nij, n).Some? {
      assert n * |nij| != 0;
      assert Pe(nij, n, k).Some?;
    }
  }

  // ---------------------------------------------------------------------
  // Variance (Gwet, formula 33)

  /** Category by category, n_ij (n_ij − 1) / (n (n − 1)) truncated. */
  function PairQuotients(counts: seq<int>, n: int): (q: seq<int>)
    requires Pairs(n) != 0 || |counts| == 0
    ensures |q| == |counts|
    ensures forall j :: 0 <= j < |counts| ==> q[j] == JavaDiv(counts[j] * (counts[j] - 1), Pairs(n))
  {
    seq(|counts|, j requires 0 <= j < |counts| => JavaDiv(counts[j] * (counts[j] - 1), Pairs(n)))
  }

  /** Category by category, n_ij / n truncated. */
  function CountQuotients(counts: seq<int>, n: int): (q: seq<int>)
    requires n != 0 || |counts| == 0
    ensures |q| == |counts|
    ensures forall j :: 0 <= j < |counts| ==> q[j] == JavaDiv(counts[j], n)
  {
    seq(|counts|, j requires 0 <= j < |counts| => JavaDiv(counts[j], n))
  }

  /** Category by category, whether it got every rating. */
  function Indicators(counts: seq<int>, n: int): (f: seq<int>)
    ensures |f| == |counts|
    ensures forall j :: 0 <= j < |counts| ==> f[j] == if counts[j] == n then 1 else 0
  {
    seq(|counts|, j requires 0 <= j < |counts| => if counts[j] == n then 1 else 0)
  }

  /** pai as written: Σ_j (n_ij (n_ij − 1)) / (n (n − 1)) with each
      quotient truncated by Java's integer division. On a complete unit it
      is 1 when the unit is unanimous and 0 otherwise. */
  function TruncatedAgreement(counts: seq<int>, n: int): (a: int)
    requires Pairs(n) != 0 || |counts| == 0
    ensures NonNegativeInts(counts) && SumInt(counts) == n && n >= 2 ==>
      a == if Unanimous(counts, n) then 1 else 0
  {
    PairQuotientsIndicate(counts, n);
    SumInt(PairQuotients(counts, n))
  }

  /** pei before scaling, as written: Σ_j n_ij / n, each quotient truncated.
      On a complete unit it is 1 when the unit is unanimous and 0
      otherwise. */
  function TruncatedMajority(counts: seq<int>, n: int): (m: int)
    requires n != 0 || |counts| == 0
    ensures NonNegativeInts(counts) && SumInt(counts) == n && n >= 2 ==>
      m == if Unanimous(counts, n) then 1 else 0
  {
    CountQuotientsIndicate(counts, n);
    SumInt(CountQuotients(counts, n))
  }

  /** Because each quotient is truncated, only a category holding all n
      ratings contributes to pai, and it contributes 1. */
  lemma PairQuotientsIndicate(counts: seq<int>, n: int)
    requires Pairs(n) != 0 || |counts| == 0
    ensures NonNegativeInts(counts) && SumInt(counts) == n && n >= 2 ==>
      SumInt(PairQuotients(counts, n)) == if Unanimous(counts, n) then 1 else 0
  {
    if NonNegativeInts(counts) && SumInt(counts) == n && n >= 2 {
      var full := Indicators(counts, n);
      var pairs := PairQuotients(counts, n);
      forall j | 0 <= j < |counts| ensures pairs[j] == full[j] {
        SumIntTermBound(counts, j);
        PairsBetween(counts[j], n);
        UnitQuotient(counts[j] * (counts[j] - 1), Pairs(n));
      }
      assert pairs == full;
      FullIndicator(counts, n, full);
    }
  }

  /** Likewise only a category holding all n ratings contributes to pei. */
  lemma CountQuotientsIndicate(counts: seq<int>, n: int)
    requires n != 0 || |counts| == 0
    ensures NonNegativeInts(counts) && SumInt(counts) == n && n >= 2 ==>
      SumInt(CountQuotients(counts, n)) == if Unanimous(counts, n) then 1 else 0
  {
    if NonNegativeInts(counts) && SumInt(counts) == n && n >= 2 {
      var full := Indicators(counts, n);
      var singles := CountQuotients(counts, n);
      forall j | 0 <= j < |counts| ensures singles[j] == full[j] {
        SumIntTermBound(counts, j);
        UnitQuotient(counts[j], n);
      }
      assert singles == full;
      FullIndicator(counts, n, full);
    }
  }

  /** 0 ≤ c (c − 1) ≤ n (n − 1), with equality exactly at c = n. */
  lemma PairsBetween(c: int, n: int)
    requires 0 <= c <= n && n >= 2
    ensures 0 <= c * (c - 1) <= Pairs(n)
    ensures c * (c - 1) == Pairs(n) <==> c == n
  {
    if 0 < c < n {
      assert c * (c - 1) <= c * (n - 1);
      assert c * (n - 1) < n * (n - 1);
    }
  }

  /** ⌊a / b⌋ for 0 ≤ a ≤ b is 1 when a = b and 0 below. */
  lemma UnitQuotient(a: int, b: int)
    requires 0 <= a <= b && b > 0
    ensures JavaDiv(a, b) == (if a == b then 1 else 0)
  {
    JavaDivNonNegative(a, b);
  }

  /** Σ_j [n_j = n] is 1 for a unanimous unit and 0 otherwise. */
  lemma FullIndicator(counts: seq<int>, n: int, full: seq<int>)
    requires NonNegativeInts(counts) && SumInt(counts) == n && n >= 2
    requires |full| == |counts|
    requires forall j :: 0 <= j < |counts| ==> full[j] == if counts[j] == n then 1 else 0
    ensures SumInt(full) == if Unanimous(counts, n) then 1 else 0
  {
    if Unanimous(counts, n) {
      var j :| 0 <= j < |counts| && counts[j] == n;
      OnlyCategory(counts, n, j);
      SumIntSingle(full, j);
    } else {
      SumIntZeroes(full);
    }
  }

  /** pai in floating point: on a complete unit, the share of agreeing
      ordered pairs of observers, (Σ_j n_j² − n) / (n (n − 1)); it lies in
      [0, 1] and is 1 exactly for a unanimous unit. */
  function Agreement(counts: seq<int>, n: int): (a: real)
    requires Pairs(n) != 0 || |counts| == 0
    ensures NonNegativeInts(counts) && SumInt(counts) == n && n >= 2 ==>
      a == (SumInt(IntSquares(counts)) - n) as real / Pairs(n) as real &&
      0.0 <= a <= 1.0 && (a == 1.0 <==> Unanimous(counts, n))
  {
    AgreementFacts(counts, n);
    Sum(PairShares(counts, n))
  }

  /** Category by category, the share of agreeing pairs n_ij (n_ij − 1) / (n (n − 1)). */
  function PairShares(counts: seq<int>, n: int): (r: seq<real>)
    requires Pairs(n) != 0 || |counts| == 0
    ensures |r| == |counts|
    ensures forall j :: 0 <= j < |counts| ==> r[j] == (counts[j] * (counts[j] - 1)) as real / Pairs(n) as real
  {
    seq(|counts|, j requires 0 <= j < |counts| => (counts[j] * (counts[j] - 1)) as real / Pairs(n) as real)
  }

  /** pei before scaling, in floating point: Σ_j n_ij / n, which is 1 on a
      unit that holds all n ratings. */
  function Majority(counts: seq<int>, n: int): (m: real)
    requires n != 0 || |counts| == 0
    ensures SumInt(counts) == n && n != 0 ==> m == 1.0
  {
    if SumInt(counts) == n && n != 0 then
      SharesOf(counts, n, CountShares(counts, n));
      DivideSelf(n as real);
      Sum(CountShares(counts, n))
    else Sum(CountShares(counts, n))
  }

  /** Category by category, the share n_ij / n of the unit's ratings. */
  function CountShares(counts: seq<int>, n: int): (r: seq<real>)
    requires n != 0 || |counts| == 0
    ensures |r| == |counts|
    ensures forall j :: 0 <= j < |counts| ==> r[j] == counts[j] as real / n as real
  {
    seq(|counts|, j requires 0 <= j < |counts| => counts[j] as real / n as real)
  }

  /** Unit by unit, the floating-point pai. */
  function Agreements(nij: seq<seq<int>>, n: int): (r: seq<real>)
    requires Pairs(n) != 0 || |nij| == 0 || forall i :: 0 <= i < |nij| ==> |nij[i]| == 0
    ensures |r| == |nij|
    ensures forall i :: 0 <= i < |nij| ==> r[i] == Agreement(nij[i], n)
  {
    seq(|nij|, i requires 0 <= i < |nij| => Agreement(nij[i], n))
  }

  /** On a complete unit the pair shares add up to (Σ_j n_j² − n) / (n (n − 1)),
      a number in [0, 1] that is 1 exactly for a unanimous unit. */
  lemma AgreementFacts(counts: seq<int>, n: int)
    requires Pairs(n) != 0 || |counts| == 0
    ensures NonNegativeInts(counts) && SumInt(counts) == n && n >= 2 ==>
      var a := Sum(PairShares(counts, n));
      a == (SumInt(IntSquares(counts)) - n) as real / Pairs(n) as real &&
      0.0 <= a <= 1.0 && (a == 1.0 <==> Unanimous(counts, n))
  {
    if NonNegativeInts(counts) && SumInt(counts) == n && n >= 2 {
      PairSharesTotal(counts, n);
      RowSquares(counts, n);
      PBarArithmetic(SumInt(IntSquares(counts)), 1, n);
    }
  }

  /** Σ_j n_j (n_j − 1) / (n (n − 1)) = (Σ_j n_j² − n) / (n (n − 1)). */
  lemma PairSharesTotal(counts: seq<int>, n: int)
    requires SumInt(counts) == n && n >= 2
    ensures Sum(PairShares(counts, n)) == (SumInt(IntSquares(counts)) - n) as real / Pairs(n) as real
  {
    var pairs := seq(|counts|, j requires 0 <= j < |counts| => counts[j] * (counts[j] - 1));
    var sq := IntSquares(counts);
    var minus := seq(|counts|, j requires 0 <= j < |counts| => -counts[j]);
    SumIntAdd(sq, minus, pairs);
    SumIntScale(counts, -1, minus);
    SharesOf(pairs, Pairs(n), PairShares(counts, n));
  }

  /** Σ_j c_j / d = (Σ_j c_j) / d. */
  lemma SharesOf(c: seq<int>, d: int, p: seq<real>)
    requires d != 0 && |p| == |c|
    requires forall j :: 0 <= j < |c| ==> p[j] == c[j] as real / d as real
    ensures Sum(p) == SumInt(c) as real / d as real
  {
    var a := ToReal(c);
    assert forall j :: 0 <= j < |c| ==> p[j] == a[j] / d as real;
    SumDivide(a, d as real, p);
    SumCast(c);
  }

  /** P̄ is the mean over the kept units of the floating-point pai. */
  lemma PBarIsMeanAgreement(nij: seq<seq<int>>, n: nat, k: nat)
    requires CountTable(nij, n, k) && |nij| > 0 && n >= 2
    ensures PBar(nij, n) == Some(Sum(Agreements(nij, n)) / |nij| as real)
  {
    var N, x, p := |nij|, SquareSum(nij) - |nij| * n, Pairs(n);
    AgreementTotal(nij, n, k);
    MeanOfShares(x, p, N);
  }

  /** Σ_i pai = (Σ n_ij² − N·n) / (n (n − 1)). */
  lemma AgreementTotal(nij: seq<seq<int>>, n: nat, k: nat)
    requires CountTable(nij, n, k) && n >= 2
    ensures Sum(Agreements(nij, n)) == (SquareSum(nij) - |nij| * n) as real / Pairs(n) as real
  {
    var N := |nij|;
    var shares := Agreements(nij, n);
    var excess := Excesses(nij, n);
    forall i | 0 <= i < N ensures shares[i] == excess[i] as real / Pairs(n) as real {
      assert NonNegativeInts(nij[i]) && SumInt(nij[i]) == n;
    }
    SharesOf(excess, Pairs(n), shares);
    ExcessTotal(nij, n);
  }

  lemma ExcessTotal(nij: seq<seq<int>>, n: int)
    ensures SumInt(Excesses(nij, n)) == SquareSum(nij) - |nij| * n
  {
    SumIntAdd(UnitSquares(nij), Constant(-n, |nij|), Excesses(nij, n));
    ConstantSum(-n, |nij|);
  }

  /** Unit by unit, Σ_j n_ij² − n. */
  function Excesses(nij: seq<seq<int>>, n: int): (r: seq<int>)
    ensures |r| == |nij|
    ensures forall i :: 0 <= i < |nij| ==> r[i] == SumInt(IntSquares(nij[i])) - n
  {
    seq(|nij|, i requires 0 <= i < |nij| => SumInt(IntSquares(nij[i])) - n)
  }

  /** (x / p) / N = x / (N p). */
  lemma MeanOfShares(x: int, p: int, N: int)
    requires p != 0 && N != 0
    ensures N * p != 0
    ensures (x as real / p as real) / N as real == x as real / (N * p) as real
  {
    var P := p as real;
    var M := N as real;
    assert (N * p) as real == M * P;
    var r := (x as real / P) / M;
    assert r * M == x as real / P;
    assert (r * M) * P == x as real;
    assert r * (M * P) == x as real;
    DivisionUnique(x as real, M * P, r);
  }

  /** Two observers of three agree on a unit: the truncated pai is 0 where
      the share of agreeing pairs is 1/3. */
  lemma TruncationFinding()
    ensures TruncatedAgreement([2, 1], 3) == 0
    ensures Agreement([2, 1], 3) == 1.0 / 3.0
  {
    var counts := [2, 1];
    SumIntFront(counts);
    SumIntFront(counts[1..]);
    assert SumInt(counts) == 3;
    assert !Unanimous(counts, 3);
    var sq := IntSquares(counts);
    SumIntFront(sq);
    SumIntFront(sq[1..]);
    assert SumInt(sq) == 5;
  }

  /** One unit's term (g*_i − κ)² of the variance sum, from its pai, its
      unscaled pei, P_e and κ. */
  function Deviation(pa: real, share: real, pe: real, value: real): (d: real)
    requires pe != 1.0
    ensures d >= 0.0
  {
    var gi := (pa - pe) / (1.0 - pe);
    var gStar := gi - 2.0 * (1.0 - value) * (share * value - pe) / (1.0 - pe);
    (gStar - value) * (gStar - value)
  }

  /** Σ (g*_i − κ)² / (N (N − 1)): the mean squared deviation. With fewer
      than two units the double division by 0 gives NaN when the sum is 0
      and +Infinity when it is positive (one unit that deviates from κ);
      both are `None` here. */
  function Spread(terms: seq<real>): (v: Option<real>)
    requires NonNegative(terms)
    ensures v.Some? <==> |terms| >= 2
    ensures v.Some? ==> v.value >= 0.0
  {
    var N := |terms|;
    if Pairs(N) == 0 then None
    else
      SumNonNegative(terms);
      Some(Sum(terms) / Pairs(N) as real)
  }

  /** The variance as written: the integer division by n·(n − 1) throws once
      a kept unit and a category exist; otherwise the spread of the units'
      terms computed from the truncated pai and pei, NaN when κ or P_e is. */
  function VarianceAsWritten(nij: seq<seq<int>>, n: nat, k: nat, pe: Option<real>, value: Option<real>)
    : (r: Result<Option<real>, FleissError>)
    requires Rectangular(nij, k)
    ensures r.Failure? <==> |nij| > 0 && k > 0 && n < 2
    ensures r.Success? && r.value.Some? ==> |nij| >= 2 && value.Some? && r.value.value >= 0.0
  {
    var N := |nij|;
    if N > 0 && k > 0 && Pairs(n) == 0 then Failure(DivisionByZero)
    else if value.None? || pe.None? || pe.value == 1.0 then Success(None)
    else
      var terms := seq(N, i requires 0 <= i < N =>
        Deviation(TruncatedAgreement(nij[i], n) as real, TruncatedMajority(nij[i], n) as real, pe.value, value.value));
      assert NonNegative(terms);
      Success(Spread(terms))
  }

  /** The variance with pai and pei in floating point: NaN when κ or P_e is,
      when fewer than two units are kept, or when a category exists and
      fewer than two observers do (0/0 in pai). Only pai's truncation is
      corrected: pei keeps the source's shape, Σ_j n_ij / n times κ, which
      is κ on every complete unit, so its chance term is the same for every
      unit. */
  function Variance(nij: seq<seq<int>>, n: nat, k: nat, pe: Option<real>, value: Option<real>)
    : (r: Option<real>)
    requires Rectangular(nij, k)
    ensures r.Some? ==> |nij| >= 2 && value.Some? && r.value >= 0.0
  {
    var N := |nij|;
    if value.None? || pe.None? || pe.value == 1.0 || (k > 0 && Pairs(n) == 0) then None
    else
      var terms := seq(N, i requires 0 <= i < N =>
        Deviation(Agreement(nij[i], n), Majority(nij[i], n), pe.value, value.value));
      assert NonNegative(terms);
      Spread(terms)
  }

  /** `confidenceInterval(p)` at the two-sided level 1 − (1 − p)/2. */
  function FleissInterval(cdfinv: real -> real, e: Estimate, se: Option<real>, p: real)
    : (r: Result<(Option<real>, Option<real>), TestError>)
    ensures r.Success? <==> -1.0 < p < 1.0
    ensures r.Success? && r.value.0.Some? ==> r.value.1.Some? && -1.0 <= r.value.0.value && r.value.1.value <= 1.0
  {
    Interval(cdfinv, e.value, se, TwoSided(p))
  }
}
