/** Cohen's kappa for two observers A and B: the contingency table of the
    units both rated, its marginals, the observed and chance agreement
    counts fo and fc, the point estimate, and the large-sample variance of
    Fleiss, Cohen and Everitt (1969). */
module Cohen {
  import opened Common
  import opened Sums
  import opened DataMatrices
  import opened NormalTests

  /** `IndexOutOfBoundsException` from `getObservers().get(A)`. */
  datatype CohenError = ObserverOutOfRange

  /** What the constructor leaves behind: the number n of units both
      observers rated, the diagonal count fo, the truncated chance count fc,
      κ and its variance (NaN as `None`). */
  datatype Estimate = Estimate(n: nat, fo: int, fc: int, value: Option<real>, variance: Option<real>)

  /** The (A, B) value pair of every unit, -1 for a missing value. */
  function Ratings(matrix: seq<seq<int>>, a: nat, b: nat): (ps: seq<(int, int)>)
    requires forall u :: 0 <= u < |matrix| ==> a < |matrix[u]| && b < |matrix[u]|
    ensures |ps| == |matrix|
    ensures forall u :: 0 <= u < |matrix| ==> ps[u] == (matrix[u][a], matrix[u][b])
  {
    seq(|matrix|, u requires 0 <= u < |matrix| => (matrix[u][a], matrix[u][b]))
  }

  /** Every pair is -1 or a value index below w on both sides. */
  predicate InRange(ps: seq<(int, int)>, w: nat)
  {
    forall u :: 0 <= u < |ps| ==> -1 <= ps[u].0 < w && -1 <= ps[u].1 < w
  }

  /** Both observers rated the unit. */
  predicate Rated(p: (int, int))
  {
    p.0 >= 0 && p.1 >= 0
  }

  /** The same pairs with the observers' roles exchanged. */
  function Swapped(ps: seq<(int, int)>): (qs: seq<(int, int)>)
    ensures |qs| == |ps|
    ensures forall u :: 0 <= u < |ps| ==> qs[u] == (ps[u].1, ps[u].0)
  {
    seq(|ps|, u requires 0 <= u < |ps| => (ps[u].1, ps[u].0))
  }

  predicate Square(t: seq<seq<int>>, w: nat)
  {
    |t| == w && Rectangular(t, w)
  }

  // ---------------------------------------------------------------------
  // The contingency table

  /** The constructor's loop over the units: the cell of every unit both
      observers rated goes up by 1. */
  function Fill(ps: seq<(int, int)>, w: nat): (t: seq<seq<int>>)
    requires InRange(ps, w)
    ensures Square(t, w)
  {
    if |ps| == 0 then seq(w, x => seq(w, y => 0))
    else
      var t := Fill(ps[..|ps| - 1], w);
      var p := ps[|ps| - 1];
      if Rated(p) then t[p.0 := t[p.0][p.1 := t[p.0][p.1] + 1]] else t
  }

  /** The table the constructor fills: cell (x, y) counts the units A rated
      x and B rated y; units either observer left blank are skipped. */
  function Tally(ps: seq<(int, int)>, w: nat): (t: seq<seq<int>>)
    requires InRange(ps, w)
    ensures Square(t, w)
    ensures forall x, y :: 0 <= x < w && 0 <= y < w ==> t[x][y] == multiset(ps)[(x, y)]
  {
    FillCells(ps, w);
    Fill(ps, w)
  }

  /** Cell (x, y) of the filled table is the number of units A rated x and
      B rated y. */
  lemma {:induction false} FillCells(ps: seq<(int, int)>, w: nat)
    requires InRange(ps, w)
    ensures forall x, y :: 0 <= x < w && 0 <= y < w ==> Fill(ps, w)[x][y] == multiset(ps)[(x, y)]
  {
    if |ps| > 0 {
      var front := ps[..|ps| - 1];
      var p := ps[|ps| - 1];
      FillCells(front, w);
      assert ps == front + [p];
    }
  }

  /** The number of units both observers rated. */
  function Counted(ps: seq<(int, int)>): (n: nat)
    ensures n <= |ps|
  {
    if |ps| == 0 then 0
    else Counted(ps[..|ps| - 1]) + (if Rated(ps[|ps| - 1]) then 1 else 0)
  }

  /** The number of units both observers rated alike. */
  function Agreeing(ps: seq<(int, int)>): (n: nat)
    ensures n <= Counted(ps)
  {
    if |ps| == 0 then 0
    else
      var p := ps[|ps| - 1];
      Agreeing(ps[..|ps| - 1]) + (if Rated(p) && p.0 == p.1 then 1 else 0)
  }

  /** Every unit both observers rated got the same value from each. */
  predicate AllAgree(ps: seq<(int, int)>)
  {
    forall u :: 0 <= u < |ps| && Rated(ps[u]) ==> ps[u].0 == ps[u].1
  }

  /** The agreeing units are all the counted ones exactly when no counted
      unit disagrees. */
  lemma {:induction false} AgreeingAll(ps: seq<(int, int)>)
    ensures Agreeing(ps) == Counted(ps) <==> AllAgree(ps)
  {
    if |ps| > 0 {
      var front := ps[..|ps| - 1];
      AgreeingAll(front);
      assert forall u :: 0 <= u < |front| ==> front[u] == ps[u];
    }
  }

  /** The sum of the cells of a table. */
  function Total(t: seq<seq<int>>): int
  {
    SumInt(IntRowSums(t))
  }

  /** fo: the diagonal of the table. */
  function Trace(t: seq<seq<int>>, w: nat): int
    requires Square(t, w)
  {
    SumInt(seq(w, v requires 0 <= v < w => t[v][v]))
  }

  /** The table counts every rated unit once: its cells add up to n, and its
      diagonal to the agreeing units. */
  lemma TallyCounts(ps: seq<(int, int)>, w: nat)
    requires InRange(ps, w)
    ensures Total(Tally(ps, w)) == Counted(ps)
    ensures Trace(Tally(ps, w), w) == Agreeing(ps)
  {
    FillCounts(ps, w);
  }

  lemma {:induction false} FillCounts(ps: seq<(int, int)>, w: nat)
    requires InRange(ps, w)
    ensures Total(Fill(ps, w)) == Counted(ps)
    ensures Trace(Fill(ps, w), w) == Agreeing(ps)
  {
    if |ps| == 0 {
      EmptyTable(w);
    } else {
      var front := ps[..|ps| - 1];
      var p := ps[|ps| - 1];
      FillCounts(front, w);
      if Rated(p) {
        CellIncrement(Fill(front, w), w, p.0, p.1);
      }
    }
  }

  /** The empty table has nothing in it. */
  lemma EmptyTable(w: nat)
    ensures Total(Fill([], w)) == 0 && Trace(Fill([], w), w) == 0
  {
    var t := Fill([], w);
    forall x | 0 <= x < w ensures IntRowSums(t)[x] == 0 {
      SumIntZeroes(t[x]);
    }
    SumIntZeroes(IntRowSums(t));
    SumIntZeroes(seq(w, v requires 0 <= v < w => t[v][v]));
  }

  /** Adding 1 to cell (x, y) adds 1 to the total, and 1 to the trace when
      the cell is on the diagonal. */
  lemma CellIncrement(t: seq<seq<int>>, w: nat, x: nat, y: nat)
    requires Square(t, w) && x < w && y < w
    ensures var t' := t[x := t[x][y := t[x][y] + 1]];
      Square(t', w) &&
      Total(t') == Total(t) + 1 &&
      Trace(t', w) == Trace(t, w) + (if x == y then 1 else 0)
  {
    CellIncrementTotal(t, w, x, y);
    CellIncrementTrace(t, w, x, y);
  }

  lemma CellIncrementTotal(t: seq<seq<int>>, w: nat, x: nat, y: nat)
    requires Square(t, w) && x < w && y < w
    ensures Total(t[x := t[x][y := t[x][y] + 1]]) == Total(t) + 1
  {
    var t' := t[x := t[x][y := t[x][y] + 1]];
    SumIntUpdate(t[x], y, 1);
    assert IntRowSums(t') == IntRowSums(t)[x := IntRowSums(t)[x] + 1];
    SumIntUpdate(IntRowSums(t), x, 1);
  }

  lemma CellIncrementTrace(t: seq<seq<int>>, w: nat, x: nat, y: nat)
    requires Square(t, w) && x < w && y < w
    ensures Square(t[x := t[x][y := t[x][y] + 1]], w)
    ensures Trace(t[x := t[x][y := t[x][y] + 1]], w) == Trace(t, w) + (if x == y then 1 else 0)
  {
    var t' := t[x := t[x][y := t[x][y] + 1]];
    var diagonal := seq(w, v requires 0 <= v < w => t[v][v]);
    if x == y {
      assert seq(w, v requires 0 <= v < w => t'[v][v]) == diagonal[x := diagonal[x] + 1];
      SumIntUpdate(diagonal, x, 1);
    } else {
      assert seq(w, v requires 0 <= v < w => t'[v][v]) == diagonal;
    }
  }

  /** Exchanging the observers transposes the table. */
  lemma {:induction false} TallySwapped(ps: seq<(int, int)>, w: nat)
    requires InRange(ps, w)
    ensures InRange(Swapped(ps), w)
    ensures Tally(Swapped(ps), w) == Transpose(Tally(ps, w), w)
  {
    var t := Tally(ps, w);
    var s := Tally(Swapped(ps), w);
    forall x, y | 0 <= x < w && 0 <= y < w ensures s[x][y] == Transpose(t, w)[x][y] {
      MultisetSwapped(ps, x, y);
    }
    TablesEqual(s, Transpose(t, w), w);
  }

  /** A pair occurs in the swapped sequence as often as its mirror image
      occurs in the original. */
  lemma {:induction false} MultisetSwapped(ps: seq<(int, int)>, x: int, y: int)
    ensures multiset(Swapped(ps))[(x, y)] == multiset(ps)[(y, x)]
  {
    if |ps| > 0 {
      var front := ps[..|ps| - 1];
      MultisetSwapped(front, x, y);
      assert ps == front + [ps[|ps| - 1]];
      assert Swapped(ps) == Swapped(front) + [Swapped(ps)[|ps| - 1]];
    }
  }

  // ---------------------------------------------------------------------
  // Marginals, fo and fc

  /** A table of counts. */
  predicate Counts(t: seq<seq<int>>, w: nat)
  {
    Square(t, w) && forall x, y :: 0 <= x < w && 0 <= y < w ==> t[x][y] >= 0
  }

  /** fiA: the column sums, the number of rated units B put in each value.
      On a table of counts they are non-negative and add up to the table's
      total. */
  function MarginalA(t: seq<seq<int>>, w: nat): (fi: seq<int>)
    requires Square(t, w)
    ensures |fi| == w
    ensures Counts(t, w) ==> NonNegativeInts(fi) && SumInt(fi) == Total(t)
  {
    MarginalsTotal(t, w);
    IntColumnSums(t, w)
  }

  /** fiB: the row sums, the number of rated units A put in each value. On
      a table of counts they are non-negative. */
  function MarginalB(t: seq<seq<int>>, w: nat): (fi: seq<int>)
    requires Square(t, w)
    ensures |fi| == w
    ensures Counts(t, w) ==> NonNegativeInts(fi) && SumInt(fi) == Total(t)
  {
    MarginalsTotal(t, w);
    IntRowSums(t)
  }

  /** The column and the row sums of a table of counts are non-negative,
      and both add up to the table's total. */
  lemma MarginalsTotal(t: seq<seq<int>>, w: nat)
    requires Square(t, w)
    ensures Counts(t, w) ==> NonNegativeInts(IntColumnSums(t, w)) && NonNegativeInts(IntRowSums(t))
    ensures SumInt(IntColumnSums(t, w)) == Total(t)
  {
    SumIntExchange(t, w);
    if Counts(t, w) {
      forall v | 0 <= v < w ensures IntColumnSums(t, w)[v] >= 0 && IntRowSums(t)[v] >= 0 {
        assert NonNegativeInts(Column(t, v));
        SumIntNonNegative(Column(t, v));
        assert NonNegativeInts(t[v]);
        SumIntNonNegative(t[v]);
      }
    }
  }

  /** Exchanging the observers exchanges the marginals and keeps the
      diagonal. */
  lemma SwappedMarginals(t: seq<seq<int>>, w: nat)
    requires Square(t, w)
    ensures Square(Transpose(t, w), w)
    ensures MarginalA(Transpose(t, w), w) == MarginalB(t, w)
    ensures MarginalB(Transpose(t, w), w) == MarginalA(t, w)
    ensures Trace(Transpose(t, w), w) == Trace(t, w)
  {
    var s := Transpose(t, w);
    forall v | 0 <= v < w ensures Column(s, v) == t[v] {
    }
    assert seq(w, v requires 0 <= v < w => s[v][v]) == seq(w, v requires 0 <= v < w => t[v][v]);
  }

  /** Value by value, ⌊fiA[v]·fiB[v] / n⌋. */
  function ChanceTerms(fiA: seq<int>, fiB: seq<int>, n: int): (terms: seq<int>)
    requires |fiA| == |fiB| && n != 0
    ensures |terms| == |fiA|
    ensures forall v :: 0 <= v < |fiA| ==> terms[v] == JavaDiv(fiA[v] * fiB[v], n)
  {
    seq(|fiA|, v requires 0 <= v < |fiA| => JavaDiv(fiA[v] * fiB[v], n))
  }

  /** Marginals of n rated units: non-negative, each adding up to n. */
  predicate MarginalsOf(fiA: seq<int>, fiB: seq<int>, n: int)
  {
    NonNegativeInts(fiA) && NonNegativeInts(fiB) && SumInt(fiA) == n && SumInt(fiB) == n
  }

  /** fc = Σ_v ⌊fiA[v]·fiB[v] / n⌋, each product divided by n in integers.
      For the marginals of n > 0 rated units the chance count lies in
      [0, n]. */
  function Chance(fiA: seq<int>, fiB: seq<int>, n: int): (fc: int)
    requires |fiA| == |fiB| && n != 0
    ensures n > 0 && MarginalsOf(fiA, fiB, n) ==> 0 <= fc <= n
  {
    ChanceBound(fiA, fiB, n);
    SumInt(ChanceTerms(fiA, fiB, n))
  }

  /** The truncated shares of n add up to a count in [0, n]. */
  lemma ChanceBound(fiA: seq<int>, fiB: seq<int>, n: int)
    requires |fiA| == |fiB| && n != 0
    ensures n > 0 && MarginalsOf(fiA, fiB, n) ==> 0 <= SumInt(ChanceTerms(fiA, fiB, n)) <= n
  {
    if n > 0 && MarginalsOf(fiA, fiB, n) {
      var terms := ChanceTerms(fiA, fiB, n);
      forall v | 0 <= v < |fiA| ensures 0 <= terms[v] <= fiA[v] {
        SumIntTermBound(fiB, v);
        ProductShare(fiA[v], fiB[v], n);
      }
      assert NonNegativeInts(terms);
      SumIntNonNegative(terms);
      SumIntMonotone(terms, fiA);
    }
  }

  /** ⌊a·b / n⌋ ≤ a when 0 ≤ b ≤ n. */
  lemma ProductShare(a: int, b: int, n: int)
    requires a >= 0 && 0 <= b <= n && n > 0
    ensures 0 <= JavaDiv(a * b, n) <= a
  {
    assert 0 <= a * b <= a * n;
    JavaDivNonNegative(a * b, n);
    QuotientBelow(a * b, a, n);
  }

  lemma QuotientBelow(x: int, a: int, n: int)
    requires 0 <= x <= a * n && n > 0
    ensures 0 <= x / n <= a
  {
    var q := x / n;
    assert q * n <= x;
  }

  /** fc is the same whichever observer is A. */
  lemma ChanceSwapped(fiA: seq<int>, fiB: seq<int>, n: int)
    requires |fiA| == |fiB| && n != 0
    ensures Chance(fiB, fiA, n) == Chance(fiA, fiB, n)
  {
    assert ChanceTerms(fiB, fiA, n) == ChanceTerms(fiA, fiB, n);
  }

  // ---------------------------------------------------------------------
  // The point estimate and its variance

  /** κ = (fo − fc) / (n − fc); NaN when no unit was rated by both, and an
      infinity or NaN when fc = n. With fo, fc ≤ n, κ is at most 1, and 1
      exactly when fo = n. */
  function Kappa(n: int, fo: int, fc: int): (k: Option<real>)
    ensures k.Some? <==> n != 0 && fc != n
    ensures k.Some? && fo <= n && fc <= n ==> k.value <= 1.0 && (k.value == 1.0 <==> fo == n)
  {
    if n == 0 then None
    else
      KappaRatio(n, fo, fc);
      Quotient((fo - fc) as real, (n - fc) as real)
  }

  lemma KappaRatio(n: int, fo: int, fc: int)
    ensures fo <= n && fc < n ==>
      (fo - fc) as real / (n - fc) as real <= 1.0 &&
      ((fo - fc) as real / (n - fc) as real == 1.0 <==> fo == n)
  {
    if fo <= n && fc < n {
      QuotientAtMostOne((fo - fc) as real, (n - fc) as real);
    }
  }

  /** count/n · s², the weight a table cell gets in either term. */
  function Weighted(count: int, n: real, s: real): real
    requires n != 0.0
  {
    count as real / n * s * s
  }

  /** A table of reals: cell (i, j) off the diagonal holds
      t[i][j]/n · (fiA[i]/n + fiB[j]/n)², the diagonal holds 0. */
  function OffDiagonal(t: seq<seq<int>>, w: nat, fiA: seq<int>, fiB: seq<int>, n: real): (r: seq<seq<real>>)
    requires Square(t, w) && |fiA| == w && |fiB| == w && n != 0.0
    ensures |r| == w && Rectangular(r, w)
  {
    seq(w, i requires 0 <= i < w => seq(w, j requires 0 <= j < w =>
      if i == j then 0.0 else Weighted(t[i][j], n, fiA[i] as real / n + fiB[j] as real / n)))
  }

  /** The factor squared in the first term for value i:
      (1 − pc) − (fiA[i]/n + fiB[i]/n)(1 − po). */
  function Spread(a: int, b: int, n: real, po: real, pc: real): real
    requires n != 0.0
  {
    (1.0 - pc) - (a as real / n + b as real / n) * (1.0 - po)
  }

  /** The first term: Σ_i t[i][i]/n · ((1 − pc) − (fiA[i]/n + fiB[i]/n)(1 − po))². */
  function DiagonalTerm(t: seq<seq<int>>, w: nat, fiA: seq<int>, fiB: seq<int>, n: real, po: real, pc: real): real
    requires Square(t, w) && |fiA| == w && |fiB| == w && n != 0.0
  {
    Sum(seq(w, i requires 0 <= i < w => Weighted(t[i][i], n, Spread(fiA[i], fiB[i], n, po, pc))))
  }

  /** The second term's sum Σ_{i≠j} t[i][j]/n · (fiA[i]/n + fiB[j]/n)². */
  function OffSum(t: seq<seq<int>>, w: nat, n: real): real
    requires Square(t, w) && n != 0.0
  {
    Sum(RowSums(OffDiagonal(t, w, MarginalA(t, w), MarginalB(t, w), n)))
  }

  /** The bracketed expression of the variance over n·(1 − pc)⁴, with
      po = fo/n and pc = fc/n; an infinity or NaN when pc = 1. */
  function Equation13(term1: real, offSum: real, n: int, fo: int, fc: int): (v: Option<real>)
    requires n != 0
    ensures v.Some? <==> fc != n
  {
    var nr := n as real;
    var po := fo as real / nr;
    var pc := fc as real / nr;
    var term2 := offSum * (1.0 - po) * (1.0 - po);
    var term3 := po * pc - 2.0 * pc + po;
    var toFourth := 1.0 - pc;
    ChanceShareOne(fc, n);
    // dividing by n and then four times by 1 − pc is, in real arithmetic,
    // the division by n·(1 − pc)⁴
    if toFourth == 0.0 then None
    else Some((term1 + term2 - term3 * term3) / nr / toFourth / toFourth / toFourth / toFourth)
  }

  lemma ChanceShareOne(fc: int, n: int)
    requires n != 0
    ensures 1.0 - fc as real / n as real == 0.0 <==> fc == n
  {
    var pc := fc as real / n as real;
    assert pc * n as real == fc as real;
  }

  /** Equation 13 of Fleiss, Cohen and Everitt (1969): NaN when no unit was
      rated by both, and an infinity or NaN when pc = 1. */
  function Variance(t: seq<seq<int>>, w: nat, n: int, fo: int, fc: int): (v: Option<real>)
    requires Square(t, w)
    ensures v.Some? <==> n != 0 && fc != n
  {
    if n == 0 then None
    else Equation13(
      DiagonalTerm(t, w, MarginalA(t, w), MarginalB(t, w), n as real, fo as real / n as real, fc as real / n as real),
      OffSum(t, w, n as real), n, fo, fc)
  }

  /** The variance is the same whichever observer is A: the first term is
      symmetric in the marginals, and the second sums the transposed
      off-diagonal table. */
  lemma VarianceSwapped(t: seq<seq<int>>, w: nat, n: int, fo: int, fc: int)
    requires Square(t, w)
    ensures Square(Transpose(t, w), w)
    ensures Variance(Transpose(t, w), w, n, fo, fc) == Variance(t, w, n, fo, fc)
  {
    SwappedMarginals(t, w);
    if n != 0 {
      var nr := n as real;
      DiagonalTermSwapped(t, w, nr, fo as real / nr, fc as real / nr);
      OffSumSwapped(t, w, nr);
    }
  }

  lemma DiagonalTermSwapped(t: seq<seq<int>>, w: nat, n: real, po: real, pc: real)
    requires Square(t, w) && n != 0.0
    ensures Square(Transpose(t, w), w)
    ensures DiagonalTerm(Transpose(t, w), w, MarginalA(Transpose(t, w), w), MarginalB(Transpose(t, w), w), n, po, pc)
      == DiagonalTerm(t, w, MarginalA(t, w), MarginalB(t, w), n, po, pc)
  {
    var s := Transpose(t, w);
    SwappedMarginals(t, w);
    var fiA := MarginalA(t, w);
    var fiB := MarginalB(t, w);
    forall i | 0 <= i < w ensures Spread(fiB[i], fiA[i], n, po, pc) == Spread(fiA[i], fiB[i], n, po, pc) {
    }
    assert seq(w, i requires 0 <= i < w => Weighted(s[i][i], n, Spread(fiB[i], fiA[i], n, po, pc)))
      == seq(w, i requires 0 <= i < w => Weighted(t[i][i], n, Spread(fiA[i], fiB[i], n, po, pc)));
  }

  lemma OffSumSwapped(t: seq<seq<int>>, w: nat, n: real)
    requires Square(t, w) && n != 0.0
    ensures Square(Transpose(t, w), w)
    ensures OffSum(Transpose(t, w), w, n) == OffSum(t, w, n)
  {
    SwappedMarginals(t, w);
    var off := OffDiagonal(t, w, MarginalA(t, w), MarginalB(t, w), n);
    OffDiagonalSwapped(t, w, MarginalA(t, w), MarginalB(t, w), n);
    assert RowSums(Transpose(off, w)) == ColumnSums(off, w);
    SumExchange(off, w);
  }

  /** Transposing the counts and exchanging the marginals transposes the
      off-diagonal table. */
  lemma OffDiagonalSwapped(t: seq<seq<int>>, w: nat, fiA: seq<int>, fiB: seq<int>, n: real)
    requires Square(t, w) && |fiA| == w && |fiB| == w && n != 0.0
    ensures Square(Transpose(t, w), w)
    ensures OffDiagonal(Transpose(t, w), w, fiB, fiA, n) == Transpose(OffDiagonal(t, w, fiA, fiB, n), w)
  {
    var off := OffDiagonal(t, w, fiA, fiB, n);
    var s := OffDiagonal(Transpose(t, w), w, fiB, fiA, n);
    forall i, j | 0 <= i < w && 0 <= j < w ensures s[i][j] == Transpose(off, w)[i][j] {
    }
    TablesEqual(s, Transpose(off, w), w);
  }

  // ---------------------------------------------------------------------
  // The constructor and the tests

  /** Every unit both observers rated got the same value from each. */
  predicate Unanimous(dm: DataMatrix, a: nat, b: nat)
    requires WellFormed(dm) && a < |dm.observers| && b < |dm.observers|
  {
    forall u :: 0 <= u < |dm.matrix| && dm.matrix[u][a] >= 0 && dm.matrix[u][b] >= 0 ==>
      dm.matrix[u][a] == dm.matrix[u][b]
  }

  /** The constructor for observers A and B. */
  function CohenKappa(dm: DataMatrix, a: int, b: int): (r: Result<Estimate, CohenError>)
    requires WellFormed(dm)
    ensures r.Failure? <==> !(0 <= a < |dm.observers| && 0 <= b < |dm.observers|)
    ensures r.Success? ==> r.value.n == Counted(Ratings(dm.matrix, a, b))
    ensures r.Success? ==> 0 <= r.value.fo <= r.value.n && 0 <= r.value.fc <= r.value.n
    ensures r.Success? ==> (r.value.value.Some? <==> r.value.n != 0 && r.value.fc != r.value.n)
    ensures r.Success? && r.value.value.Some? ==>
      (r.value.value.value <= 1.0 && (r.value.value.value == 1.0 <==> Unanimous(dm, a, b)))
  {
    if !(0 <= a < |dm.observers| && 0 <= b < |dm.observers|) then Failure(ObserverOutOfRange)
    else
      var w := |dm.values|;
      var ps := Ratings(dm.matrix, a, b);
      var t := Tally(ps, w);
      var n := Counted(ps);
      var fo := Trace(t, w);
      var fc := if n == 0 then 0 else Chance(MarginalA(t, w), MarginalB(t, w), n);
      EstimateFacts(dm, a, b);
      Success(Estimate(n, fo, fc, Kappa(n, fo, fc), Variance(t, w, n, fo, fc)))
  }

  lemma EstimateFacts(dm: DataMatrix, a: nat, b: nat)
    requires WellFormed(dm) && a < |dm.observers| && b < |dm.observers|
    ensures var ps := Ratings(dm.matrix, a, b);
      var w := |dm.values|;
      InRange(ps, w) &&
      var t := Tally(ps, w);
      var n := Counted(ps);
      var fo := Trace(t, w);
      var fc := if n == 0 then 0 else Chance(MarginalA(t, w), MarginalB(t, w), n);
      fo == Agreeing(ps) && 0 <= fc <= n &&
      (Kappa(n, fo, fc).Some? ==>
        (Kappa(n, fo, fc).value <= 1.0 && (Kappa(n, fo, fc).value == 1.0 <==> Unanimous(dm, a, b))))
  {
    var ps := Ratings(dm.matrix, a, b);
    var w := |dm.values|;
    var t := Tally(ps, w);
    var n := Counted(ps);
    TallyCounts(ps, w);
    assert Counts(t, w);
    AgreeingAll(ps);
    assert AllAgree(ps) <==> Unanimous(dm, a, b);
  }

  /** Exchanging the observers changes none of n, fo, fc, κ or the variance. */
  lemma CohenSymmetric(dm: DataMatrix, a: nat, b: nat)
    requires WellFormed(dm) && a < |dm.observers| && b < |dm.observers|
    ensures CohenKappa(dm, b, a) == CohenKappa(dm, a, b)
  {
    var w := |dm.values|;
    var ps := Ratings(dm.matrix, a, b);
    assert Ratings(dm.matrix, b, a) == Swapped(ps);
    EstimateFacts(dm, a, b);
    TallySwapped(ps, w);
    var t := Tally(ps, w);
    SwappedMarginals(t, w);
    CountedSwapped(ps);
    var n := Counted(ps);
    if n != 0 {
      ChanceSwapped(MarginalA(t, w), MarginalB(t, w), n);
    }
    VarianceSwapped(t, w, n, Trace(t, w), if n == 0 then 0 else Chance(MarginalA(t, w), MarginalB(t, w), n));
  }

  lemma {:induction false} CountedSwapped(ps: seq<(int, int)>)
    ensures Counted(Swapped(ps)) == Counted(ps)
  {
    if |ps| > 0 {
      CountedSwapped(ps[..|ps| - 1]);
      assert Swapped(ps)[..|ps| - 1] == Swapped(ps[..|ps| - 1]);
    }
  }

  /** `confidenceInterval(p)` as written: the quantile is taken at
      1 − 2(1 − p), which is only defined for 1/2 < p < 1. */
  function CohenIntervalAsWritten(cdfinv: real -> real, e: Estimate, se: Option<real>, p: real)
    : (r: Result<(Option<real>, Option<real>), TestError>)
    ensures r.Success? <==> 0.5 < p < 1.0
    ensures r.Success? ==> r.value == Clamped(e.value, se, cdfinv(1.0 - 2.0 * (1.0 - p)))
  {
    Interval(cdfinv, e.value, se, 1.0 - 2.0 * (1.0 - p))
  }

  /** `confidenceInterval(p)` at the two-sided level 1 − (1 − p)/2 that the
      Fleiss interval uses. */
  function CohenInterval(cdfinv: real -> real, e: Estimate, se: Option<real>, p: real)
    : (r: Result<(Option<real>, Option<real>), TestError>)
    ensures r.Success? <==> -1.0 < p < 1.0
    ensures r.Success? ==> r.value == Clamped(e.value, se, cdfinv(TwoSided(p)))
  {
    Interval(cdfinv, e.value, se, TwoSided(p))
  }

  /** The level as written lies below the two-sided one for every p < 1, so
      its interval is narrower than its nominal coverage; at p = 0.95 it is
      0.9 where 0.975 is meant, and at p = 0.5 the interval is refused. */
  lemma IntervalLevelFinding(cdfinv: real -> real, e: Estimate, se: Option<real>, p: real)
    requires p < 1.0
    ensures 1.0 - 2.0 * (1.0 - p) < TwoSided(p)
    ensures CohenIntervalAsWritten(cdfinv, e, se, 0.5).Failure?
    ensures CohenInterval(cdfinv, e, se, 0.5).Success?
  {
  }
}
