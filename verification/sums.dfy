/** Finite sums over sequences and tables, with the algebra the statistics
    need: splitting, scaling, exchanging the order of a double sum, and the
    square of a sum. Sums are accumulated from the front, as the Java loops
    accumulate them. */
module Sums {

  function Sum(s: seq<real>): real
  {
    if |s| == 0 then 0.0 else Sum(s[..|s| - 1]) + s[|s| - 1]
  }

  function SumInt(s: seq<int>): int
  {
    if |s| == 0 then 0 else SumInt(s[..|s| - 1]) + s[|s| - 1]
  }

  /** The sequence of the same numbers, as reals. */
  function ToReal(s: seq<int>): (r: seq<real>)
    ensures |r| == |s|
    ensures forall i :: 0 <= i < |s| ==> r[i] == s[i] as real
  {
    seq(|s|, i requires 0 <= i < |s| => s[i] as real)
  }

  function Squares(s: seq<real>): (r: seq<real>)
    ensures |r| == |s|
    ensures forall i :: 0 <= i < |s| ==> r[i] == s[i] * s[i]
  {
    seq(|s|, i requires 0 <= i < |s| => s[i] * s[i])
  }

  predicate NonNegative(s: seq<real>)
  {
    forall i :: 0 <= i < |s| ==> s[i] >= 0.0
  }

  predicate NonNegativeInts(s: seq<int>)
  {
    forall i :: 0 <= i < |s| ==> s[i] >= 0
  }

  // ---------------------------------------------------------------------
  // Splitting

  lemma {:induction false} SumConcat(a: seq<real>, b: seq<real>)
    ensures Sum(a + b) == Sum(a) + Sum(b)
    decreases |b|
  {
    if |b| == 0 {
      assert a + b == a;
    } else {
      assert (a + b)[..|a + b| - 1] == a + b[..|b| - 1];
      SumConcat(a, b[..|b| - 1]);
    }
  }

  lemma {:induction false} SumIntConcat(a: seq<int>, b: seq<int>)
    ensures SumInt(a + b) == SumInt(a) + SumInt(b)
    decreases |b|
  {
    if |b| == 0 {
      assert a + b == a;
    } else {
      assert (a + b)[..|a + b| - 1] == a + b[..|b| - 1];
      SumIntConcat(a, b[..|b| - 1]);
    }
  }

  lemma SumFront(s: seq<real>)
    requires |s| > 0
    ensures Sum(s) == s[0] + Sum(s[1..])
  {
    assert s == [s[0]] + s[1..];
    SumConcat([s[0]], s[1..]);
  }

  lemma SumIntFront(s: seq<int>)
    requires |s| > 0
    ensures SumInt(s) == s[0] + SumInt(s[1..])
  {
    assert s == [s[0]] + s[1..];
    SumIntConcat([s[0]], s[1..]);
  }

  /** Splitting a sum around one of its terms. */
  lemma SumAround(s: seq<real>, i: nat)
    requires i < |s|
    ensures Sum(s) == Sum(s[..i]) + s[i] + Sum(s[i + 1..])
  {
    assert s == s[..i] + [s[i]] + s[i + 1..];
    SumConcat(s[..i] + [s[i]], s[i + 1..]);
    SumConcat(s[..i], [s[i]]);
  }

  lemma SumIntAround(s: seq<int>, i: nat)
    requires i < |s|
    ensures SumInt(s) == SumInt(s[..i]) + s[i] + SumInt(s[i + 1..])
  {
    assert s == s[..i] + [s[i]] + s[i + 1..];
    SumIntConcat(s[..i] + [s[i]], s[i + 1..]);
    SumIntConcat(s[..i], [s[i]]);
  }

  /** Adding d to one term adds d to the sum. */
  lemma SumIntUpdate(s: seq<int>, i: nat, d: int)
    requires i < |s|
    ensures SumInt(s[i := s[i] + d]) == SumInt(s) + d
  {
    var t := s[i := s[i] + d];
    SumIntAround(s, i);
    SumIntAround(t, i);
    assert t[..i] == s[..i];
    assert t[i + 1..] == s[i + 1..];
  }

  // ---------------------------------------------------------------------
  // Casting, signs, comparison

  lemma {:induction false} SumCast(s: seq<int>)
    ensures Sum(ToReal(s)) == SumInt(s) as real
  {
    if |s| > 0 {
      assert ToReal(s)[..|s| - 1] == ToReal(s[..|s| - 1]);
      SumCast(s[..|s| - 1]);
    }
  }

  lemma {:induction false} SumNonNegative(s: seq<real>)
    requires NonNegative(s)
    ensures Sum(s) >= 0.0
  {
    if |s| > 0 {
      SumNonNegative(s[..|s| - 1]);
    }
  }

  lemma {:induction false} SumIntNonNegative(s: seq<int>)
    requires NonNegativeInts(s)
    ensures SumInt(s) >= 0
  {
    if |s| > 0 {
      SumIntNonNegative(s[..|s| - 1]);
    }
  }

  /** A term of a non-negative sum is at most the sum. */
  lemma SumIntTermBound(s: seq<int>, i: nat)
    requires NonNegativeInts(s) && i < |s|
    ensures s[i] <= SumInt(s)
  {
    SumIntAround(s, i);
    SumIntNonNegative(s[..i]);
    SumIntNonNegative(s[i + 1..]);
  }

  lemma SumTermBound(s: seq<real>, i: nat)
    requires NonNegative(s) && i < |s|
    ensures s[i] <= Sum(s)
  {
    SumAround(s, i);
    SumNonNegative(s[..i]);
    SumNonNegative(s[i + 1..]);
  }

  /** A non-negative sum is zero only when every term is. */
  lemma SumZero(s: seq<real>)
    requires NonNegative(s) && Sum(s) == 0.0
    ensures forall i :: 0 <= i < |s| ==> s[i] == 0.0
  {
    forall i | 0 <= i < |s|
      ensures s[i] == 0.0
    {
      SumTermBound(s, i);
    }
  }

  lemma SumIntZero(s: seq<int>)
    requires NonNegativeInts(s) && SumInt(s) == 0
    ensures forall i :: 0 <= i < |s| ==> s[i] == 0
  {
    forall i | 0 <= i < |s|
      ensures s[i] == 0
    {
      SumIntTermBound(s, i);
    }
  }

  lemma {:induction false} SumMonotone(a: seq<real>, b: seq<real>)
    requires |a| == |b|
    requires forall i :: 0 <= i < |a| ==> a[i] <= b[i]
    ensures Sum(a) <= Sum(b)
  {
    if |a| > 0 {
      SumMonotone(a[..|a| - 1], b[..|b| - 1]);
    }
  }

  lemma {:induction false} SumIntMonotone(a: seq<int>, b: seq<int>)
    requires |a| == |b|
    requires forall i :: 0 <= i < |a| ==> a[i] <= b[i]
    ensures SumInt(a) <= SumInt(b)
  {
    if |a| > 0 {
      SumIntMonotone(a[..|a| - 1], b[..|b| - 1]);
    }
  }

  /** A sum whose only non-zero term is s[j] equals s[j]. */
  lemma SumSingle(s: seq<real>, j: nat)
    requires j < |s|
    requires forall i :: 0 <= i < |s| && i != j ==> s[i] == 0.0
    ensures Sum(s) == s[j]
  {
    SumAround(s, j);
    SumZeroes(s[..j]);
    SumZeroes(s[j + 1..]);
  }

  lemma {:induction false} SumZeroes(s: seq<real>)
    requires forall i :: 0 <= i < |s| ==> s[i] == 0.0
    ensures Sum(s) == 0.0
  {
    if |s| > 0 {
      SumZeroes(s[..|s| - 1]);
    }
  }

  lemma SumIntSingle(s: seq<int>, j: nat)
    requires j < |s|
    requires forall i :: 0 <= i < |s| && i != j ==> s[i] == 0
    ensures SumInt(s) == s[j]
  {
    SumIntAround(s, j);
    SumIntZeroes(s[..j]);
    SumIntZeroes(s[j + 1..]);
  }

  lemma {:induction false} SumIntZeroes(s: seq<int>)
    requires forall i :: 0 <= i < |s| ==> s[i] == 0
    ensures SumInt(s) == 0
  {
    if |s| > 0 {
      SumIntZeroes(s[..|s| - 1]);
    }
  }

  // ---------------------------------------------------------------------
  // Linearity

  lemma {:induction false} SumAdd(a: seq<real>, b: seq<real>, c: seq<real>)
    requires |a| == |b| == |c|
    requires forall i :: 0 <= i < |c| ==> c[i] == a[i] + b[i]
    ensures Sum(c) == Sum(a) + Sum(b)
  {
    if |c| > 0 {
      SumAdd(a[..|a| - 1], b[..|b| - 1], c[..|c| - 1]);
    }
  }

  lemma {:induction false} SumIntAdd(a: seq<int>, b: seq<int>, c: seq<int>)
    requires |a| == |b| == |c|
    requires forall i :: 0 <= i < |c| ==> c[i] == a[i] + b[i]
    ensures SumInt(c) == SumInt(a) + SumInt(b)
  {
    if |c| > 0 {
      SumIntAdd(a[..|a| - 1], b[..|b| - 1], c[..|c| - 1]);
    }
  }

  lemma {:induction false} SumScale(a: seq<real>, x: real, c: seq<real>)
    requires |a| == |c|
    requires forall i :: 0 <= i < |c| ==> c[i] == x * a[i]
    ensures Sum(c) == x * Sum(a)
  {
    if |c| > 0 {
      SumScale(a[..|a| - 1], x, c[..|c| - 1]);
    }
  }

  lemma {:induction false} SumIntScale(a: seq<int>, x: int, c: seq<int>)
    requires |a| == |c|
    requires forall i :: 0 <= i < |c| ==> c[i] == x * a[i]
    ensures SumInt(c) == x * SumInt(a)
  {
    if |c| > 0 {
      SumIntScale(a[..|a| - 1], x, c[..|c| - 1]);
    }
  }

  // ---------------------------------------------------------------------
  // Double sums

  function RowSums(t: seq<seq<real>>): (r: seq<real>)
    ensures |r| == |t|
  {
    seq(|t|, i requires 0 <= i < |t| => Sum(t[i]))
  }

  predicate Rectangular<T>(t: seq<seq<T>>, w: nat)
  {
    forall i :: 0 <= i < |t| ==> |t[i]| == w
  }

  function Column<T>(t: seq<seq<T>>, j: nat): (col: seq<T>)
    requires forall i :: 0 <= i < |t| ==> j < |t[i]|
    ensures |col| == |t|
  {
    seq(|t|, i requires 0 <= i < |t| => t[i][j])
  }

  function ColumnSums(t: seq<seq<real>>, w: nat): (r: seq<real>)
    requires Rectangular(t, w)
    ensures |r| == w
  {
    seq(w, j requires 0 <= j < w => Sum(Column(t, j)))
  }

  /** The table read column by column. */
  function Transpose<T>(t: seq<seq<T>>, w: nat): (r: seq<seq<T>>)
    requires Rectangular(t, w)
    ensures |r| == w && Rectangular(r, |t|)
    ensures forall j, i :: 0 <= j < w && 0 <= i < |t| ==> r[j][i] == t[i][j]
  {
    seq(w, j requires 0 <= j < w => Column(t, j))
  }

  /** Tables of the same shape with the same cells are equal. */
  lemma TablesEqual<T>(s: seq<seq<T>>, t: seq<seq<T>>, w: nat)
    requires |s| == |t| && Rectangular(s, w) && Rectangular(t, w)
    requires forall i, j :: 0 <= i < |s| && 0 <= j < w ==> s[i][j] == t[i][j]
    ensures s == t
  {
    forall i | 0 <= i < |s| ensures s[i] == t[i] {
      assert forall j :: 0 <= j < w ==> s[i][j] == t[i][j];
    }
  }

  /** The grand total of a table is the same row by row as column by column. */
  lemma {:induction false} SumExchange(t: seq<seq<real>>, w: nat)
    requires Rectangular(t, w)
    ensures Sum(RowSums(t)) == Sum(ColumnSums(t, w))
  {
    if |t| == 0 {
      SumZeroes(ColumnSums(t, w));
    } else {
      var front := t[..|t| - 1];
      var last := t[|t| - 1];
      SumExchange(front, w);
      assert RowSums(t)[..|t| - 1] == RowSums(front);
      forall j | 0 <= j < w
        ensures ColumnSums(t, w)[j] == ColumnSums(front, w)[j] + last[j]
      {
        assert Column(t, j)[..|t| - 1] == Column(front, j);
      }
      SumAdd(ColumnSums(front, w), last, ColumnSums(t, w));
    }
  }

  function IntRowSums(t: seq<seq<int>>): (r: seq<int>)
    ensures |r| == |t|
  {
    seq(|t|, i requires 0 <= i < |t| => SumInt(t[i]))
  }

  function IntColumnSums(t: seq<seq<int>>, w: nat): (r: seq<int>)
    requires Rectangular(t, w)
    ensures |r| == w
  {
    seq(w, j requires 0 <= j < w => SumInt(Column(t, j)))
  }

  function ToRealTable(t: seq<seq<int>>): (r: seq<seq<real>>)
    ensures |r| == |t|
    ensures forall i :: 0 <= i < |t| ==> r[i] == ToReal(t[i])
  {
    seq(|t|, i requires 0 <= i < |t| => ToReal(t[i]))
  }

  /** The integer form of `SumExchange`, obtained through the reals. */
  lemma SumIntExchange(t: seq<seq<int>>, w: nat)
    requires Rectangular(t, w)
    ensures SumInt(IntRowSums(t)) == SumInt(IntColumnSums(t, w))
  {
    var rt := ToRealTable(t);
    SumExchange(rt, w);
    forall i | 0 <= i < |t|
      ensures RowSums(rt)[i] == ToReal(IntRowSums(t))[i]
    {
      SumCast(t[i]);
    }
    assert RowSums(rt) == ToReal(IntRowSums(t));
    forall j | 0 <= j < w
      ensures ColumnSums(rt, w)[j] == ToReal(IntColumnSums(t, w))[j]
    {
      assert Column(rt, j) == ToReal(Column(t, j));
      SumCast(Column(t, j));
    }
    assert ColumnSums(rt, w) == ToReal(IntColumnSums(t, w));
    SumCast(IntRowSums(t));
    SumCast(IntColumnSums(t, w));
  }

  /** Dividing every term divides the sum. */
  lemma {:induction false} SumDivide(a: seq<real>, d: real, c: seq<real>)
    requires d != 0.0 && |a| == |c|
    requires forall i :: 0 <= i < |c| ==> c[i] == a[i] / d
    ensures Sum(c) == Sum(a) / d
  {
    if |a| > 0 {
      var n := |a| - 1;
      SumDivide(a[..n], d, c[..n]);
      assert a[..n] + [a[n]] == a;
      assert c[..n] + [c[n]] == c;
      DivideAdd(Sum(a[..n]), a[n], d);
    }
  }

  lemma DivideAdd(x: real, y: real, d: real)
    requires d != 0.0
    ensures x / d + y / d == (x + y) / d
  {
  }

  /** Σ x ≤ m Σ y when x ≤ m y term by term. */
  lemma {:induction false} ScaledBound(x: seq<real>, y: seq<real>, m: real)
    requires |x| == |y|
    requires forall i :: 0 <= i < |x| ==> x[i] <= m * y[i]
    ensures Sum(x) <= m * Sum(y)
  {
    if |x| > 0 {
      var n := |x| - 1;
      ScaledBound(x[..n], y[..n], m);
      Distribute(m, Sum(y[..n]), y[n]);
    }
  }

  lemma Distribute(m: real, a: real, b: real)
    ensures m * (a + b) == m * a + m * b
  {
  }
}
