/** The deterministic parts of the bootstrap of Krippendorff's alpha: the
    cell lookup `f`, one resampled alpha from given draws, the Fourth Step
    correction of the sorted samples, and the p-value and confidence
    interval read off them. */
module Bootstrap {
  import opened Common
  import opened Sums
  import opened AlphaTables
  import opened Krippendorff
  import opened Distances

  /** An array access out of bounds in the Java code. */
  datatype BootstrapError = IndexOutOfBounds

  // ---------------------------------------------------------------------
  // The cell lookup f

  /** Cell (c1, k1) comes before cell (c2, k2) in row-major order. */
  predicate Before(c1: nat, k1: nat, c2: nat, k2: nat)
  {
    c1 < c2 || (c1 == c2 && k1 < k2)
  }

  /** The running sum of `f`'s scan once it has added cell (c, k). */
  function Through(o: seq<seq<real>>, w: nat, c: nat, k: nat): real
    requires |o| == w && Rectangular(o, w) && c < w && k < w
  {
    Sum(RowSums(o)[..c]) + Sum(o[c][..k + 1])
  }

  /** `sum / totalSums >= r` on doubles: with n = 0 the share is an infinity
      (positive sum) or NaN (zero sum). */
  predicate Reached(sum: real, n: int, r: real)
  {
    if n == 0 then sum > 0.0 else sum / n as real >= r
  }

  /** The row-major scan of `f` from cell (c, k): the first cell whose
      running share reaches r, or `None` when the scan runs off the table. */
  function Lookup(o: seq<seq<real>>, w: nat, n: int, r: real, c: nat, k: nat): (cell: Option<(nat, nat)>)
    requires |o| == w && Rectangular(o, w) && c <= w && k <= w
    ensures cell.Some? ==> cell.value.0 < w && cell.value.1 < w && !Before(cell.value.0, cell.value.1, c, k)
    ensures cell.Some? ==> Reached(Through(o, w, cell.value.0, cell.value.1), n, r)
    ensures cell.Some? ==> forall c2, k2 ::
      (0 <= c2 < w && 0 <= k2 < w && !Before(c2, k2, c, k) && Before(c2, k2, cell.value.0, cell.value.1)) ==>
      !Reached(Through(o, w, c2, k2), n, r)
    ensures cell.None? ==> forall c2, k2 :: 0 <= c2 < w && 0 <= k2 < w && !Before(c2, k2, c, k) ==>
      !Reached(Through(o, w, c2, k2), n, r)
    decreases w - c, w - k
  {
    if c == w then None
    else if k == w then Lookup(o, w, n, r, c + 1, 0)
    else if Reached(Through(o, w, c, k), n, r) then Some((c, k))
    else Lookup(o, w, n, r, c, k + 1)
  }

  /** The scan's running sum at the last cell is the table's total. */
  lemma ThroughLast(o: seq<seq<real>>, w: nat)
    requires |o| == w && Rectangular(o, w) && w > 0
    ensures Through(o, w, w - 1, w - 1) == Sum(RowSums(o))
  {
    assert RowSums(o)[..w - 1] == RowSums(o)[..|RowSums(o)| - 1];
    assert o[w - 1][..w] == o[w - 1];
  }

  /** For draws r ≤ 1 and n > 0 the scan of `f` always stops inside the
      table, so the Java loop never leaves c = k = cN. */
  lemma LookupInRange(t: Tabulation, r: real)
    requires Shaped(t)
    ensures Consistent(t) && t.totalSums > 0 && r <= 1.0 ==>
      Lookup(t.coincidences, t.w, t.totalSums, r, 0, 0).Some?
  {
    if Consistent(t) && t.totalSums > 0 && r <= 1.0 {
      var o := t.coincidences;
      var w := t.w;
      assert |t.valSums| == 0 ==> SumInt(t.valSums) == 0;
      ThroughLast(o, w);
      TableTotal(t);
      assert Reached(Through(o, w, w - 1, w - 1), t.totalSums, r);
    }
  }

  /** The coincidences add up to n. */
  lemma TableTotal(t: Tabulation)
    requires Shaped(t) && RowsAddUp(t.coincidences, t.valSums, t.w) && Marginals(t)
    ensures Sum(RowSums(t.coincidences)) == t.totalSums as real
  {
    assert RowSums(t.coincidences) == ToReal(t.valSums);
    SumCast(t.valSums);
  }

  /** `f(r, MDe)`: delta² at the cell the scan stops at, divided by M·D_e/n;
      `None` when that division is not finite. For n > 0 and a draw r ≤ 1
      the scan stops inside the table, and with a positive scale the draw
      is a non-negative number. */
  function Draw(t: Tabulation, mde: Option<real>, r: real): (d: Result<Option<real>, BootstrapError>)
    requires Shaped(t)
    ensures Consistent(t) && t.totalSums > 0 && r <= 1.0 ==> d.Success?
    ensures d.Success? && mde.None? ==> d.value.None?
    ensures d.Success? && Consistent(t) && mde.Some? && mde.value > 0.0 ==>
      d.value.Some? && d.value.value >= 0.0
  {
    LookupInRange(t, r);
    match Lookup(t.coincidences, t.w, t.totalSums, r, 0, 0)
    case None => Failure(IndexOutOfBounds)
    case Some((c, k)) =>
      var delta := t.deltaSq[c][k];
      Success(if mde.None? then None else Quotient(delta, mde.value))
  }

  /** `MDe = M * denominator`, with the denominator D_e / n NaN when n = 0. */
  function ScaledDenominator(t: Tabulation, depth: nat): (mde: Option<real>)
    requires Shaped(t)
    ensures mde.Some? <==> t.totalSums != 0
  {
    if t.totalSums == 0 then None
    else Some(depth as real * (Expected(t) / t.totalSums as real))
  }

  /** Every draw r is at most 1, as `Random.nextDouble` promises. */
  predicate UnitDraws(rs: seq<real>)
  {
    forall j :: 0 <= j < |rs| ==> rs[j] <= 1.0
  }

  /** One resampled alpha: 1 minus the draws `f(r)` for the given r's. With
      n > 0, a positive scale M·D_e/n and draws at most 1 it is defined and
      at most 1; with an undefined scale it is NaN once anything is drawn. */
  function Sample(t: Tabulation, mde: Option<real>, rs: seq<real>): (a: Result<Option<real>, BootstrapError>)
    requires Shaped(t)
    ensures Consistent(t) && t.totalSums > 0 && mde.Some? && mde.value > 0.0 && UnitDraws(rs) ==>
      a.Success? && a.value.Some? && a.value.value <= 1.0
    ensures a.Success? && mde.None? && |rs| > 0 ==> a.value.None?
  {
    if |rs| == 0 then Success(Some(1.0))
    else
      var front := rs[..|rs| - 1];
      assert UnitDraws(rs) ==> UnitDraws(front) && rs[|rs| - 1] <= 1.0;
      match Sample(t, mde, front)
      case Failure(e) => Failure(e)
      case Success(alpha) =>
        match Draw(t, mde, rs[|rs| - 1])
        case Failure(e) => Failure(e)
        case Success(d) =>
          Success(if alpha.None? || d.None? then None else Some(alpha.value - d.value))
  }

  // ---------------------------------------------------------------------
  // Fourth Step

  /** The number of values c' in [c, w) with a positive diagonal coincidence. */
  function DiagonalsFrom(o: seq<seq<real>>, w: nat, c: nat): nat
    requires |o| == w && Rectangular(o, w) && c <= w
    decreases w - c
  {
    if c == w then 0 else (if o[c][c] > 0.0 then 1 else 0) + DiagonalsFrom(o, w, c + 1)
  }

  /** The counting loop of the Fourth Step, which stops as soon as it has
      seen two positive diagonal coincidences. */
  function CountDiagonals(o: seq<seq<real>>, w: nat, c: nat, count: nat): (r: nat)
    requires |o| == w && Rectangular(o, w) && c <= w && count < 2
    ensures r <= 2
    decreases w - c
  {
    if c == w then count
    else if o[c][c] > 0.0 then (if count + 1 == 2 then 2 else CountDiagonals(o, w, c + 1, count + 1))
    else CountDiagonals(o, w, c + 1, count)
  }

  /** The early exit only caps the count at 2, so the "Internal Error" branch
      for any other count is unreachable. */
  lemma {:induction false} CountDiagonalsCapped(o: seq<seq<real>>, w: nat, c: nat, count: nat)
    requires |o| == w && Rectangular(o, w) && c <= w && count < 2
    ensures CountDiagonals(o, w, c, count) == MinInt(2, count + DiagonalsFrom(o, w, c))
    decreases w - c
  {
    if c < w {
      if o[c][c] > 0.0 {
        if count + 1 < 2 {
          CountDiagonalsCapped(o, w, c + 1, count + 1);
        }
      } else {
        CountDiagonalsCapped(o, w, c + 1, count);
      }
    }
  }

  lemma {:induction false} DiagonalsFromWitness(o: seq<seq<real>>, w: nat, c: nat)
    requires |o| == w && Rectangular(o, w) && c <= w
    ensures DiagonalsFrom(o, w, c) > 0 ==> exists c' :: c <= c' < w && o[c'][c'] > 0.0
    decreases w - c
  {
    if c < w && o[c][c] <= 0.0 {
      DiagonalsFromWitness(o, w, c + 1);
    }
  }

  /** A positive diagonal coincidence needs a positive total. */
  lemma DiagonalNeedsTotal(t: Tabulation)
    requires Consistent(t)
    ensures CountDiagonals(t.coincidences, t.w, 0, 0) >= 1 ==> t.totalSums > 0
  {
    CountDiagonalsCapped(t.coincidences, t.w, 0, 0);
    DiagonalsFromWitness(t.coincidences, t.w, 0);
    if CountDiagonals(t.coincidences, t.w, 0, 0) >= 1 {
      var c :| 0 <= c < t.w && t.coincidences[c][c] > 0.0;
      CoincidenceBelowMarginals(t, c, c);
      SumIntTermBound(t.valSums, c);
    }
  }

  /** The length of the trailing run of samples that are at least 1. */
  function TrailingOnes(s: seq<real>): (d: nat)
    ensures d <= |s|
    ensures forall i :: |s| - d <= i < |s| ==> s[i] >= 1.0
    ensures d < |s| ==> s[|s| - d - 1] < 1.0
  {
    if |s| == 0 || s[|s| - 1] < 1.0 then 0 else TrailingOnes(s[..|s| - 1]) + 1
  }

  /** The number of samples that are defined (not NaN). */
  function Present(s: seq<Option<real>>): (k: nat)
    ensures k <= |s|
  {
    if |s| == 0 then 0 else Present(s[..|s| - 1]) + (if s[|s| - 1].Some? then 1 else 0)
  }

  /** Defined samples followed by NaNs: the count of defined ones is the
      length of the first run. */
  lemma {:induction false} PresentSplit(s: seq<Option<real>>, k: nat)
    requires k <= |s|
    requires forall i :: 0 <= i < k ==> s[i].Some?
    requires forall i :: k <= i < |s| ==> s[i].None?
    ensures Present(s) == k
  {
    if |s| > 0 {
      PresentSplit(s[..|s| - 1], if k == |s| then k - 1 else k);
    }
  }

  /** A leading run of k defined samples is part of the count. */
  lemma {:induction false} PresentAtLeast(s: seq<Option<real>>, k: nat)
    requires k <= |s|
    requires forall i :: 0 <= i < k ==> s[i].Some?
    ensures Present(s) >= k
  {
    if |s| > 0 {
      PresentAtLeast(s[..|s| - 1], if k == |s| then k - 1 else k);
    }
  }

  /** The samples with the last d of them replaced by NaN (`None`): X − d of
      them stay defined. */
  function Blank(s: seq<real>, d: nat): (b: seq<Option<real>>)
    requires d <= |s|
    ensures |b| == |s|
    ensures forall i :: 0 <= i < |s| ==> b[i] == if i < |s| - d then Some(s[i]) else None
    ensures Present(b) == |s| - d
  {
    var b := seq(|s|, i requires 0 <= i < |s| => if i < |s| - d then Some(s[i]) else None);
    PresentSplit(b, |s| - d);
    b
  }

  function Pow(x: real, m: nat): real
  {
    if m == 0 then 1.0 else x * Pow(x, m - 1)
  }

  /** A power with positive exponent of a share in [0, 1] is at most the share. */
  lemma {:induction false} PowBelow(x: real, m: nat)
    requires 0.0 <= x <= 1.0 && m >= 1
    ensures 0.0 <= Pow(x, m) <= x
  {
    if m > 1 {
      PowBelow(x, m - 1);
      ScaleDown(x, Pow(x, m - 1));
      assert Pow(x, m) == x * Pow(x, m - 1);
    }
  }

  /** (o_cc / n)^M for every value c. */
  function DiagonalShares(t: Tabulation, depth: nat): (shares: seq<real>)
    requires Shaped(t) && t.totalSums != 0
    ensures |shares| == t.w
  {
    seq(t.w, c requires 0 <= c < t.w =>
      Pow(t.coincidences[c][c] / t.totalSums as real, depth))
  }

  /** The result of the Fourth Step: the samples, NaN where removed, and nx. */
  datatype Corrected = Corrected(samples: seq<Option<real>>, nx: int)

  /** The Fourth Step on the sorted samples. With no positive diagonal
      coincidence nothing changes; with one, the trailing run of samples
      equal to 1 is removed; with two or more, nx = round(X Σ (o_cc/n)^M)
      and at most nx of the top samples are removed, stopping at the first
      sample below 1. Running past the first sample is the Java array
      access at index -1. */
  function FourthStep(t: Tabulation, depth: nat, samples: seq<real>): (r: Result<Corrected, BootstrapError>)
    requires Consistent(t)
    ensures r.Success? ==> |r.value.samples| == |samples|
  {
    var count := CountDiagonals(t.coincidences, t.w, 0, 0);
    if count == 0 then Success(Corrected(Blank(samples, 0), 0))
    else if count == 1 then
      var d := TrailingOnes(samples);
      Success(Corrected(Blank(samples, d), d))
    else
      DiagonalNeedsTotal(t);
      RemoveTop(samples, RoundedShare(|samples|, Sum(DiagonalShares(t, depth))))
  }

  /** nx = round(X · mass), the number of samples a share of the X samples
      stands for. */
  function RoundedShare(x: nat, mass: real): int
  {
    Round(x as real * mass)
  }

  /** The two-diagonal case of the Fourth Step for a given nx: the top
      samples equal to 1 are removed, at most nx of them; when nx exceeds X
      and every sample is 1 the loop runs off the front of the array. */
  function RemoveTop(samples: seq<real>, nx: int): (r: Result<Corrected, BootstrapError>)
    ensures nx <= |samples| ==> r.Success?
    ensures r.Success? ==> r.value.nx == nx
  {
    var d := TrailingOnes(samples);
    if nx > |samples| && d == |samples| then Failure(IndexOutOfBounds)
    else Success(Corrected(Blank(samples, if nx <= 0 then 0 else MinInt(nx, d)), nx))
  }

  /** With two positive diagonal cells the Fourth Step is `RemoveTop`. */
  lemma FourthStepTwo(t: Tabulation, depth: nat, samples: seq<real>)
    requires Consistent(t) && t.totalSums > 0 && CountDiagonals(t.coincidences, t.w, 0, 0) == 2
    ensures FourthStep(t, depth, samples) == RemoveTop(samples, RoundedShare(|samples|, Sum(DiagonalShares(t, depth))))
  {
  }

  /** What `RemoveTop` removes: part of the trailing run, no more than nx. */
  lemma RemoveTopRemoves(samples: seq<real>, nx: int)
    requires 0 <= nx && RemoveTop(samples, nx).Success?
    ensures exists d :: 0 <= d <= TrailingOnes(samples) && d <= nx && RemoveTop(samples, nx).value.samples == Blank(samples, d)
  {
    var d := if nx == 0 then 0 else MinInt(nx, TrailingOnes(samples));
    assert RemoveTop(samples, nx).value.samples == Blank(samples, d);
  }

  /** What the Fourth Step removes: only samples from the trailing run of
      samples at least 1; in the one-diagonal case exactly that run, with nx
      its length; otherwise no more than nx of them. */
  lemma FourthStepRemoves(t: Tabulation, depth: nat, samples: seq<real>)
    requires Consistent(t) && FourthStep(t, depth, samples).Success?
    ensures var r := FourthStep(t, depth, samples).value;
      exists d :: 0 <= d <= TrailingOnes(samples) && r.samples == Blank(samples, d) &&
        (CountDiagonals(t.coincidences, t.w, 0, 0) == 0 ==> d == 0 && r.nx == 0) &&
        (CountDiagonals(t.coincidences, t.w, 0, 0) == 1 ==> d == TrailingOnes(samples) && r.nx == d) &&
        (CountDiagonals(t.coincidences, t.w, 0, 0) == 2 ==> d <= r.nx)
  {
    var count := CountDiagonals(t.coincidences, t.w, 0, 0);
    var r := FourthStep(t, depth, samples).value;
    var ones := TrailingOnes(samples);
    if count == 0 {
      assert r.samples == Blank(samples, 0) && r.nx == 0;
    } else if count == 1 {
      assert r.samples == Blank(samples, ones) && r.nx == ones;
    } else {
      DiagonalNeedsTotal(t);
      DiagonalMassNonNegative(t, depth);
      var mass := Sum(DiagonalShares(t, depth));
      RoundNonNegative(|samples|, mass);
      FourthStepTwo(t, depth, samples);
      RemoveTopRemoves(samples, RoundedShare(|samples|, mass));
    }
  }

  /** With a depth M ≥ 1 the Fourth Step never fails, and 0 ≤ nx ≤ X, since
      Σ (o_cc/n)^M ≤ Σ o_cc/n ≤ Σ n_c/n = 1. */
  lemma FourthStepSucceeds(t: Tabulation, depth: nat, samples: seq<real>)
    requires Consistent(t) && depth >= 1
    ensures FourthStep(t, depth, samples).Success?
    ensures 0 <= FourthStep(t, depth, samples).value.nx <= |samples|
  {
    var count := CountDiagonals(t.coincidences, t.w, 0, 0);
    if count == 2 {
      DiagonalNeedsTotal(t);
      DiagonalMassBound(t, depth);
      var mass := Sum(DiagonalShares(t, depth));
      RoundShare(|samples|, mass);
      FourthStepTwo(t, depth, samples);
    }
  }

  /** A non-negative share of a count rounds to a non-negative number. */
  lemma RoundNonNegative(x: nat, mass: real)
    requires 0.0 <= mass
    ensures 0 <= RoundedShare(x, mass)
  {
    var p := x as real * mass;
    MultiplyNonNegativeReal(x as real, mass);
    RoundMonotone(0.0, p);
  }

  /** A share in [0, 1] of a count rounds to between 0 and the count. */
  lemma RoundShare(x: nat, mass: real)
    requires 0.0 <= mass <= 1.0
    ensures 0 <= RoundedShare(x, mass) <= x
  {
    var p := x as real * mass;
    MultiplyMonotone(mass, 1.0, x as real);
    RoundNonNegative(x, mass);
    RoundMonotone(p, x as real);
  }

  lemma {:induction false} PowNonNegative(x: real, m: nat)
    requires 0.0 <= x
    ensures 0.0 <= Pow(x, m)
  {
    if m > 0 {
      PowNonNegative(x, m - 1);
    }
  }

  /** Σ (o_cc/n)^M ≥ 0, so nx is never negative. */
  lemma DiagonalMassNonNegative(t: Tabulation, depth: nat)
    requires Consistent(t) && t.totalSums > 0
    ensures 0.0 <= Sum(DiagonalShares(t, depth))
  {
    var shares := DiagonalShares(t, depth);
    forall c | 0 <= c < t.w ensures 0.0 <= shares[c] {
      assert t.coincidences[c][c] >= 0.0;
      PowNonNegative(t.coincidences[c][c] / t.totalSums as real, depth);
    }
    assert NonNegative(shares);
    SumNonNegative(shares);
  }

  /** 0 ≤ Σ (o_cc/n)^M ≤ 1. */
  lemma DiagonalMassBound(t: Tabulation, depth: nat)
    requires Consistent(t) && t.totalSums > 0 && depth >= 1
    ensures 0.0 <= Sum(DiagonalShares(t, depth)) <= 1.0
  {
    var n := t.totalSums as real;
    var shares := DiagonalShares(t, depth);
    var margins := seq(t.w, c requires 0 <= c < t.w => t.valSums[c] as real / n);
    forall c | 0 <= c < t.w ensures 0.0 <= shares[c] <= margins[c] {
      CoincidenceBelowMarginals(t, c, c);
      SumIntTermBound(t.valSums, c);
      ShareBound(t.coincidences[c][c], t.valSums[c] as real, n);
      PowBelow(t.coincidences[c][c] / n, depth);
    }
    SumMonotone(shares, margins);
    assert NonNegative(shares);
    SumNonNegative(shares);
    SumDivide(ToReal(t.valSums), n, margins);
    SumCast(t.valSums);
  }

  lemma ShareBound(o: real, v: real, n: real)
    requires 0.0 <= o <= v <= n && n > 0.0
    ensures 0.0 <= o / n <= v / n <= 1.0
  {
  }

  // ---------------------------------------------------------------------
  // p-value

  /** Java's `samples[i] >= minimumAlpha`, false on NaN. */
  predicate AtLeast(s: Option<real>, min: real)
  {
    s.Some? && s.value >= min
  }

  /** The number of leading samples the loop of `pValue` counts: it stops
      at the first sample that is at least the minimum. */
  function LeadingCount(s: seq<Option<real>>, min: real): (k: nat)
    ensures k <= |s|
    ensures forall i :: 0 <= i < k ==> !AtLeast(s[i], min)
    ensures k < |s| ==> AtLeast(s[k], min)
  {
    if |s| == 0 || AtLeast(s[0], min) then 0 else 1 + LeadingCount(s[1..], min)
  }

  /** `pValue(minimumAlpha)` as written: the leading count over
      `p_divisor = X - nx`. Removed (NaN) samples are counted too. It is NaN
      exactly when nx = X, and a probability when nothing was removed. */
  function PValueAsWritten(c: Corrected, min: real): (p: Option<real>)
    ensures p.Some? <==> c.nx != |c.samples|
    ensures c.nx == 0 && |c.samples| > 0 ==> p.Some? && 0.0 <= p.value <= 1.0
  {
    var k := LeadingCount(c.samples, min);
    if c.nx == 0 && |c.samples| > 0 then
      ShareBound(k as real, |c.samples| as real, |c.samples| as real);
      Quotient(k as real, |c.samples| as real)
    else Quotient(k as real, (|c.samples| - c.nx) as real)
  }

  /** A sample that is defined and below the minimum. */
  predicate FiniteBelow(s: Option<real>, min: real)
  {
    s.Some? && s.value < min
  }

  /** The number of leading defined samples below the minimum. */
  function LeadingBelow(s: seq<Option<real>>, min: real): (k: nat)
    ensures k <= |s|
    ensures forall i :: 0 <= i < k ==> FiniteBelow(s[i], min)
    ensures k < |s| ==> !FiniteBelow(s[k], min)
  {
    if |s| == 0 || !FiniteBelow(s[0], min) then 0 else 1 + LeadingBelow(s[1..], min)
  }

  /** `pValue` as intended: the fraction of the remaining (defined) samples
      that are below the minimum. It is defined whenever a sample remains,
      and then a probability. */
  function PValue(c: Corrected, min: real): (p: Option<real>)
    ensures p.Some? <==> Present(c.samples) != 0
    ensures p.Some? ==> 0.0 <= p.value <= 1.0
  {
    var k := LeadingBelow(c.samples, min);
    PresentAtLeast(c.samples, k);
    if Present(c.samples) != 0 then
      ShareBound(k as real, Present(c.samples) as real, Present(c.samples) as real);
      Quotient(k as real, Present(c.samples) as real)
    else None
  }

  predicate Sorted(s: seq<real>)
  {
    forall i, j :: 0 <= i <= j < |s| ==> s[i] <= s[j]
  }

  /** The number of samples below the minimum, wherever they are. */
  function CountBelow(s: seq<real>, min: real): (k: nat)
    ensures k <= |s|
  {
    if |s| == 0 then 0 else CountBelow(s[..|s| - 1], min) + (if s[|s| - 1] < min then 1 else 0)
  }

  lemma {:induction false} CountBelowSplit(s: seq<real>, min: real, k: nat)
    requires k <= |s|
    requires forall i :: 0 <= i < k ==> s[i] < min
    requires forall i :: k <= i < |s| ==> s[i] >= min
    ensures CountBelow(s, min) == k
  {
    if |s| > 0 {
      if k == |s| {
        CountBelowSplit(s[..|s| - 1], min, k - 1);
      } else {
        CountBelowSplit(s[..|s| - 1], min, k);
      }
    }
  }

  /** On sorted samples with the top d removed, whatever nx the Fourth Step
      reported, the intended p-value is the share of the X − d remaining
      samples that are below the minimum, a probability. */
  lemma PValueIsShare(s: seq<real>, d: nat, nx: int, min: real)
    requires Sorted(s) && d < |s|
    ensures var p := PValue(Corrected(Blank(s, d), nx), min);
      p.Some? && p.value == CountBelow(s[..|s| - d], min) as real / (|s| - d) as real &&
      0.0 <= p.value <= 1.0
  {
    var b := Blank(s, d);
    var k := LeadingBelow(b, min);
    var finite := s[..|s| - d];
    assert d > 0 ==> !FiniteBelow(b[|s| - d], min);
    assert k <= |s| - d;
    forall i | k <= i < |finite| ensures finite[i] >= min {
      assert !FiniteBelow(b[k], min);
      assert s[k] <= s[i];
    }
    CountBelowSplit(finite, min, k);
    ShareBound(k as real, (|s| - d) as real, (|s| - d) as real);
  }

  /** As written, once every remaining sample is below the minimum the loop
      runs on through the removed ones: the count includes them. */
  lemma PValueAsWrittenCountsRemoved(s: seq<real>, d: nat, min: real)
    requires d <= |s|
    requires forall i :: 0 <= i < |s| - d ==> s[i] < min
    ensures LeadingCount(Blank(s, d), min) == |s|
    ensures LeadingBelow(Blank(s, d), min) == |s| - d
  {
    var b := Blank(s, d);
    forall i | 0 <= i < |s| ensures !AtLeast(b[i], min) {
      assert i < |s| - d ==> s[i] < min;
    }
    forall i | 0 <= i < |s| - d ensures FiniteBelow(b[i], min) {
    }
    LeadingBelowAtLeast(b, min, |s| - d);
    assert |s| - d < |s| ==> !FiniteBelow(b[|s| - d], min);
  }

  /** A prefix of samples below the minimum is part of the leading count. */
  lemma {:induction false} LeadingBelowAtLeast(s: seq<Option<real>>, min: real, j: nat)
    requires j <= |s|
    requires forall i :: 0 <= i < j ==> FiniteBelow(s[i], min)
    ensures LeadingBelow(s, min) >= j
  {
    if j > 0 {
      LeadingBelowAtLeast(s[1..], min, j - 1);
    }
  }

  /** The removed samples make the p-value exceed 1: samples 0.1, 0.2, 1, 1
      with one positive diagonal coincidence lose the two 1s (nx = 2), and
      against a minimum of 0.5 the p-value comes out as 4 / 2 = 2 instead
      of 2 / 2 = 1. */
  lemma PValueFinding()
    ensures TrailingOnes([0.1, 0.2, 1.0, 1.0]) == 2
    ensures PValueAsWritten(Corrected(Blank([0.1, 0.2, 1.0, 1.0], 2), 2), 0.5) == Some(2.0)
    ensures PValue(Corrected(Blank([0.1, 0.2, 1.0, 1.0], 2), 2), 0.5) == Some(1.0)
  {
    var s := [0.1, 0.2, 1.0, 1.0];
    assert s[..3] == [0.1, 0.2, 1.0];
    assert s[..3][..2] == [0.1, 0.2];
    PValueAsWrittenCountsRemoved(s, 2, 0.5);
  }

  /** The tables of three units rated by two observers on the nominal
      scale, (0, 0), (1, 1) and (0, 1): coincidences 2, 1 / 1, 2 with
      n = 6, so both diagonal cells are positive. */
  function ThreeUnits(): (t: Tabulation)
    ensures Consistent(t)
  {
    var t := Tabulation(2, [[2.0, 1.0], [1.0, 2.0]], [3, 3], 6, Expecteds([3, 3], 6), [[0.0, 1.0], [1.0, 0.0]]);
    PairSum(2.0, 1.0);
    PairSum(1.0, 2.0);
    assert [3, 3][..1] == [3];
    assert SumInt([3, 3]) == 6;
    t
  }

  /** The constructor builds `ThreeUnits` from the three units. */
  lemma ThreeUnitsTabulated()
    ensures Tabulate([[0, 0], [1, 1], [0, 1]], 2, Nominal) == ThreeUnits()
  {
    var vbu := ValuesByUnits([[0, 0], [1, 1], [0, 1]], 2);
    ThreeUnitsCounts();
    ThreeUnitsSums(vbu);
    ThreeUnitsCoincidences(vbu, UnitSums(vbu));
    ThreeUnitsDelta();
  }

  /** Units (0, 0), (1, 1) and (0, 1) count values 2, 0 / 0, 2 / 1, 1. */
  lemma ThreeUnitsCounts()
    ensures ValuesByUnits([[0, 0], [1, 1], [0, 1]], 2) == [[2, 0], [0, 2], [1, 1]]
  {
    assert [0, 0][..1] == [0] && [1, 1][..1] == [1] && [0, 1][..1] == [0];
    assert [0][..0] == [] && [1][..0] == [];
    assert Counts([0, 0], 2) == [2, 0];
    assert Counts([1, 1], 2) == [0, 2];
    assert Counts([0, 1], 2) == [1, 1];
  }

  /** Every unit has two values, so m_u = 2, n_0 = n_1 = 3 and n = 6. */
  lemma ThreeUnitsSums(vbu: seq<seq<int>>)
    requires vbu == [[2, 0], [0, 2], [1, 1]]
    ensures UnitSums(vbu) == [2, 2, 2]
    ensures TablesArgs(vbu, [2, 2, 2], 2)
    ensures TotalSums([2, 2, 2]) == 6
    ensures ValSums(vbu, [2, 2, 2], 2) == [3, 3]
  {
    PairSumInt(2, 0);
    PairSumInt(0, 2);
    PairSumInt(1, 1);
    var us := UnitSums(vbu);
    assert us == [2, 2, 2];
    TripleSumInt(2, 2, 2);
    assert PairableSums(us) == [2, 2, 2];
    TripleSumInt(2, 0, 1);
    TripleSumInt(0, 2, 1);
    assert Counted(vbu, us, 2, 0) == [2, 0, 1];
    assert Counted(vbu, us, 2, 1) == [0, 2, 1];
  }

  lemma ThreeUnitsCoincidences(vbu: seq<seq<int>>, us: seq<int>)
    requires vbu == [[2, 0], [0, 2], [1, 1]] && us == [2, 2, 2]
    ensures TablesArgs(vbu, us, 2)
    ensures Coincidences(vbu, us, 2) == [[2.0, 1.0], [1.0, 2.0]]
  {
    assert TablesArgs(vbu, us, 2) by { ThreeUnitsSums(vbu); }
    var o := Coincidences(vbu, us, 2);
    ThreeUnitsColumns(vbu, us);
    TripleSum(2.0, 0.0, 0.0);
    TripleSum(0.0, 0.0, 1.0);
    TripleSum(0.0, 2.0, 0.0);
    assert o[0][0] == 2.0 && o[0][1] == 1.0 && o[1][0] == 1.0 && o[1][1] == 2.0;
    assert o[0] == [2.0, 1.0] && o[1] == [1.0, 2.0];
  }

  /** Unit by unit, the pair counts n_uc (n_uk − [c = k]) / (m_u − 1). */
  lemma ThreeUnitsColumns(vbu: seq<seq<int>>, us: seq<int>)
    requires vbu == [[2, 0], [0, 2], [1, 1]] && us == [2, 2, 2]
    requires TablesArgs(vbu, us, 2)
    ensures PairingColumn(vbu, us, 2, 0, 0) == [2.0, 0.0, 0.0]
    ensures PairingColumn(vbu, us, 2, 0, 1) == [0.0, 0.0, 1.0]
    ensures PairingColumn(vbu, us, 2, 1, 0) == [0.0, 0.0, 1.0]
    ensures PairingColumn(vbu, us, 2, 1, 1) == [0.0, 2.0, 0.0]
  {
    assert Pairing([2, 0], 2, 0, 0) == 2.0 && Pairing([0, 2], 2, 1, 1) == 2.0;
    assert Pairing([1, 1], 2, 0, 1) == 1.0 && Pairing([1, 1], 2, 1, 0) == 1.0;
  }

  lemma ThreeUnitsDelta()
    ensures DeltaSq(Nominal, [3, 3]) == [[0.0, 1.0], [1.0, 0.0]]
  {
    var d := DeltaSq(Nominal, [3, 3]);
    assert d[0] == [0.0, 1.0] && d[1] == [1.0, 0.0];
  }

  /** Σ e·δ² for `ThreeUnits`: the expected table is 6/5, 9/5 / 9/5, 6/5,
      and δ² keeps its off-diagonal cells. */
  lemma ThreeUnitsExpected()
    ensures Expected(ThreeUnits()) == 18.0 / 5.0
  {
    var t := ThreeUnits();
    var e := t.expecteds;
    assert e[0][1] == 9.0 / 5.0 && e[1][0] == 9.0 / 5.0;
    var p := CellProducts(e, t.deltaSq, 2);
    assert p[0][0] == 0.0 && p[0][1] == 9.0 / 5.0 && p[1][0] == 9.0 / 5.0 && p[1][1] == 0.0;
    assert p[0] == [0.0, 9.0 / 5.0] && p[1] == [9.0 / 5.0, 0.0];
    PairSum(0.0, 9.0 / 5.0);
    PairSum(9.0 / 5.0, 0.0);
    assert RowSums(p) == [9.0 / 5.0, 9.0 / 5.0];
    PairSum(9.0 / 5.0, 9.0 / 5.0);
  }

  lemma PairSum(a: real, b: real)
    ensures Sum([a, b]) == a + b
  {
    assert [a, b][..1] == [a];
    assert [a][..0] == [];
    assert Sum([a]) == Sum([]) + a;
    assert Sum([a, b]) == Sum([a]) + b;
  }

  lemma TripleSum(a: real, b: real, c: real)
    ensures Sum([a, b, c]) == a + b + c
  {
    PairSum(a, b);
    assert [a, b, c][..2] == [a, b];
  }

  lemma PairSumInt(a: int, b: int)
    ensures SumInt([a, b]) == a + b
  {
    assert [a, b][..1] == [a];
    assert [a][..0] == [];
    assert SumInt([a]) == SumInt([]) + a;
    assert SumInt([a, b]) == SumInt([a]) + b;
  }

  lemma TripleSumInt(a: int, b: int, c: int)
    ensures SumInt([a, b, c]) == a + b + c
  {
    PairSumInt(a, b);
    assert [a, b, c][..2] == [a, b];
  }

  /** Twenty sorted samples of `ThreeUnits` at M = 3, none equal to 1: each
      is 1 − 5/9 per off-diagonal draw, so 4/9, −1/9 or −2/3. */
  function ThreeUnitsSamples(): (s: seq<real>)
    ensures |s| == 20 && Sorted(s)
    ensures forall i :: 0 <= i < |s| ==> s[i] < 0.5
  {
    seq(20, i => if i == 0 then -2.0 / 3.0 else if i < 6 then -1.0 / 9.0 else 4.0 / 9.0)
  }

  /** For `ThreeUnits` with two observers and any positive number of
      resamples, Q = 4, M = min(100, 6 · 1 / 2) = 3 and M·D_e/n = 3 ·
      (18/5)/6 = 9/5. */
  lemma ThreeUnitsDepth()
    ensures Q(ThreeUnits().coincidences) == 4
    ensures ResampleDepth(20, Q(ThreeUnits().coincidences), 6, 2) == 3
    ensures ScaledDenominator(ThreeUnits(), 3) == Some(9.0 / 5.0)
  {
    var t := ThreeUnits();
    assert t.coincidences[..1] == [[2.0, 1.0]];
    assert t.coincidences[..1][..0] == [];
    assert Q(t.coincidences) == 4;
    ThreeUnitsExpected();
  }

  /** The sample values of `ThreeUnitsSamples` are what three draws give:
      a draw of 0.1 lands on cell (0, 0) and one of 0.4 on cell (0, 1), so
      each off-diagonal draw takes 5/9 off. */
  lemma ThreeUnitsDraws()
    ensures Sample(ThreeUnits(), Some(9.0 / 5.0), [0.1, 0.1, 0.1]) == Success(Some(1.0))
    ensures Sample(ThreeUnits(), Some(9.0 / 5.0), [0.1, 0.1, 0.4]) == Success(Some(4.0 / 9.0))
    ensures Sample(ThreeUnits(), Some(9.0 / 5.0), [0.1, 0.4, 0.4]) == Success(Some(-1.0 / 9.0))
    ensures Sample(ThreeUnits(), Some(9.0 / 5.0), [0.4, 0.4, 0.4]) == Success(Some(-2.0 / 3.0))
  {
    ThreeDrawsNear();
    ThreeDrawsFar();
  }

  /** Three draws with at most one off the diagonal. */
  lemma ThreeDrawsNear()
    ensures Sample(ThreeUnits(), Some(9.0 / 5.0), [0.1, 0.1, 0.1]) == Success(Some(1.0))
    ensures Sample(ThreeUnits(), Some(9.0 / 5.0), [0.1, 0.1, 0.4]) == Success(Some(4.0 / 9.0))
  {
    var t := ThreeUnits();
    var m := Some(9.0 / 5.0);
    ThreeUnitsLookup();
    TwoDraws();
    assert [0.1, 0.1] + [0.1] == [0.1, 0.1, 0.1];
    assert [0.1, 0.1] + [0.4] == [0.1, 0.1, 0.4];
    DrawsFrom(t, m, [0.1, 0.1], 1.0, 0.1, 0.0);
    DrawsFrom(t, m, [0.1, 0.1], 1.0, 0.4, 5.0 / 9.0);
  }

  /** Three draws with at least two off the diagonal. */
  lemma ThreeDrawsFar()
    ensures Sample(ThreeUnits(), Some(9.0 / 5.0), [0.1, 0.4, 0.4]) == Success(Some(-1.0 / 9.0))
    ensures Sample(ThreeUnits(), Some(9.0 / 5.0), [0.4, 0.4, 0.4]) == Success(Some(-2.0 / 3.0))
  {
    var t := ThreeUnits();
    var m := Some(9.0 / 5.0);
    ThreeUnitsLookup();
    TwoDraws();
    assert [0.1, 0.4] + [0.4] == [0.1, 0.4, 0.4];
    assert [0.4, 0.4] + [0.4] == [0.4, 0.4, 0.4];
    DrawsFrom(t, m, [0.1, 0.4], 4.0 / 9.0, 0.4, 5.0 / 9.0);
    DrawsFrom(t, m, [0.4, 0.4], -1.0 / 9.0, 0.4, 5.0 / 9.0);
  }

  /** The samples of `ThreeUnits` from two draws. */
  lemma TwoDraws()
    ensures Sample(ThreeUnits(), Some(9.0 / 5.0), [0.1, 0.1]) == Success(Some(1.0))
    ensures Sample(ThreeUnits(), Some(9.0 / 5.0), [0.1, 0.4]) == Success(Some(4.0 / 9.0))
    ensures Sample(ThreeUnits(), Some(9.0 / 5.0), [0.4, 0.4]) == Success(Some(-1.0 / 9.0))
  {
    var t := ThreeUnits();
    var m := Some(9.0 / 5.0);
    ThreeUnitsLookup();
    OneDraw();
    DrawsFrom(t, m, [0.1], 1.0, 0.1, 0.0);
    DrawsFrom(t, m, [0.1], 1.0, 0.4, 5.0 / 9.0);
    DrawsFrom(t, m, [0.4], 4.0 / 9.0, 0.4, 5.0 / 9.0);
  }

  /** The samples of `ThreeUnits` from one draw. */
  lemma OneDraw()
    ensures Sample(ThreeUnits(), Some(9.0 / 5.0), [0.1]) == Success(Some(1.0))
    ensures Sample(ThreeUnits(), Some(9.0 / 5.0), [0.4]) == Success(Some(4.0 / 9.0))
  {
    var t := ThreeUnits();
    var m := Some(9.0 / 5.0);
    ThreeUnitsLookup();
    DrawsFrom(t, m, [], 1.0, 0.1, 0.0);
    DrawsFrom(t, m, [], 1.0, 0.4, 5.0 / 9.0);
  }

  /** One step of `ThreeUnitsDraws`: a further draw whose `f` value is d. */
  lemma DrawsFrom(t: Tabulation, mde: Option<real>, rs: seq<real>, alpha: real, r: real, d: real)
    requires Shaped(t)
    requires Sample(t, mde, rs) == Success(Some(alpha))
    requires Draw(t, mde, r) == Success(Some(d))
    ensures Sample(t, mde, rs + [r]) == Success(Some(alpha - d))
  {
    SampleStep(t, mde, rs, r);
  }

  /** One more draw takes its `f` value off the sample. */
  lemma SampleStep(t: Tabulation, mde: Option<real>, rs: seq<real>, r: real)
    requires Shaped(t)
    ensures Sample(t, mde, rs + [r]) ==
      match Sample(t, mde, rs)
      case Failure(e) => Failure(e)
      case Success(alpha) =>
        match Draw(t, mde, r)
        case Failure(e) => Failure(e)
        case Success(d) => Success(if alpha.None? || d.None? then None else Some(alpha.value - d.value))
  {
    assert (rs + [r])[..|rs|] == rs;
  }

  /** `f` on `ThreeUnits`: a draw of 0.1 stops at cell (0, 0), whose δ² is
      0, and one of 0.4 at cell (0, 1), whose δ² over 9/5 is 5/9. */
  lemma ThreeUnitsLookup()
    ensures Draw(ThreeUnits(), Some(9.0 / 5.0), 0.1) == Success(Some(0.0))
    ensures Draw(ThreeUnits(), Some(9.0 / 5.0), 0.4) == Success(Some(5.0 / 9.0))
  {
    var t := ThreeUnits();
    var o := t.coincidences;
    assert o[0][..1] == [2.0];
    assert [2.0][..0] == [];
    assert Sum(o[0][..1]) == 2.0;
    assert RowSums(o)[..0] == [];
    assert Through(o, 2, 0, 0) == 2.0;
    PairSum(2.0, 1.0);
    assert o[0][..2] == [2.0, 1.0];
    assert Through(o, 2, 0, 1) == 3.0;
    assert Lookup(o, 2, 6, 0.1, 0, 0) == Some((0, 0));
    assert Lookup(o, 2, 6, 0.4, 0, 1) == Some((0, 1));
    assert Lookup(o, 2, 6, 0.4, 0, 0) == Some((0, 1));
  }

  /** With two positive diagonal cells, nx can exceed the number of samples
      removed, and `p_divisor = X - nx` then undercounts the remaining
      samples. For `ThreeUnits` with X = 20, M = 3 and Σ (o_cc/n)^M = 2/27,
      nx = round(20 · 2/27) = 1, but when no sample is 1 nothing is
      removed. Against a minimum of 0.5 the p-value comes out as 20/19
      instead of 20/20 = 1. */
  lemma DivisorFinding()
    ensures FourthStep(ThreeUnits(), 3, ThreeUnitsSamples()) ==
            Success(Corrected(Blank(ThreeUnitsSamples(), 0), 1))
    ensures PValueAsWritten(Corrected(Blank(ThreeUnitsSamples(), 0), 1), 0.5) == Some(20.0 / 19.0)
    ensures PValue(Corrected(Blank(ThreeUnitsSamples(), 0), 1), 0.5) == Some(1.0)
  {
    ThreeUnitsFourthStep();
    ThreeUnitsPValues();
  }

  /** No sample of `ThreeUnitsSamples` is 1, so case 2 removes nothing,
      yet nx = 1. */
  lemma ThreeUnitsFourthStep()
    ensures FourthStep(ThreeUnits(), 3, ThreeUnitsSamples()) ==
            Success(Corrected(Blank(ThreeUnitsSamples(), 0), 1))
  {
    var s := ThreeUnitsSamples();
    ThreeUnitsShare();
    assert s[19] < 1.0;
    assert TrailingOnes(s) == 0;
    assert RemoveTop(s, 1) == Success(Corrected(Blank(s, 0), 1));
  }

  /** All twenty samples lie below 0.5: the count is 20 either way, over
      19 as written and over 20 as intended. */
  lemma ThreeUnitsPValues()
    ensures PValueAsWritten(Corrected(Blank(ThreeUnitsSamples(), 0), 1), 0.5) == Some(20.0 / 19.0)
    ensures PValue(Corrected(Blank(ThreeUnitsSamples(), 0), 1), 0.5) == Some(1.0)
  {
    var s := ThreeUnitsSamples();
    var c := Corrected(Blank(s, 0), 1);
    AllBelow(s, 0.5, 20.0);
    assert PValueAsWritten(c, 0.5) == Some(20.0 / (20.0 - 1.0));
    assert PValue(c, 0.5) == Some(1.0);
  }

  /** Nothing removed, nx = 1 and every one of the x samples below the
      minimum: the count x goes over x − 1 as written and over x as
      intended. */
  lemma AllBelow(s: seq<real>, min: real, x: real)
    requires |s| > 1 && x == |s| as real
    requires forall i :: 0 <= i < |s| ==> s[i] < min
    ensures PValueAsWritten(Corrected(Blank(s, 0), 1), min) == Some(x / (x - 1.0))
    ensures PValue(Corrected(Blank(s, 0), 1), min) == Some(1.0)
  {
    PValueAsWrittenCountsRemoved(s, 0, min);
  }

  /** For `ThreeUnits` at M = 3 both diagonal shares are (2/6)^3 = 1/27,
      so on twenty samples nx = round(20 · 2/27) = round(1.48…) = 1. */
  lemma ThreeUnitsShare()
    ensures CountDiagonals(ThreeUnits().coincidences, 2, 0, 0) == 2
    ensures RoundedShare(20, Sum(DiagonalShares(ThreeUnits(), 3))) == 1
  {
    var t := ThreeUnits();
    assert t.coincidences[0][0] / t.totalSums as real == 1.0 / 3.0;
    assert Pow(1.0 / 3.0, 1) == 1.0 / 3.0;
    assert Pow(1.0 / 3.0, 2) == 1.0 / 9.0;
    assert Pow(1.0 / 3.0, 3) == 1.0 / 27.0;
    assert DiagonalShares(t, 3) == [1.0 / 27.0, 1.0 / 27.0];
    PairSum(1.0 / 27.0, 1.0 / 27.0);
    assert RoundedShare(20, 2.0 / 27.0) == 1;
  }

  /** Without removed samples the two p-values agree. */
  lemma PValueAgreesWithoutRemoval(s: seq<real>, min: real)
    ensures PValueAsWritten(Corrected(Blank(s, 0), 0), min) == PValue(Corrected(Blank(s, 0), 0), min)
  {
    LeadingCountsAgree(Blank(s, 0), min);
  }

  lemma {:induction false} LeadingCountsAgree(b: seq<Option<real>>, min: real)
    requires forall i :: 0 <= i < |b| ==> b[i].Some?
    ensures LeadingCount(b, min) == LeadingBelow(b, min)
  {
    if |b| > 0 {
      assert forall i :: 0 <= i < |b[1..]| ==> b[1..][i] == b[i + 1];
      LeadingCountsAgree(b[1..], min);
    }
  }

  // ---------------------------------------------------------------------
  // Confidence interval

  /** The positions where the two loops of `confidenceInterval` leave the
      index for the lower and for the upper bound. Reading the lower bound
      at the end of the array is the Java index-out-of-bounds error. */
  function IntervalIndices(len: nat, divisor: int, p: real): (r: Result<(nat, nat), BootstrapError>)
    ensures r.Success? ==> r.value.0 < len && r.value.1 < len
    ensures r.Failure? <==> len == 0 || Round((1.0 - p) / 2.0 * divisor as real) >= len
  {
    var plow := Round((1.0 - p) / 2.0 * divisor as real);
    var phigh := Round((1.0 - (1.0 - p) / 2.0) * divisor as real);
    var i := if plow <= 0 then 0 else MinInt(plow, len);
    if i >= len then Failure(IndexOutOfBounds)
    else
      var j := if i > phigh then i else MinInt(phigh + 1, len);
      Success((i, if j > 0 then j - 1 else 0))
  }

  /** `confidenceInterval(p)` as written, over the corrected samples. */
  function ConfidenceIntervalAsWritten(c: Corrected, p: real): (r: Result<(Option<real>, Option<real>), BootstrapError>)
    ensures r.Success? ==> r.value.0 in c.samples && r.value.1 in c.samples
  {
    var indices := IntervalIndices(|c.samples|, |c.samples| - c.nx, p);
    if indices.Failure? then Failure(indices.error)
    else Success((c.samples[indices.value.0], c.samples[indices.value.1]))
  }

  /** The interval as intended: the indices are shares of the remaining
      (defined) samples, and the upper index never passes the last of them. */
  function ConfidenceInterval(c: Corrected, p: real): (r: Result<(Option<real>, Option<real>), BootstrapError>)
    ensures r.Success? ==> r.value.0 in c.samples && r.value.1 in c.samples
  {
    var divisor := Present(c.samples);
    var indices := IntervalIndices(|c.samples|, divisor, p);
    if indices.Failure? then Failure(indices.error)
    else
      var hi := if divisor >= 1 then MinInt(indices.value.1, divisor - 1) else indices.value.1;
      Success((c.samples[indices.value.0], c.samples[hi]))
  }

  /** For 0 < p < 1 and D ≥ 1 the lower index is in [0, D) and the upper
      index is at or above it. */
  lemma IndicesOrdered(len: nat, divisor: int, p: real)
    requires 1 <= divisor <= len && 0.0 < p < 1.0
    ensures var r := IntervalIndices(len, divisor, p);
      r.Success? && r.value.0 < divisor && r.value.0 <= r.value.1
  {
    var d := divisor as real;
    var x := (1.0 - p) / 2.0 * d;
    var y := (1.0 - (1.0 - p) / 2.0) * d;
    LevelBounds(p, d);
    RoundBelow(x, divisor);
    RoundMonotone(x, y);
  }

  /** (1 − p)/2 · D lies in [0, D/2) and below (1 − (1 − p)/2) · D. */
  lemma LevelBounds(p: real, d: real)
    requires 0.0 < p < 1.0 && d >= 1.0
    ensures 0.0 <= (1.0 - p) / 2.0 * d < d / 2.0
    ensures (1.0 - p) / 2.0 * d <= (1.0 - (1.0 - p) / 2.0) * d
  {
    var a := (1.0 - p) / 2.0;
    assert 0.0 < a < 0.5;
    assert a * d < 0.5 * d;
    assert a <= 1.0 - a;
    assert a * d <= (1.0 - a) * d;
  }

  /** Rounding a value in [0, D/2) gives an index in [0, D). */
  lemma RoundBelow(x: real, divisor: int)
    requires divisor >= 1 && 0.0 <= x < divisor as real / 2.0
    ensures 0 <= Round(x) < divisor
  {
  }

  /** On sorted samples with the top d removed, whatever nx the Fourth Step
      reported, for 0 < p < 1 the intended interval has two defined bounds,
      both taken from the remaining samples, in order. */
  lemma ConfidenceIntervalFinite(s: seq<real>, d: nat, nx: int, p: real)
    requires Sorted(s) && d < |s| && 0.0 < p < 1.0
    ensures var r := ConfidenceInterval(Corrected(Blank(s, d), nx), p);
      r.Success? && r.value.0.Some? && r.value.1.Some? &&
      r.value.0.value in s[..|s| - d] && r.value.1.value in s[..|s| - d] &&
      r.value.0.value <= r.value.1.value
  {
    var c := Corrected(Blank(s, d), nx);
    var divisor := |s| - d;
    IndicesOrdered(|s|, divisor, p);
    var indices := IntervalIndices(|s|, divisor, p).value;
    var lo := indices.0;
    var hi := MinInt(indices.1, divisor - 1);
    assert c.samples[lo] == Some(s[lo]) && c.samples[hi] == Some(s[hi]);
    assert s[lo] == s[..divisor][lo] && s[hi] == s[..divisor][hi];
  }

  /** Without removed samples the two intervals agree. */
  lemma IntervalAgreesWithoutRemoval(s: seq<real>, p: real)
    ensures ConfidenceIntervalAsWritten(Corrected(Blank(s, 0), 0), p) ==
            ConfidenceInterval(Corrected(Blank(s, 0), 0), p)
  {
  }

  /** The upper bound can land on a removed sample: samples 0.1, 0.2, 1, 1
      with one positive diagonal coincidence lose the two 1s (D = 2); at
      p = 0.95, plow = round(0.05) = 0 and phigh = round(1.95) = 2, so the
      upper index is 2, a NaN, where the last remaining sample 0.2 was
      meant. */
  lemma IntervalFinding()
    ensures ConfidenceIntervalAsWritten(Corrected(Blank([0.1, 0.2, 1.0, 1.0], 2), 2), 0.95) ==
            Success((Some(0.1), None))
    ensures ConfidenceInterval(Corrected(Blank([0.1, 0.2, 1.0, 1.0], 2), 2), 0.95) ==
            Success((Some(0.1), Some(0.2)))
  {
    assert Round(0.05) == 0;
    assert Round(1.95) == 2;
  }
}
