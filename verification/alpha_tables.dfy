/** The tables Krippendorff's alpha is computed from: values by units, unit
    sums, the coincidence table, the value marginals, the total, the expected
    table and the squared distance metric. */
module AlphaTables {
  import opened Common
  import opened Sums

  // ---------------------------------------------------------------------
  // Values by units

  /** How many cells of a unit's row hold value index `c`. */
  function CountValue(row: seq<int>, c: int): (n: nat)
    ensures n <= |row|
  {
    if |row| == 0 then 0
    else CountValue(row[..|row| - 1], c) + (if row[|row| - 1] == c then 1 else 0)
  }

  /** How many cells of a unit's row are not missing. */
  function NonMissing(row: seq<int>): (n: nat)
    ensures n <= |row|
  {
    if |row| == 0 then 0
    else NonMissing(row[..|row| - 1]) + (if row[|row| - 1] >= 0 then 1 else 0)
  }

  /** Cells are -1 (missing) or an index among `w` values. */
  predicate Coded(row: seq<int>, w: nat)
  {
    forall o :: 0 <= o < |row| ==> -1 <= row[o] < w
  }

  /** One unit's line of the values-by-units table: how often each value
      occurs in the row; when every cell is -1 or a value index, the counts
      add up to the number of non-missing cells. */
  function Counts(row: seq<int>, w: nat): (r: seq<int>)
    ensures |r| == w
    ensures forall c :: 0 <= c < w ==> r[c] == CountValue(row, c)
    ensures Coded(row, w) ==> SumInt(r) == NonMissing(row)
  {
    var r := seq(w, c requires 0 <= c < w => CountValue(row, c));
    CountsSum(row, w, r);
    r
  }

  /** The unit vector of length `w` with a 1 at `x`. */
  function Indicator(w: nat, x: int): (e: seq<int>)
    ensures |e| == w
    ensures forall c :: 0 <= c < w ==> e[c] == if c == x then 1 else 0
  {
    seq(w, c requires 0 <= c < w => if c == x then 1 else 0)
  }

  /** The values-by-units table: `vbu[u][c]` counts the observers that gave
      unit `u` value `c`. */
  function ValuesByUnits(matrix: seq<seq<int>>, w: nat): (vbu: seq<seq<int>>)
    ensures |vbu| == |matrix| && Rectangular(vbu, w)
    ensures forall u :: 0 <= u < |matrix| ==> vbu[u] == Counts(matrix[u], w)
    ensures forall u, c :: 0 <= u < |matrix| && 0 <= c < w ==> vbu[u][c] >= 0
    ensures forall u :: 0 <= u < |matrix| && Coded(matrix[u], w) ==> SumInt(vbu[u]) == NonMissing(matrix[u])
  {
    seq(|matrix|, u requires 0 <= u < |matrix| => Counts(matrix[u], w))
  }

  /** `unitSums[u]`: the number of values unit `u` received. */
  function UnitSums(vbu: seq<seq<int>>): (m: seq<int>)
    ensures |m| == |vbu|
    ensures forall u :: 0 <= u < |vbu| ==> m[u] == SumInt(vbu[u])
  {
    IntRowSums(vbu)
  }

  /** A unit's counts add up to the number of its non-missing cells. */
  lemma {:induction false} CountsSum(row: seq<int>, w: nat, r: seq<int>)
    requires |r| == w && forall c :: 0 <= c < w ==> r[c] == CountValue(row, c)
    ensures Coded(row, w) ==> SumInt(r) == NonMissing(row)
  {
    if Coded(row, w) {
      if |row| > 0 {
        var front := row[..|row| - 1];
        var x := row[|row| - 1];
        var f := seq(w, c requires 0 <= c < w => CountValue(front, c));
        assert Coded(front, w) by {
          forall o | 0 <= o < |front| ensures -1 <= front[o] < w {
            assert front[o] == row[o];
          }
        }
        CountsSum(front, w, f);
        assert NonMissing(row) == NonMissing(front) + (if x >= 0 then 1 else 0);
        if x >= 0 {
          var e := Indicator(w, x);
          SumIntSingle(e, x);
          forall c | 0 <= c < w ensures r[c] == f[c] + e[c] {
            assert CountValue(row, c) == CountValue(front, c) + (if x == c then 1 else 0);
          }
          SumIntAdd(f, e, r);
        } else {
          forall c | 0 <= c < w ensures r[c] == f[c] {
            assert CountValue(row, c) == CountValue(front, c);
          }
          assert r == f;
        }
      } else {
        SumIntZeroes(r);
      }
    }
  }

  // ---------------------------------------------------------------------
  // Coincidences, marginals, total

  /** Unit `u` is pairable when it received more than one value. */
  predicate Pairable(mu: int)
  {
    mu > 1
  }

  /** One unit's share of coincidence cell (c, k): the ordered pairs of its
      values (c, k) from different observers, weighted by 1/(m_u - 1). */
  function Pairing(counts: seq<int>, mu: int, c: nat, k: nat): (r: real)
    requires c < |counts| && k < |counts|
    ensures !Pairable(mu) ==> r == 0.0
    ensures counts[c] >= 0 && counts[k] >= 0 ==> r >= 0.0
  {
    if !Pairable(mu) then 0.0
    else
      PairsNonNegative(counts, c, k);
      (counts[c] * (counts[k] - (if c == k then 1 else 0))) as real / (mu - 1) as real
  }

  /** The pair count of a cell is never negative when its two counts are
      not: on the diagonal it is a·(a − 1). */
  lemma PairsNonNegative(counts: seq<int>, c: nat, k: nat)
    requires c < |counts| && k < |counts|
    ensures counts[c] >= 0 && counts[k] >= 0 ==>
      counts[c] * (counts[k] - (if c == k then 1 else 0)) >= 0
  {
    if counts[c] > 0 && counts[k] > 0 {
      MultiplyNonNegative(counts[c], counts[k] - (if c == k then 1 else 0));
    }
  }

  predicate TablesArgs(vbu: seq<seq<int>>, unitSums: seq<int>, w: nat)
  {
    Rectangular(vbu, w) && |unitSums| == |vbu|
  }

  /** Every unit's share of coincidence cell (c, k). */
  function PairingColumn(vbu: seq<seq<int>>, unitSums: seq<int>, w: nat, c: nat, k: nat): (col: seq<real>)
    requires TablesArgs(vbu, unitSums, w) && c < w && k < w
    ensures |col| == |vbu|
    ensures forall u :: 0 <= u < |vbu| ==> col[u] == Pairing(vbu[u], unitSums[u], c, k)
  {
    seq(|vbu|, u requires 0 <= u < |vbu| => Pairing(vbu[u], unitSums[u], c, k))
  }

  /** The coincidence table o_ck: symmetric, non-negative for non-negative
      counts, and, when the unit sums are those of the counts, each row c
      adds up to the marginal n_c. */
  function Coincidences(vbu: seq<seq<int>>, unitSums: seq<int>, w: nat): (o: seq<seq<real>>)
    requires TablesArgs(vbu, unitSums, w)
    ensures |o| == w && Rectangular(o, w)
    ensures forall c, k :: 0 <= c < w && 0 <= k < w ==> o[c][k] == Sum(PairingColumn(vbu, unitSums, w, c, k))
    ensures forall c, k :: 0 <= c < w && 0 <= k < w ==> o[c][k] == o[k][c]
    ensures NonNegativeCounts(vbu, w) ==> forall c, k :: 0 <= c < w && 0 <= k < w ==> o[c][k] >= 0.0
    ensures Tabulated(vbu, unitSums, w) ==> RowsAddUp(o, ValSums(vbu, unitSums, w), w)
  {
    var o := seq(w, c requires 0 <= c < w =>
      seq(w, k requires 0 <= k < w => Sum(PairingColumn(vbu, unitSums, w, c, k))));
    CoincidencesSymmetric(vbu, unitSums, w, o);
    CoincidencesNonNegative(vbu, unitSums, w, o);
    CoincidenceRows(vbu, unitSums, w, o);
    o
  }

  /** Row c of the table adds up to the marginal n_c. */
  predicate RowsAddUp(a: seq<seq<real>>, valSums: seq<int>, w: nat)
    requires |a| == w && Rectangular(a, w) && |valSums| == w
  {
    forall c :: 0 <= c < w ==> Sum(a[c]) == valSums[c] as real
  }

  /** Every count of the values-by-units table is non-negative. */
  predicate NonNegativeCounts(vbu: seq<seq<int>>, w: nat)
  {
    forall u, j :: 0 <= u < |vbu| && 0 <= j < w && j < |vbu[u]| ==> vbu[u][j] >= 0
  }

  /** Unit `u`'s contribution to the marginal of value `c`. */
  function Counted(vbu: seq<seq<int>>, unitSums: seq<int>, w: nat, c: nat): (col: seq<int>)
    requires TablesArgs(vbu, unitSums, w) && c < w
    ensures |col| == |vbu|
    ensures forall u :: 0 <= u < |vbu| ==> col[u] == if Pairable(unitSums[u]) then vbu[u][c] else 0
  {
    seq(|vbu|, u requires 0 <= u < |vbu| => if Pairable(unitSums[u]) then vbu[u][c] else 0)
  }

  /** `valSums[c]`, the marginal n_c over pairable units: non-negative for
      non-negative counts, and adding up to the total n when the unit sums
      are those of the counts. */
  function ValSums(vbu: seq<seq<int>>, unitSums: seq<int>, w: nat): (v: seq<int>)
    requires TablesArgs(vbu, unitSums, w)
    ensures |v| == w
    ensures forall c :: 0 <= c < w ==> v[c] == SumInt(Counted(vbu, unitSums, w, c))
    ensures NonNegativeCounts(vbu, w) ==> NonNegativeInts(v)
    ensures Tabulated(vbu, unitSums, w) ==> SumInt(v) == TotalSums(unitSums)
  {
    var v := seq(w, c requires 0 <= c < w => SumInt(Counted(vbu, unitSums, w, c)));
    ValSumsNonNegative(vbu, unitSums, w, v);
    ValSumsTotal(vbu, unitSums, w, v);
    v
  }

  lemma ValSumsNonNegative(vbu: seq<seq<int>>, unitSums: seq<int>, w: nat, v: seq<int>)
    requires TablesArgs(vbu, unitSums, w)
    requires |v| == w && forall c :: 0 <= c < w ==> v[c] == SumInt(Counted(vbu, unitSums, w, c))
    ensures NonNegativeCounts(vbu, w) ==> NonNegativeInts(v)
  {
    if NonNegativeCounts(vbu, w) {
      forall c | 0 <= c < w ensures v[c] >= 0 {
        var col := Counted(vbu, unitSums, w, c);
        assert NonNegativeInts(col);
        SumIntNonNegative(col);
      }
    }
  }

  function PairableSums(unitSums: seq<int>): (s: seq<int>)
    ensures |s| == |unitSums|
    ensures forall u :: 0 <= u < |unitSums| ==> s[u] == if Pairable(unitSums[u]) then unitSums[u] else 0
  {
    seq(|unitSums|, u requires 0 <= u < |unitSums| => if Pairable(unitSums[u]) then unitSums[u] else 0)
  }

  /** `totalSums`, Krippendorff's n: the values in pairable units. It is 0
      exactly when no unit is pairable, and never 1, since a pairable unit
      adds at least 2; so the `totalSums - 1` divisor of the expected table
      is never zero. */
  function TotalSums(unitSums: seq<int>): (n: int)
    ensures n == 0 || n >= 2
    ensures n == 0 <==> forall u :: 0 <= u < |unitSums| ==> !Pairable(unitSums[u])
  {
    PairableTotal(unitSums);
    SumInt(PairableSums(unitSums))
  }

  lemma {:induction false} PairableTotal(unitSums: seq<int>)
    ensures var n := SumInt(PairableSums(unitSums));
      (n == 0 || n >= 2) && (n == 0 <==> forall u :: 0 <= u < |unitSums| ==> !Pairable(unitSums[u]))
  {
    if |unitSums| > 0 {
      var front := unitSums[..|unitSums| - 1];
      var last := PairableSums(unitSums)[|unitSums| - 1];
      PairableTotal(front);
      assert PairableSums(unitSums) == PairableSums(front) + [last];
      SumIntConcat(PairableSums(front), [last]);
      SumIntSingle([last], 0);
      assert forall u :: 0 <= u < |front| ==> front[u] == unitSums[u];
    }
  }

  /** One unit's pairings along row `c` of the coincidence table. */
  function Shares(counts: seq<int>, c: nat): (r: seq<real>)
    requires c < |counts|
    ensures |r| == |counts|
    ensures forall k :: 0 <= k < |counts| ==> r[k] == Pairing(counts, SumInt(counts), c, k)
  {
    seq(|counts|, k requires 0 <= k < |counts| => Pairing(counts, SumInt(counts), c, k))
  }

  /** The counts with one taken away from value `c`. */
  function LessOne(counts: seq<int>, c: nat): (r: seq<int>)
    requires c < |counts|
    ensures |r| == |counts|
    ensures forall k :: 0 <= k < |counts| ==> r[k] == counts[k] - (if c == k then 1 else 0)
  {
    seq(|counts|, k requires 0 <= k < |counts| => counts[k] - (if c == k then 1 else 0))
  }

  lemma LessOneSum(counts: seq<int>, c: nat)
    requires c < |counts|
    ensures SumInt(LessOne(counts, c)) == SumInt(counts) - 1
  {
    var w := |counts|;
    var one := Indicator(w, c);
    var minus := seq(w, k requires 0 <= k < w => -one[k]);
    SumIntSingle(one, c);
    SumIntScale(one, -1, minus);
    SumIntAdd(counts, minus, LessOne(counts, c));
  }

  /** The numerators of one unit's pairings along row `c`. */
  function PairCounts(counts: seq<int>, c: nat): (r: seq<int>)
    requires c < |counts|
    ensures |r| == |counts|
    ensures forall k :: 0 <= k < |counts| ==> r[k] == counts[c] * LessOne(counts, c)[k]
  {
    seq(|counts|, k requires 0 <= k < |counts| => counts[c] * LessOne(counts, c)[k])
  }

  /** One unit's pairings along a row of the coincidence table add up to its
      count of that value, when the unit is pairable, and to 0 otherwise. */
  lemma UnitPairings(counts: seq<int>, c: nat)
    requires c < |counts|
    ensures Sum(Shares(counts, c)) == if Pairable(SumInt(counts)) then counts[c] as real else 0.0
  {
    var mu := SumInt(counts);
    var shares := Shares(counts, c);
    if Pairable(mu) {
      SharesSum(counts, c);
      NumeratorsSum(counts, c);
      CancelQuotient(Sum(shares), Sum(ToReal(PairCounts(counts, c))), mu - 1, counts[c]);
    } else {
      SumZeroes(shares);
    }
  }

  lemma SharesSum(counts: seq<int>, c: nat)
    requires c < |counts| && Pairable(SumInt(counts))
    ensures Sum(Shares(counts, c)) == Sum(ToReal(PairCounts(counts, c))) / (SumInt(counts) - 1) as real
  {
    SharesQuotients(counts, c);
    SumDivide(ToReal(PairCounts(counts, c)), (SumInt(counts) - 1) as real, Shares(counts, c));
  }

  lemma NumeratorsSum(counts: seq<int>, c: nat)
    requires c < |counts|
    ensures Sum(ToReal(PairCounts(counts, c))) == (counts[c] * (SumInt(counts) - 1)) as real
  {
    PairCountsSum(counts, c);
    SumCast(PairCounts(counts, c));
  }

  lemma CancelQuotient(s: real, num: real, d: int, a: int)
    requires d > 0 && s == num / d as real && num == (a * d) as real
    ensures s == a as real
  {
    CancelDivide(a, d);
  }

  lemma PairCountsSum(counts: seq<int>, c: nat)
    requires c < |counts|
    ensures SumInt(PairCounts(counts, c)) == counts[c] * (SumInt(counts) - 1)
  {
    LessOneSum(counts, c);
    SumIntScale(LessOne(counts, c), counts[c], PairCounts(counts, c));
  }

  lemma SharesQuotients(counts: seq<int>, c: nat)
    requires c < |counts| && Pairable(SumInt(counts))
    ensures forall k :: 0 <= k < |counts| ==>
      Shares(counts, c)[k] == ToReal(PairCounts(counts, c))[k] / (SumInt(counts) - 1) as real
  {
  }

  lemma CancelDivide(a: int, d: int)
    requires d > 0
    ensures (a * d) as real / d as real == a as real
  {
    assert (a * d) as real == a as real * d as real;
  }

  /** The shape of the coincidence table: cell (c, k) is the sum of the
      units' pairings. */
  predicate CoincidenceCells(vbu: seq<seq<int>>, unitSums: seq<int>, w: nat, o: seq<seq<real>>)
    requires TablesArgs(vbu, unitSums, w)
  {
    |o| == w && Rectangular(o, w) &&
    forall c, k :: 0 <= c < w && 0 <= k < w ==> o[c][k] == Sum(PairingColumn(vbu, unitSums, w, c, k))
  }

  /** The coincidence table is symmetric. */
  lemma CoincidencesSymmetric(vbu: seq<seq<int>>, unitSums: seq<int>, w: nat, o: seq<seq<real>>)
    requires TablesArgs(vbu, unitSums, w) && CoincidenceCells(vbu, unitSums, w, o)
    ensures forall c, k :: 0 <= c < w && 0 <= k < w ==> o[c][k] == o[k][c]
  {
    forall c, k | 0 <= c < w && 0 <= k < w ensures o[c][k] == o[k][c] {
      var a := PairingColumn(vbu, unitSums, w, c, k);
      var b := PairingColumn(vbu, unitSums, w, k, c);
      forall u | 0 <= u < |vbu| ensures a[u] == b[u] {
        var n := vbu[u];
        if c != k {
          assert n[c] * n[k] == n[k] * n[c];
        }
      }
      assert a == b;
    }
  }

  /** The coincidences are non-negative when the counts are. */
  lemma CoincidencesNonNegative(vbu: seq<seq<int>>, unitSums: seq<int>, w: nat, o: seq<seq<real>>)
    requires TablesArgs(vbu, unitSums, w) && CoincidenceCells(vbu, unitSums, w, o)
    ensures NonNegativeCounts(vbu, w) ==> forall c, k :: 0 <= c < w && 0 <= k < w ==> o[c][k] >= 0.0
  {
    if NonNegativeCounts(vbu, w) {
      forall c, k | 0 <= c < w && 0 <= k < w ensures o[c][k] >= 0.0 {
        var col := PairingColumn(vbu, unitSums, w, c, k);
        assert NonNegative(col);
        SumNonNegative(col);
      }
    }
  }

  // ---------------------------------------------------------------------
  // Marginals

  /** The unit sums are the ones computed from the values-by-units table. */
  predicate Tabulated(vbu: seq<seq<int>>, unitSums: seq<int>, w: nat)
  {
    Rectangular(vbu, w) && unitSums == UnitSums(vbu)
  }

  /** Row `c` of the coincidence table, cell by cell, as per-unit columns. */
  function RowPairings(vbu: seq<seq<int>>, unitSums: seq<int>, w: nat, c: nat): (t: seq<seq<real>>)
    requires TablesArgs(vbu, unitSums, w) && c < w
    ensures |t| == w && Rectangular(t, |vbu|)
    ensures forall k :: 0 <= k < w ==> t[k] == PairingColumn(vbu, unitSums, w, c, k)
  {
    seq(w, k requires 0 <= k < w => PairingColumn(vbu, unitSums, w, c, k))
  }

  /** Row `c` of the coincidence table adds up to the marginal `valSums[c]`. */
  lemma CoincidenceRows(vbu: seq<seq<int>>, unitSums: seq<int>, w: nat, o: seq<seq<real>>)
    requires TablesArgs(vbu, unitSums, w) && CoincidenceCells(vbu, unitSums, w, o)
    ensures Tabulated(vbu, unitSums, w) ==> RowsAddUp(o, ValSums(vbu, unitSums, w), w)
  {
    if Tabulated(vbu, unitSums, w) {
      forall c | 0 <= c < w ensures Sum(o[c]) == ValSums(vbu, unitSums, w)[c] as real {
        var t := RowPairings(vbu, unitSums, w, c);
        var counted := Counted(vbu, unitSums, w, c);
        assert RowSums(t) == o[c];
        SumExchange(t, |vbu|);
        forall u | 0 <= u < |vbu| ensures ColumnSums(t, |vbu|)[u] == ToReal(counted)[u] {
          UnitColumn(vbu, unitSums, w, c, u);
        }
        assert ColumnSums(t, |vbu|) == ToReal(counted);
        SumCast(counted);
      }
    }
  }

  lemma UnitColumn(vbu: seq<seq<int>>, unitSums: seq<int>, w: nat, c: nat, u: nat)
    requires Tabulated(vbu, unitSums, w) && c < w && u < |vbu|
    ensures Sum(Column(RowPairings(vbu, unitSums, w, c), u)) == Counted(vbu, unitSums, w, c)[u] as real
  {
    assert Column(RowPairings(vbu, unitSums, w, c), u) == Shares(vbu[u], c);
    UnitPairings(vbu[u], c);
  }

  /** The counts of the pairable units, zero rows for the others. */
  function PairableCounts(vbu: seq<seq<int>>, unitSums: seq<int>, w: nat): (t: seq<seq<int>>)
    requires TablesArgs(vbu, unitSums, w)
    ensures |t| == |vbu| && Rectangular(t, w)
    ensures forall u, c :: 0 <= u < |vbu| && 0 <= c < w ==>
      t[u][c] == Counted(vbu, unitSums, w, c)[u]
  {
    seq(|vbu|, u requires 0 <= u < |vbu| =>
      seq(w, c requires 0 <= c < w => if Pairable(unitSums[u]) then vbu[u][c] else 0))
  }

  /** The marginals add up to the total n. */
  lemma ValSumsTotal(vbu: seq<seq<int>>, unitSums: seq<int>, w: nat, v: seq<int>)
    requires TablesArgs(vbu, unitSums, w)
    requires |v| == w && forall c :: 0 <= c < w ==> v[c] == SumInt(Counted(vbu, unitSums, w, c))
    ensures Tabulated(vbu, unitSums, w) ==> SumInt(v) == TotalSums(unitSums)
  {
    if Tabulated(vbu, unitSums, w) {
      var t := PairableCounts(vbu, unitSums, w);
      PairableColumns(vbu, unitSums, w, v, t);
      PairableRows(vbu, unitSums, w, t);
      SumIntExchange(t, w);
    }
  }

  lemma PairableColumns(vbu: seq<seq<int>>, unitSums: seq<int>, w: nat, v: seq<int>, t: seq<seq<int>>)
    requires TablesArgs(vbu, unitSums, w) && t == PairableCounts(vbu, unitSums, w)
    requires |v| == w && forall c :: 0 <= c < w ==> v[c] == SumInt(Counted(vbu, unitSums, w, c))
    ensures IntColumnSums(t, w) == v
  {
    forall c | 0 <= c < w ensures IntColumnSums(t, w)[c] == v[c] {
      assert Column(t, c) == Counted(vbu, unitSums, w, c);
    }
  }

  lemma PairableRows(vbu: seq<seq<int>>, unitSums: seq<int>, w: nat, t: seq<seq<int>>)
    requires Tabulated(vbu, unitSums, w) && t == PairableCounts(vbu, unitSums, w)
    ensures IntRowSums(t) == PairableSums(unitSums)
  {
    forall u | 0 <= u < |vbu| ensures IntRowSums(t)[u] == PairableSums(unitSums)[u] {
      if Pairable(unitSums[u]) {
        assert t[u] == vbu[u];
      } else {
        SumIntZeroes(t[u]);
      }
    }
  }

  /** The whole coincidence table adds up to the total n. */
  lemma CoincidencesTotal(vbu: seq<seq<int>>, unitSums: seq<int>, w: nat)
    requires Tabulated(vbu, unitSums, w)
    ensures Sum(RowSums(Coincidences(vbu, unitSums, w))) == TotalSums(unitSums) as real
  {
    var o := Coincidences(vbu, unitSums, w);
    var v := ValSums(vbu, unitSums, w);
    assert RowSums(o) == ToReal(v);
    SumCast(v);
  }

  // ---------------------------------------------------------------------
  // Units with at most one value

  function Without<T>(s: seq<T>, u: nat): (r: seq<T>)
    requires u < |s|
    ensures |r| == |s| - 1
  {
    s[..u] + s[u + 1..]
  }

  lemma SumWithout(s: seq<real>, u: nat)
    requires u < |s| && s[u] == 0.0
    ensures Sum(Without(s, u)) == Sum(s)
  {
    SumAround(s, u);
    SumConcat(s[..u], s[u + 1..]);
  }

  lemma SumIntWithout(s: seq<int>, u: nat)
    requires u < |s| && s[u] == 0
    ensures SumInt(Without(s, u)) == SumInt(s)
  {
    SumIntAround(s, u);
    SumIntConcat(s[..u], s[u + 1..]);
  }

  /** Dropping a unit that received at most one value changes neither the
      coincidences, nor the marginals, nor the total. */
  lemma LoneUnitIrrelevant(vbu: seq<seq<int>>, unitSums: seq<int>, w: nat, u: nat)
    requires TablesArgs(vbu, unitSums, w) && u < |vbu| && !Pairable(unitSums[u])
    ensures Coincidences(Without(vbu, u), Without(unitSums, u), w) == Coincidences(vbu, unitSums, w)
    ensures ValSums(Without(vbu, u), Without(unitSums, u), w) == ValSums(vbu, unitSums, w)
    ensures TotalSums(Without(unitSums, u)) == TotalSums(unitSums)
  {
    var vbu' := Without(vbu, u);
    var sums' := Without(unitSums, u);
    var o := Coincidences(vbu, unitSums, w);
    var o' := Coincidences(vbu', sums', w);
    forall c | 0 <= c < w ensures o'[c] == o[c] {
      forall k | 0 <= k < w ensures o'[c][k] == o[c][k] {
        LoneUnitCell(vbu, unitSums, w, u, c, k);
      }
    }
    forall c | 0 <= c < w
      ensures ValSums(vbu', sums', w)[c] == ValSums(vbu, unitSums, w)[c]
    {
      var col := Counted(vbu, unitSums, w, c);
      assert Counted(vbu', sums', w, c) == Without(col, u);
      SumIntWithout(col, u);
    }
    assert PairableSums(sums') == Without(PairableSums(unitSums), u);
    SumIntWithout(PairableSums(unitSums), u);
  }

  lemma LoneUnitCell(vbu: seq<seq<int>>, unitSums: seq<int>, w: nat, u: nat, c: nat, k: nat)
    requires TablesArgs(vbu, unitSums, w) && u < |vbu| && !Pairable(unitSums[u]) && c < w && k < w
    ensures Sum(PairingColumn(Without(vbu, u), Without(unitSums, u), w, c, k))
         == Sum(PairingColumn(vbu, unitSums, w, c, k))
  {
    var col := PairingColumn(vbu, unitSums, w, c, k);
    assert PairingColumn(Without(vbu, u), Without(unitSums, u), w, c, k) == Without(col, u);
    SumWithout(col, u);
  }

  // ---------------------------------------------------------------------
  // Expected coincidences

  /** The expected table e_ck = n_c (n_k - [c = k]) / (n - 1): symmetric,
      and non-negative for non-negative marginals and n > 1. The total is
      never 1 (`TotalSums`), so the division is always defined. */
  function Expecteds(valSums: seq<int>, n: int): (e: seq<seq<real>>)
    requires n != 1
    ensures |e| == |valSums| && Rectangular(e, |valSums|)
    ensures forall c, k :: 0 <= c < |valSums| && 0 <= k < |valSums| ==> e[c][k] == e[k][c]
    ensures NonNegativeInts(valSums) && n > 1 ==>
      forall c, k :: 0 <= c < |valSums| && 0 <= k < |valSums| ==> e[c][k] >= 0.0
  {
    var w := |valSums|;
    var e := seq(w, c requires 0 <= c < w =>
      seq(w, k requires 0 <= k < w =>
        (valSums[c] * (valSums[k] - (if c == k then 1 else 0))) as real / (n - 1) as real));
    ExpectedsFacts(valSums, n, e);
    e
  }

  lemma ExpectedsFacts(valSums: seq<int>, n: int, e: seq<seq<real>>)
    requires n != 1 && |e| == |valSums| && Rectangular(e, |valSums|)
    requires forall c, k :: 0 <= c < |valSums| && 0 <= k < |valSums| ==>
      e[c][k] == (valSums[c] * (valSums[k] - (if c == k then 1 else 0))) as real / (n - 1) as real
    ensures forall c, k :: 0 <= c < |valSums| && 0 <= k < |valSums| ==> e[c][k] == e[k][c]
    ensures NonNegativeInts(valSums) && n > 1 ==>
      forall c, k :: 0 <= c < |valSums| && 0 <= k < |valSums| ==> e[c][k] >= 0.0
  {
    var w := |valSums|;
    forall c, k | 0 <= c < w && 0 <= k < w ensures e[c][k] == e[k][c] {
      if c != k {
        assert valSums[c] * valSums[k] == valSums[k] * valSums[c];
      }
    }
    if NonNegativeInts(valSums) && n > 1 {
      forall c, k | 0 <= c < w && 0 <= k < w ensures e[c][k] >= 0.0 {
        PairsNonNegative(valSums, c, k);
      }
    }
  }

  /** With n the sum of the marginals and n > 1, row `c` of the expected
      table adds up to the marginal `valSums[c]`. */
  lemma ExpectedsRowSum(valSums: seq<int>, n: int, c: nat)
    requires n == SumInt(valSums) && n > 1 && c < |valSums|
    ensures Sum(Expecteds(valSums, n)[c]) == valSums[c] as real
  {
    var row := Expecteds(valSums, n)[c];
    forall k | 0 <= k < |valSums| ensures row[k] == Shares(valSums, c)[k] {
    }
    assert row == Shares(valSums, c);
    UnitPairings(valSums, c);
  }
}
