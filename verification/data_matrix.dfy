/** The data matrix of one variable and its parser: comma-separated lines
    become a unit-by-observer grid of value indices, -1 marking a missing
    observation. */
module DataMatrices {
  import opened Common
  import opened JavaStrings

  /** One variable's data.  `matrix[u][o]` is the index into `values` of what
      observer `o` recorded for unit `u`, or -1 when nothing was recorded.
      The Java accessors `getUnits`, `getObservers` and `getValues` expose
      exactly these fields. */
  datatype DataMatrix = DataMatrix(
    variableName: string,
    observers: seq<string>,
    units: seq<string>,
    values: seq<string>,
    matrix: seq<seq<int>>)

  predicate Distinct(s: seq<string>)
  {
    forall i, j :: 0 <= i < j < |s| ==> s[i] != s[j]
  }

  /** Every row of `rows` has `width` cells, each -1 or an index into a list
      of `count` values. */
  predicate Grid(rows: seq<seq<int>>, width: nat, count: nat)
  {
    forall u :: 0 <= u < |rows| ==>
      |rows[u]| == width && forall o :: 0 <= o < width ==> -1 <= rows[u][o] < count
  }

  /** The shape every parsed matrix has: one row per unit, one cell per
      observer, cells that are -1 or valid value indices, no repeated value. */
  predicate WellFormed(dm: DataMatrix)
  {
    |dm.matrix| == |dm.units| && Distinct(dm.values) &&
    Grid(dm.matrix, |dm.observers|, |dm.values|)
  }

  /** `getValue(unit, observer)`. */
  function GetValue(dm: DataMatrix, u: nat, o: nat): (v: int)
    requires WellFormed(dm) && u < |dm.units| && o < |dm.observers|
    ensures -1 <= v < |dm.values|
  {
    dm.matrix[u][o]
  }

  // ---------------------------------------------------------------------
  // Parsing

  datatype ParseError = EmptyHeader(line: int) | EmptyRecord(line: int)

  /** A parsed matrix and the lines left unread after it. */
  datatype Parsed = Parsed(dm: DataMatrix, rest: seq<string>)

  /** A data line: non-empty and not starting with a comma. */
  predicate IsRecord(line: string)
  {
    |line| > 0 && line[0] != ','
  }

  /** The first line at or after `i` that is not made of commas only. */
  function SkipSeparators(lines: seq<string>, i: nat): (h: nat)
    requires i <= |lines|
    ensures i <= h <= |lines|
    ensures forall j :: i <= j < h ==> AllCommas(lines[j])
    ensures h < |lines| ==> !AllCommas(lines[h])
    decreases |lines| - i
  {
    if i == |lines| || !AllCommas(lines[i]) then i else SkipSeparators(lines, i + 1)
  }

  /** The first line at or after `i` that ends the data block. */
  function BlockEnd(lines: seq<string>, i: nat): (e: nat)
    requires i <= |lines|
    ensures i <= e <= |lines|
    ensures forall j :: i <= j < e ==> IsRecord(lines[j])
    ensures e < |lines| ==> !IsRecord(lines[e])
    decreases |lines| - i
  {
    if i == |lines| || !IsRecord(lines[i]) then i else BlockEnd(lines, i + 1)
  }

  /** Field `i` of a split line, empty when the line has fewer fields. */
  function Field(fields: seq<string>, i: nat): string
  {
    if i < |fields| then fields[i] else ""
  }

  /** The `valueIndex` lookup: the position of `v` in `values`, or -1. */
  function Find(values: seq<string>, v: string): (k: int)
    ensures -1 <= k < |values|
    ensures k >= 0 ==> values[k] == v
    ensures k < 0 <==> v !in values
  {
    if |values| == 0 then -1
    else if values[|values| - 1] == v then |values| - 1
    else Find(values[..|values| - 1], v)
  }

  /** Looks `v` up, appending it as a new value when it is not known yet. */
  function Intern(values: seq<string>, v: string): (r: (seq<string>, nat))
    requires Distinct(values)
    ensures values <= r.0 && Distinct(r.0)
    ensures r.1 < |r.0| && r.0[r.1] == v
    ensures |r.0| == |values| + (if v in values then 0 else 1)
  {
    var k := Find(values, v);
    if k >= 0 then (values, k) else (values + [v], |values|)
  }

  /** A cell code stands for a field: -1 exactly for an empty field,
      otherwise the index of the field among the values. */
  predicate CellEncodes(values: seq<string>, cell: int, field: string)
  {
    (cell == -1 <==> field == "") &&
    (cell != -1 ==> 0 <= cell < |values| && values[cell] == field)
  }

  /** A row encodes fields 1..width of a split data line. */
  predicate Encodes(values: seq<string>, row: seq<int>, fields: seq<string>, width: nat)
  {
    |row| == width &&
    forall o :: 0 <= o < width ==> CellEncodes(values, row[o], Field(fields, o + 1))
  }

  lemma CellEncodesExtend(values: seq<string>, more: seq<string>, cell: int, field: string)
    requires values <= more && CellEncodes(values, cell, field)
    ensures CellEncodes(more, cell, field)
  {
    if cell != -1 {
      assert more[cell] == values[cell];
    }
  }

  /** The inner loop over observers 1..width, filling one row; the Java
      `row.add(i-1, val)` inserts at the current end of the row, since the
      row holds exactly i-1 cells at that point. */
  function FillRow(fields: seq<string>, width: nat, i: nat, values: seq<string>, row: seq<int>)
    : (r: (seq<string>, seq<int>))
    requires 1 <= i <= width + 1 && |row| == i - 1
    requires Distinct(values)
    requires forall o :: 0 <= o < |row| ==> -1 <= row[o] < |values|
    ensures values <= r.0 && Distinct(r.0)
    ensures |r.1| == width && r.1[..i - 1] == row
    ensures forall o :: 0 <= o < width ==> -1 <= r.1[o] < |r.0|
    ensures forall o :: i - 1 <= o < width ==> CellEncodes(r.0, r.1[o], Field(fields, o + 1))
    decreases width + 1 - i
  {
    if i > width then (values, row)
    else if Field(fields, i) == "" then
      var r := FillRow(fields, width, i + 1, values, row + [-1]);
      PrefixStep(r.1, row, -1);
      r
    else
      var (vs, k) := Intern(values, fields[i]);
      var r := FillRow(fields, width, i + 1, vs, row + [k]);
      CellEncodesExtend(vs, r.0, k, fields[i]);
      PrefixStep(r.1, row, k);
      r
  }

  /** A sequence that starts with row + [x] starts with row and holds x next. */
  lemma PrefixStep(s: seq<int>, row: seq<int>, x: int)
    requires |row| < |s| && s[..|row| + 1] == row + [x]
    ensures s[..|row|] == row && s[|row|] == x
  {
    assert s[..|row|] == s[..|row| + 1][..|row|];
    assert s[|row|] == s[..|row| + 1][|row|];
  }

  /** Every line of a block, split at the commas. */
  function SplitAll(block: seq<string>): (recs: seq<seq<string>>)
    ensures |recs| == |block|
    ensures forall j :: 0 <= j < |block| ==> recs[j] == Split(block[j])
  {
    seq(|block|, j requires 0 <= j < |block| => Split(block[j]))
  }

  /** The split data lines that define a unit (more than one field), in order. */
  function UnitLines(recs: seq<seq<string>>): (ul: seq<seq<string>>)
    ensures |ul| <= |recs|
    ensures forall u :: 0 <= u < |ul| ==> |ul[u]| > 1
  {
    if |recs| == 0 then []
    else (if |recs[0]| > 1 then [recs[0]] else []) + UnitLines(recs[1..])
  }

  /** The parser's growing state: the value list, the unit names and rows. */
  datatype Acc = Acc(values: seq<string>, units: seq<string>, rows: seq<seq<int>>)

  predicate AccOk(acc: Acc, width: nat)
  {
    |acc.units| == |acc.rows| && Distinct(acc.values) && Grid(acc.rows, width, |acc.values|)
  }

  /** `a` is `acc` after the unit lines of `block`: the earlier units and rows
      are kept, the value list only grows, and each unit line of the block
      adds its first field as a unit and a row encoding its other fields. */
  predicate Extends(acc: Acc, a: Acc, recs: seq<seq<string>>, width: nat)
  {
    var ul := UnitLines(recs);
    var k := |acc.units|;
    |acc.rows| == k && |a.rows| == |a.units| &&
    acc.values <= a.values &&
    |a.units| == k + |ul| &&
    a.units[..k] == acc.units && a.rows[..|acc.rows|] == acc.rows &&
    forall u :: 0 <= u < |ul| ==>
      a.units[k + u] == ul[u][0] && Encodes(a.values, a.rows[k + u], ul[u], width)
  }

  /** The record loop over the split lines of a data block whose first line
      is line `lineNo`.  Each line with more than one field appends a unit and
      its row; the `li.length == 0` error happens exactly on a line without
      fields, which a data line never is (see `RecordFields`). */
  function Records(recs: seq<seq<string>>, width: nat, acc: Acc, lineNo: nat)
    : (r: Result<Acc, ParseError>)
    requires AccOk(acc, width)
    ensures r.Success? <==> AllHaveFields(recs)
    ensures r.Success? ==> AccOk(r.value, width) && Extends(acc, r.value, recs, width)
    decreases |recs|
  {
    if |recs| == 0 then Success(acc)
    else
      var li := recs[0];
      AllHaveFieldsStep(recs);
      if |li| == 0 then Failure(EmptyRecord(lineNo))
      else if |li| == 1 then
        var r := Records(recs[1..], width, acc, lineNo + 1);
        if r.Failure? then r
        else
          OtherLineStep(recs, width, acc, r.value);
          r
      else
        var (vs, row) := FillRow(li, width, 1, acc.values, []);
        var next := Acc(vs, acc.units + [li[0]], acc.rows + [row]);
        var r := Records(recs[1..], width, next, lineNo + 1);
        if r.Failure? then r
        else
          UnitLineStep(recs, width, acc, vs, row, r.value);
          r
  }

  /** Every split line has at least one field. */
  predicate AllHaveFields(recs: seq<seq<string>>)
  {
    forall j :: 0 <= j < |recs| ==> |recs[j]| >= 1
  }

  lemma AllHaveFieldsStep(recs: seq<seq<string>>)
    requires |recs| > 0
    ensures AllHaveFields(recs) <==> |recs[0]| >= 1 && AllHaveFields(recs[1..])
  {
    assert forall j :: 1 <= j < |recs| ==> recs[j] == recs[1..][j - 1];
  }

  /** A line with a single field adds no unit. */
  lemma OtherLineStep(recs: seq<seq<string>>, width: nat, acc: Acc, a: Acc)
    requires |recs| > 0 && |recs[0]| <= 1
    requires Extends(acc, a, recs[1..], width)
    ensures Extends(acc, a, recs, width)
  {
    assert UnitLines(recs) == UnitLines(recs[1..]);
  }

  /** A data line has at least one field. */
  lemma RecordFields(line: string)
    ensures IsRecord(line) ==> |Split(line)| >= 1
  {
    if IsRecord(line) {
      SplitFirstField(line);
    }
  }

  /** A unit line's row survives the rest of the record loop. */
  lemma UnitLineStep(recs: seq<seq<string>>, width: nat, acc: Acc, vs: seq<string>, row: seq<int>, a: Acc)
    requires |recs| > 0 && |recs[0]| > 1 && |acc.units| == |acc.rows|
    requires acc.values <= vs && Encodes(vs, row, recs[0], width)
    requires Extends(Acc(vs, acc.units + [recs[0][0]], acc.rows + [row]), a, recs[1..], width)
    ensures Extends(acc, a, recs, width)
  {
    var li := recs[0];
    var next := Acc(vs, acc.units + [li[0]], acc.rows + [row]);
    var ul := UnitLines(recs);
    var tail := UnitLines(recs[1..]);
    var k := |acc.units|;
    assert ul == [li] + tail;
    assert a.units[..k + 1] == next.units;
    assert a.rows[..k + 1] == next.rows;
    assert a.units[..k] == a.units[..k + 1][..k];
    assert a.rows[..k] == a.rows[..k + 1][..k];
    assert a.units[k] == a.units[..k + 1][k];
    assert a.rows[k] == a.rows[..k + 1][k] == row;
    forall o | 0 <= o < width
      ensures CellEncodes(a.values, row[o], Field(li, o + 1))
    {
      CellEncodesExtend(vs, a.values, row[o], Field(li, o + 1));
    }
    forall u | 0 <= u < |ul|
      ensures a.units[k + u] == ul[u][0]
      ensures Encodes(a.values, a.rows[k + u], ul[u], width)
    {
      if u > 0 {
        assert ul[u] == tail[u - 1];
        assert k + u == |next.units| + (u - 1);
      }
    }
  }

  /** The Java copy of the row lists into an `int[units][observers]` array. */
  function CopyMatrix(rows: seq<seq<int>>, width: nat): (m: seq<seq<int>>)
    requires forall u :: 0 <= u < |rows| ==> |rows[u]| == width
    ensures m == rows
  {
    var m := seq(|rows|, u requires 0 <= u < |rows| => seq(width, o requires 0 <= o < width => rows[u][o]));
    assert forall u :: 0 <= u < |rows| ==> m[u] == rows[u];
    m
  }

  /** What a successful parse of `lines` holds: the header is the first line
      not made of commas only; its first field names the variable and the
      others the observers; the data block runs from the next line up to end
      of input, an empty line or a line starting with a comma, and that
      terminating line is consumed; every unit line of the block gives one
      unit, named by its first field, and one row encoding its fields. */
  predicate Describes(lines: seq<string>, p: Parsed)
  {
    SkipSeparators(lines, 0) < |lines| && DescribesFrom(lines, SkipSeparators(lines, 0), p)
  }

  /** `Describes` for the header on line h. */
  predicate DescribesFrom(lines: seq<string>, h: nat, p: Parsed)
    requires h < |lines|
  {
    Laid(Split(lines[h]), UnitLines(Block(lines)), p.dm) &&
    p.rest == After(lines, BlockEnd(lines, h + 1))
  }

  /** The split lines of the data block under the header, if there is one. */
  function Block(lines: seq<string>): seq<seq<string>>
  {
    if SkipSeparators(lines, 0) < |lines|
    then SplitAll(lines[SkipSeparators(lines, 0) + 1..BlockEnd(lines, SkipSeparators(lines, 0) + 1)])
    else []
  }

  /** The number of observers the header names, if there is a header. */
  function Width(lines: seq<string>): nat
  {
    if SkipSeparators(lines, 0) < |lines| && |Split(lines[SkipSeparators(lines, 0)])| >= 1
    then |Split(lines[SkipSeparators(lines, 0)])| - 1
    else 0
  }

  /** The lines after the terminating line e, if there is one. */
  function After(lines: seq<string>, e: nat): seq<string>
  {
    if e < |lines| then lines[e + 1..] else []
  }

  /** The matrix has the header `hdr` and one unit and row per unit line. */
  predicate Laid(hdr: seq<string>, ul: seq<seq<string>>, dm: DataMatrix)
    requires forall u :: 0 <= u < |ul| ==> |ul[u]| >= 1
  {
    |hdr| >= 1 &&
    dm.variableName == hdr[0] &&
    dm.observers == hdr[1..] &&
    WellFormed(dm) &&
    |dm.units| == |ul| &&
    forall u :: 0 <= u < |ul| ==>
      dm.units[u] == ul[u][0] && Encodes(dm.values, dm.matrix[u], ul[u], |dm.observers|)
  }

  /** `DataMatrix.parse` on the lines of a reader: `None` exactly when every
      line is made of commas only, and otherwise a matrix as `Describes`
      states.  Neither `RuntimeException` of the source can be thrown. */
  function Parse(lines: seq<string>): (r: Result<Option<Parsed>, ParseError>)
    ensures r.Success?
    ensures r.value.None? <==> forall j :: 0 <= j < |lines| ==> AllCommas(lines[j])
    ensures r.value.Some? ==> Describes(lines, r.value.value)
  {
    var h := SkipSeparators(lines, 0);
    if h == |lines| then Success(None)
    else
      var hdr := Split(lines[h]);
      SplitNotAllCommas(lines[h]);
      if |hdr| == 0 then Failure(EmptyHeader(h + 1))
      else
        var e := BlockEnd(lines, h + 1);
        BlockHasFields(lines, h + 1, e);
        match Records(Block(lines), Width(lines), Acc([], [], []), h + 2)
        case Failure(err) => Failure(err)
        case Success(acc) =>
          var dm := DataMatrix(hdr[0], hdr[1..], acc.units, acc.values, CopyMatrix(acc.rows, Width(lines)));
          var p := Parsed(dm, After(lines, e));
          Assemble(lines, h, hdr, e, Block(lines), acc, p);
          Success(Some(p))
  }

  /** The split lines of a block of data lines all have fields. */
  lemma BlockHasFields(lines: seq<string>, i: nat, e: nat)
    requires i <= e <= |lines|
    requires forall j :: i <= j < e ==> IsRecord(lines[j])
    ensures AllHaveFields(SplitAll(lines[i..e]))
  {
    var recs := SplitAll(lines[i..e]);
    forall j | 0 <= j < |recs| ensures |recs[j]| >= 1 {
      assert lines[i..e][j] == lines[i + j];
      RecordFields(lines[i + j]);
    }
  }

  /** The record loop's result, under the header, is the described matrix. */
  lemma Assemble(lines: seq<string>, h: nat, hdr: seq<string>, e: nat, recs: seq<seq<string>>, acc: Acc, p: Parsed)
    requires h == SkipSeparators(lines, 0) && h < |lines|
    requires hdr == Split(lines[h]) && |hdr| >= 1
    requires e == BlockEnd(lines, h + 1) && recs == Block(lines)
    requires AccOk(acc, |hdr| - 1) && Extends(Acc([], [], []), acc, recs, |hdr| - 1)
    requires p == Parsed(DataMatrix(hdr[0], hdr[1..], acc.units, acc.values, acc.rows), After(lines, e))
    ensures Describes(lines, p)
  {
    Laying(hdr, recs, acc, p.dm);
    assert DescribesFrom(lines, h, p);
  }

  /** The record loop's accumulator, under the header, lays out the unit lines. */
  lemma Laying(hdr: seq<string>, recs: seq<seq<string>>, acc: Acc, dm: DataMatrix)
    requires |hdr| >= 1 && AccOk(acc, |hdr| - 1) && Extends(Acc([], [], []), acc, recs, |hdr| - 1)
    requires dm == DataMatrix(hdr[0], hdr[1..], acc.units, acc.values, acc.rows)
    ensures Laid(hdr, UnitLines(recs), dm)
  {
    var ul := UnitLines(recs);
    forall u | 0 <= u < |ul|
      ensures dm.units[u] == ul[u][0] && Encodes(dm.values, dm.matrix[u], ul[u], |dm.observers|)
    {
      assert 0 + u == u;
    }
  }

  // ---------------------------------------------------------------------
  // Dense indexing in order of first appearance

  /** Reference definition: the distinct strings of `s`, each at the place
      where it first occurs. */
  function FirstAppearances(s: seq<string>): seq<string>
  {
    if |s| == 0 then []
    else
      var d := FirstAppearances(s[..|s| - 1]);
      if s[|s| - 1] in d then d else d + [s[|s| - 1]]
  }

  /** The first appearances hold every string of `s` once and nothing else. */
  lemma {:induction false} FirstAppearancesSpec(s: seq<string>)
    ensures Distinct(FirstAppearances(s))
    ensures forall x :: x in FirstAppearances(s) <==> x in s
  {
    if |s| > 0 {
      FirstAppearancesSpec(s[..|s| - 1]);
      assert s == s[..|s| - 1] + [s[|s| - 1]];
    }
  }

  /** The non-empty fields among fields i..width of a split line, in order. */
  function RowFields(fields: seq<string>, width: nat, i: nat): seq<string>
    decreases width + 1 - i
  {
    if i > width then []
    else (if Field(fields, i) == "" then [] else [Field(fields, i)]) + RowFields(fields, width, i + 1)
  }

  /** Every recorded field of the unit lines, row by row. */
  function Observed(ul: seq<seq<string>>, width: nat): seq<string>
  {
    if |ul| == 0 then [] else RowFields(ul[0], width, 1) + Observed(ul[1..], width)
  }

  /** Interning one more field extends the first appearances by that field. */
  lemma InternFirstAppearance(seen: seq<string>, f: string)
    ensures Distinct(FirstAppearances(seen))
    ensures Intern(FirstAppearances(seen), f).0 == FirstAppearances(seen + [f])
  {
    FirstAppearancesSpec(seen);
    assert (seen + [f])[..|seen|] == seen;
  }

  lemma RowFieldsStep(seen: seq<string>, fields: seq<string>, width: nat, i: nat)
    requires 1 <= i <= width
    ensures seen + RowFields(fields, width, i) ==
      (if Field(fields, i) == "" then seen else seen + [Field(fields, i)]) + RowFields(fields, width, i + 1)
  {
  }

  /** Filling a row interns its fields exactly as first appearances dictate. */
  lemma {:induction false} FillRowFirstAppearance(
    seen: seq<string>, fields: seq<string>, width: nat, i: nat, row: seq<int>)
    requires 1 <= i <= width + 1 && |row| == i - 1
    requires Distinct(FirstAppearances(seen))
    requires forall o :: 0 <= o < |row| ==> -1 <= row[o] < |FirstAppearances(seen)|
    ensures FillRow(fields, width, i, FirstAppearances(seen), row).0 ==
      FirstAppearances(seen + RowFields(fields, width, i))
    decreases width + 1 - i, 1
  {
    if i > width {
      assert seen + [] == seen;
    } else if Field(fields, i) == "" {
      RowFieldsStep(seen, fields, width, i);
      FillRowFirstAppearance(seen, fields, width, i + 1, row + [-1]);
    } else {
      FieldFirstAppearance(seen, fields, width, i, row);
    }
  }

  /** `FillRowFirstAppearance` at a non-empty field. */
  lemma {:induction false} FieldFirstAppearance(
    seen: seq<string>, fields: seq<string>, width: nat, i: nat, row: seq<int>)
    requires 1 <= i <= width && |row| == i - 1 && Field(fields, i) != ""
    requires Distinct(FirstAppearances(seen))
    requires forall o :: 0 <= o < |row| ==> -1 <= row[o] < |FirstAppearances(seen)|
    ensures FillRow(fields, width, i, FirstAppearances(seen), row).0 ==
      FirstAppearances(seen + RowFields(fields, width, i))
    decreases width + 1 - i, 0
  {
    var f := fields[i];
    var r := Intern(FirstAppearances(seen), f);
    InternFirstAppearance(seen, f);
    FirstAppearancesSpec(seen + [f]);
    FillRowFirstAppearance(seen + [f], fields, width, i + 1, row + [r.1]);
    RowFieldsStep(seen, fields, width, i);
  }

  /** The record loop interns the fields of the unit lines in order of first
      appearance. */
  lemma {:induction false} RecordsFirstAppearance(
    seen: seq<string>, recs: seq<seq<string>>, width: nat, acc: Acc, lineNo: nat)
    requires AccOk(acc, width) && acc.values == FirstAppearances(seen)
    requires Records(recs, width, acc, lineNo).Success?
    ensures Records(recs, width, acc, lineNo).value.values ==
      FirstAppearances(seen + Observed(UnitLines(recs), width))
    decreases |recs|, 1
  {
    if |recs| == 0 {
      assert seen + [] == seen;
    } else if |recs[0]| == 1 {
      RecordsFirstAppearance(seen, recs[1..], width, acc, lineNo + 1);
      assert UnitLines(recs) == UnitLines(recs[1..]);
    } else {
      UnitLineFirstAppearance(seen, recs, width, acc, lineNo);
    }
  }

  lemma {:induction false} UnitLineFirstAppearance(
    seen: seq<string>, recs: seq<seq<string>>, width: nat, acc: Acc, lineNo: nat)
    requires |recs| > 0 && |recs[0]| > 1
    requires AccOk(acc, width) && acc.values == FirstAppearances(seen)
    requires Records(recs, width, acc, lineNo).Success?
    ensures Records(recs, width, acc, lineNo).value.values ==
      FirstAppearances(seen + Observed(UnitLines(recs), width))
    decreases |recs|, 0
  {
    var li := recs[0];
    var (vs, row) := FillRow(li, width, 1, acc.values, []);
    var next := Acc(vs, acc.units + [li[0]], acc.rows + [row]);
    RecordsUnitLine(recs, width, acc, lineNo);
    FillRowFirstAppearance(seen, li, width, 1, []);
    var seen' := seen + RowFields(li, width, 1);
    RecordsFirstAppearance(seen', recs[1..], width, next, lineNo + 1);
    ObservedUnitLine(seen, recs, width);
  }

  /** The record loop after a unit line goes on from that line's row. */
  lemma RecordsUnitLine(recs: seq<seq<string>>, width: nat, acc: Acc, lineNo: nat)
    requires |recs| > 0 && |recs[0]| > 1 && AccOk(acc, width)
    ensures
      var (vs, row) := FillRow(recs[0], width, 1, acc.values, []);
      var next := Acc(vs, acc.units + [recs[0][0]], acc.rows + [row]);
      AccOk(next, width) &&
      Records(recs, width, acc, lineNo) == Records(recs[1..], width, next, lineNo + 1)
  {
  }

  lemma ObservedUnitLine(seen: seq<string>, recs: seq<seq<string>>, width: nat)
    requires |recs| > 0 && |recs[0]| > 1
    ensures seen + Observed(UnitLines(recs), width) ==
      seen + RowFields(recs[0], width, 1) + Observed(UnitLines(recs[1..]), width)
  {
    var tail := UnitLines(recs[1..]);
    assert UnitLines(recs) == [recs[0]] + tail;
    assert ([recs[0]] + tail)[1..] == tail;
  }

  lemma {:induction false} InRowFields(fields: seq<string>, width: nat, i: nat, x: string)
    requires x in RowFields(fields, width, i)
    ensures x != "" && exists j :: i <= j <= width && Field(fields, j) == x
    decreases width + 1 - i
  {
    if i <= width && (Field(fields, i) == "" || x != Field(fields, i)) {
      InRowFields(fields, width, i + 1, x);
    }
  }

  lemma {:induction false} InObserved(ul: seq<seq<string>>, width: nat, x: string)
    requires x in Observed(ul, width)
    ensures x != ""
    ensures exists u, j :: 0 <= u < |ul| && 1 <= j <= width && Field(ul[u], j) == x
  {
    if x in RowFields(ul[0], width, 1) {
      InRowFields(ul[0], width, 1, x);
      var j :| 1 <= j <= width && Field(ul[0], j) == x;
      assert Field(ul[0], j) == x;
    } else {
      InObserved(ul[1..], width, x);
      var u, j :| 0 <= u < |ul[1..]| && 1 <= j <= width && Field(ul[1..][u], j) == x;
      assert Field(ul[u + 1], j) == x;
    }
  }

  /** Value index `k` occurs in some cell of the matrix. */
  predicate Used(dm: DataMatrix, k: int)
  {
    exists u, o :: 0 <= u < |dm.matrix| && 0 <= o < |dm.observers| && o < |dm.matrix[u]| && dm.matrix[u][o] == k
  }

  /** The value list holds the recorded fields of the unit lines without
      repetition, in order of first appearance: row by row, observer by
      observer. */
  lemma ParseValueOrder(lines: seq<string>)
    requires Parse(lines).value.Some?
    ensures Parse(lines).value.value.dm.values == FirstAppearances(Observed(UnitLines(Block(lines)), Width(lines)))
  {
    var recs := Block(lines);
    ParseHeader(lines);
    ParseRecords(lines, SkipSeparators(lines, 0));
    RecordsFirstAppearance([], recs, Width(lines), Acc([], [], []), SkipSeparators(lines, 0) + 2);
    assert [] + Observed(UnitLines(recs), Width(lines)) == Observed(UnitLines(recs), Width(lines));
  }

  /** A parse that finds a matrix found a non-empty header line. */
  lemma ParseHeader(lines: seq<string>)
    requires Parse(lines).value.Some?
    ensures SkipSeparators(lines, 0) < |lines| && |Split(lines[SkipSeparators(lines, 0)])| >= 1
  {
  }

  /** The parsed value list, under header line h, is the one the record
      loop builds. */
  lemma ParseRecords(lines: seq<string>, h: nat)
    requires h == SkipSeparators(lines, 0) && h < |lines| && |Split(lines[h])| >= 1
    requires Parse(lines).value.Some?
    ensures Records(Block(lines), Width(lines), Acc([], [], []), h + 2).Success?
    ensures Parse(lines).value.value.dm.values ==
      Records(Block(lines), Width(lines), Acc([], [], []), h + 2).value.values
  {
    ParseRecordsSucceed(lines, h);
    var hdr, acc := Split(lines[h]), Records(Block(lines), Width(lines), Acc([], [], []), h + 2).value;
    assert Parse(lines) == Success(Some(Parsed(DataMatrix(hdr[0], hdr[1..], acc.units, acc.values, acc.rows), After(lines, BlockEnd(lines, h + 1)))));
  }

  /** The record loop under a header that yields a matrix succeeds. */
  lemma ParseRecordsSucceed(lines: seq<string>, h: nat)
    requires h == SkipSeparators(lines, 0) && h < |lines| && |Split(lines[h])| >= 1
    requires Parse(lines).value.Some?
    ensures Records(Block(lines), Width(lines), Acc([], [], []), h + 2).Success?
  {
  }

  /** A parsed matrix lays out the unit lines of the block under its header. */
  lemma ParseLaid(lines: seq<string>)
    requires Parse(lines).value.Some?
    ensures SkipSeparators(lines, 0) < |lines|
    ensures Laid(Split(lines[SkipSeparators(lines, 0)]), UnitLines(Block(lines)), Parse(lines).value.value.dm)
    ensures |Parse(lines).value.value.dm.observers| == Width(lines)
  {
    assert Describes(lines, Parse(lines).value.value);
  }

  /** Indices are dense: every value index occurs somewhere in the matrix. */
  lemma ParseValuesUsed(lines: seq<string>)
    requires Parse(lines).value.Some?
    ensures forall k :: 0 <= k < |Parse(lines).value.value.dm.values| ==> Used(Parse(lines).value.value.dm, k)
  {
    var dm := Parse(lines).value.value.dm;
    var width := Width(lines);
    var ul := UnitLines(Block(lines));
    ParseLaid(lines);
    ParseValueOrder(lines);
    FirstAppearancesSpec(Observed(ul, width));
    UsedEvery(dm, ul, width);
  }

  /** In a matrix laid out from unit lines whose recorded fields are its
      value list, every value index is used. */
  lemma UsedEvery(dm: DataMatrix, ul: seq<seq<string>>, width: nat)
    requires forall u :: 0 <= u < |ul| ==> |ul[u]| >= 1
    requires |dm.observers| == width && WellFormed(dm) && |dm.units| == |ul|
    requires forall u :: 0 <= u < |ul| ==> Encodes(dm.values, dm.matrix[u], ul[u], width)
    requires forall x :: x in dm.values <==> x in Observed(ul, width)
    ensures forall k :: 0 <= k < |dm.values| ==> Used(dm, k)
  {
    forall k | 0 <= k < |dm.values|
      ensures Used(dm, k)
    {
      var x := dm.values[k];
      InObserved(ul, width, x);
      var u, j :| 0 <= u < |ul| && 1 <= j <= width && Field(ul[u], j) == x;
      assert CellEncodes(dm.values, dm.matrix[u][j - 1], Field(ul[u], j));
      assert dm.matrix[u][j - 1] == k;
    }
  }
}
