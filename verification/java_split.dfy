/** Java's `String.split(",")` and `String.matches(",*")` on strings,
    as the data-matrix parser uses them. */
module JavaStrings {

  /** `line.matches(",*")`: the line consists of commas only (or is empty). */
  predicate AllCommas(line: string)
  {
    forall i :: 0 <= i < |line| ==> line[i] == ','
  }

  /** Every piece between commas, empty ones included: n commas give n + 1 pieces. */
  function Pieces(s: string): (r: seq<string>)
    ensures |r| >= 1
    ensures forall i :: 0 <= i < |r| ==> ',' !in r[i]
  {
    if |s| == 0 then [""]
    else
      var rest := Pieces(s[1..]);
      if s[0] == ',' then [""] + rest
      else [[s[0]] + rest[0]] + rest[1..]
  }

  /** The pieces glued back together with commas. */
  function Join(pieces: seq<string>): string
    requires |pieces| >= 1
  {
    if |pieces| == 1 then pieces[0] else pieces[0] + "," + Join(pieces[1..])
  }

  /** Cutting at the commas and gluing back gives the original string. */
  lemma {:induction false} JoinPieces(s: string)
    ensures Join(Pieces(s)) == s
  {
    if |s| > 0 {
      var rest := Pieces(s[1..]);
      JoinPieces(s[1..]);
      if s[0] == ',' {
        assert ([""] + rest)[1..] == rest;
      } else {
        var r := [[s[0]] + rest[0]] + rest[1..];
        assert r[1..] == rest[1..];
        if |rest| > 1 {
          assert Join(rest) == rest[0] + "," + Join(rest[1..]);
        }
      }
    }
  }

  /** Comma-free pieces glued with commas are cut back into the same pieces. */
  lemma {:induction false} PiecesJoin(pieces: seq<string>)
    requires |pieces| >= 1
    requires forall i :: 0 <= i < |pieces| ==> ',' !in pieces[i]
    ensures Pieces(Join(pieces)) == pieces
    decreases |Join(pieces)|
  {
    var p := pieces[0];
    if |pieces| == 1 {
      PiecesOfCommaFree(p);
    } else {
      PiecesJoin(pieces[1..]);
      var tail := "," + Join(pieces[1..]);
      assert Join(pieces) == p + tail;
      PiecesPrefix(p, tail);
      assert tail[0] == ',' && tail[1..] == Join(pieces[1..]);
      assert Pieces(tail) == [""] + pieces[1..];
      assert p + "" == p;
      assert [p] + pieces[1..] == pieces;
    }
  }

  lemma {:induction false} PiecesOfCommaFree(p: string)
    requires ',' !in p
    ensures Pieces(p) == [p]
  {
    if |p| > 0 {
      assert ',' !in p[1..] by {
        forall i | 0 <= i < |p[1..]| ensures p[1..][i] != ',' {
          assert p[1..][i] == p[i + 1];
        }
      }
      PiecesOfCommaFree(p[1..]);
      assert [p[0]] + p[1..] == p;
    }
  }

  /** A comma-free prefix glues onto the first piece of what follows. */
  lemma {:induction false} PiecesPrefix(p: string, t: string)
    requires ',' !in p
    ensures Pieces(p + t) == [p + Pieces(t)[0]] + Pieces(t)[1..]
    decreases |p|
  {
    if |p| > 0 {
      assert ',' !in p[1..] by {
        forall i | 0 <= i < |p[1..]| ensures p[1..][i] != ',' {
          assert p[1..][i] == p[i + 1];
        }
      }
      assert (p + t)[1..] == p[1..] + t;
      PiecesPrefix(p[1..], t);
      assert [p[0]] + (p[1..] + Pieces(t)[0]) == p + Pieces(t)[0];
    } else {
      assert p + t == t;
      assert p + Pieces(t)[0] == Pieces(t)[0];
      assert Pieces(t) == [Pieces(t)[0]] + Pieces(t)[1..];
    }
  }

  /** Drops the empty pieces at the end, as `split` does with limit 0. */
  function DropTrailingEmpty(pieces: seq<string>): (r: seq<string>)
    ensures r <= pieces
    ensures |r| > 0 ==> r[|r| - 1] != ""
    ensures forall i :: |r| <= i < |pieces| ==> pieces[i] == ""
  {
    if |pieces| == 0 then []
    else if pieces[|pieces| - 1] == "" then DropTrailingEmpty(pieces[..|pieces| - 1])
    else pieces
  }

  /** `s.split(",")`: when there is no comma the result is `s` itself (so
      the empty line gives one empty field); otherwise the pieces with the
      trailing empty ones dropped. The result is a prefix of the comma
      pieces that leaves out only empty ones and, when the line has a comma,
      ends on a non-empty field. */
  function Split(s: string): (fields: seq<string>)
    ensures fields <= Pieces(s)
    ensures forall i :: |fields| <= i < |Pieces(s)| ==> Pieces(s)[i] == ""
    ensures ',' in s && |fields| > 0 ==> fields[|fields| - 1] != ""
    ensures ',' !in s ==> fields == [s]
  {
    if ',' !in s then
      PiecesOfCommaFree(s);
      [s]
    else DropTrailingEmpty(Pieces(s))
  }

  lemma {:induction false} NonCommaPiece(s: string, i: nat)
    requires i < |s| && s[i] != ','
    ensures exists j :: 0 <= j < |Pieces(s)| && Pieces(s)[j] != ""
  {
    if s[0] != ',' {
      assert Pieces(s)[0] != "";
    } else {
      NonCommaPiece(s[1..], i - 1);
      var j :| 0 <= j < |Pieces(s[1..])| && Pieces(s[1..])[j] != "";
      assert Pieces(s)[j + 1] == Pieces(s[1..])[j];
    }
  }

  /** A line that is not all commas has at least one field, so the parser's
      `hdr.length == 0` error cannot happen. */
  lemma SplitNotAllCommas(s: string)
    requires !AllCommas(s)
    ensures |Split(s)| >= 1
  {
    if ',' in s {
      var i :| 0 <= i < |s| && s[i] != ',';
      NonCommaPiece(s, i);
      var j :| 0 <= j < |Pieces(s)| && Pieces(s)[j] != "";
    }
  }

  /** A line that does not start with a comma keeps its first piece as a
      non-empty first field, so the parser's `li.length == 0` error cannot
      happen either. */
  lemma SplitFirstField(s: string)
    requires |s| > 0 && s[0] != ','
    ensures |Split(s)| >= 1
    ensures Split(s)[0] == Pieces(s)[0] && Split(s)[0] != ""
  {
    assert !AllCommas(s);
    SplitNotAllCommas(s);
  }
}
