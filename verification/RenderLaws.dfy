/** What compaction and rendering look at, said of the bytes of the tokens. */
module RenderLaws {
  import opened Bytes
  import opened Masking
  import opened Numbering
  import opened Sanitize
  import opened SelectLists
  import opened Wrappers

  // ---------------------------------------------------------------------
  // Lexemes and SELECT lists
  // ---------------------------------------------------------------------

  predicate Is(text: seq<byte>, word: string)
    requires forall i :: 0 <= i < |word| ==> word[i] as int < 128
  {
    EqIgnoreCase(text, Ascii(word))
  }

  /** Only these tokens end a list. */
  predicate EndsList(text: seq<byte>) {
    || text == [')' as int] || text == [';' as int]
    || Is(text, "EXCEPT") || Is(text, "FETCH") || Is(text, "FOR") || Is(text, "FROM") || Is(text, "GROUP")
    || Is(text, "HAVING") || Is(text, "INTO") || Is(text, "INTERSECT") || Is(text, "LIMIT") || Is(text, "OFFSET")
    || Is(text, "ORDER") || Is(text, "UNION") || Is(text, "WHERE") || Is(text, "WINDOW")
  }

  lemma TerminatorIs(text: seq<byte>)
    ensures SelectListTerminator(text) || text == [')' as int] || text == [';' as int] <==> EndsList(text)
  {
    hide EqIgnoreCase;
    assert TERMINATORS[0] == "EXCEPT" && TERMINATORS[1] == "FETCH" && TERMINATORS[2] == "FOR" && TERMINATORS[3] == "FROM";
    assert TERMINATORS[4] == "GROUP" && TERMINATORS[5] == "HAVING" && TERMINATORS[6] == "INTO";
    assert TERMINATORS[7] == "INTERSECT" && TERMINATORS[8] == "LIMIT" && TERMINATORS[9] == "OFFSET";
    assert TERMINATORS[10] == "ORDER" && TERMINATORS[11] == "UNION" && TERMINATORS[12] == "WHERE" && TERMINATORS[13] == "WINDOW";
    assert |TERMINATORS| == 14;
  }

  lemma LexemeIs(text: seq<byte>)
    ensures var l := LexemeOf(text);
            && (l.open <==> text == ['(' as int]) && (l.close <==> text == [')' as int])
            && (l.comma <==> text == [',' as int]) && (l.stop <==> EndsList(text)) && (l.select <==> Is(text, "SELECT"))
  {
    TerminatorIs(text);
    assert Ascii("SELECT") == SELECT;
    hide EndsList, SelectListTerminator, EqIgnoreCase;
  }

  function OpeningsBefore(lx: seq<Lexeme>, i: nat): set<nat> { set j: nat | j < i && j < |lx| && lx[j].open }

  function ClosingsBefore(lx: seq<Lexeme>, i: nat): set<nat> {
    set j: nat | j < i && j < |lx| && !lx[j].open && lx[j].close
  }

  /** The depth before a token: opening parentheses before it, less the closing ones. */
  lemma {:induction false} DepthIs(lx: seq<Lexeme>, i: nat)
    requires i <= |lx|
    ensures Depth(lx, i) == |OpeningsBefore(lx, i)| - |ClosingsBefore(lx, i)|
  {
    if i > 0 {
      var n := i - 1;
      DepthIs(lx, n);
      if lx[n].open {
        assert OpeningsBefore(lx, i) == OpeningsBefore(lx, n) + {n} && ClosingsBefore(lx, i) == ClosingsBefore(lx, n);
      } else if lx[n].close {
        assert OpeningsBefore(lx, i) == OpeningsBefore(lx, n) && ClosingsBefore(lx, i) == ClosingsBefore(lx, n) + {n};
      } else {
        assert OpeningsBefore(lx, i) == OpeningsBefore(lx, n) && ClosingsBefore(lx, i) == ClosingsBefore(lx, n);
      }
    }
  }

  /** The commas at `depth` in `[i, e)`. */
  function CommasIn(lx: seq<Lexeme>, depth: int, i: nat, e: nat): set<nat> {
    set j: nat | i <= j < e && j < |lx| && Depth(lx, j) == depth && lx[j].comma
  }

  lemma {:induction false} CommasAre(lx: seq<Lexeme>, depth: int, i: nat, e: nat)
    requires i <= e <= |lx|
    ensures Commas(lx, depth, i, e) == |CommasIn(lx, depth, i, e)|
    decreases e
  {
    if i < e {
      var n := e - 1;
      CommasAre(lx, depth, i, n);
      hide Depth;
      if CommaAt(lx, depth, n) {
        assert CommasIn(lx, depth, i, e) == CommasIn(lx, depth, i, n) + {n};
      } else {
        assert CommasIn(lx, depth, i, e) == CommasIn(lx, depth, i, n);
      }
    }
  }

  /** A compaction counts the commas at the depth of its SELECT up to the token that ends the list. */
  lemma ColumnsAre(lx: seq<Lexeme>, s: nat)
    requires s < |lx|
    ensures RangeOf(lx, s).additionalColumns == |CommasIn(lx, Depth(lx, s), s + 1, RangeOf(lx, s).end)|
  {
    CommasAre(lx, Depth(lx, s), s + 1, RangeOf(lx, s).end);
  }

  /** It runs from the first comma at the depth of its SELECT to the token that ends the list there, or to the end. */
  lemma RangeIs(lx: seq<Lexeme>, s: nat)
    requires IsCandidate(lx, s)
    ensures var x, depth := RangeOf(lx, s), Depth(lx, s);
            && s < x.start < x.end <= |lx|
            && Depth(lx, x.start) == depth && lx[x.start].comma
            && (forall j :: s < j < x.start ==> !(Depth(lx, j) == depth && lx[j].comma))
            && (forall j :: s < j < x.end ==> !(Depth(lx, j) == depth && lx[j].stop))
            && (x.end < |lx| ==> Depth(lx, x.end) == depth && lx[x.end].stop)
  {
    var x, depth := RangeOf(lx, s), Depth(lx, s);
    hide Depth;
    assert CommaAt(lx, depth, x.start);
    forall j | s < j < x.start ensures !(Depth(lx, j) == depth && lx[j].comma) {
      assert !CommaAt(lx, depth, j);
    }
    forall j | s < j < x.end ensures !(Depth(lx, j) == depth && lx[j].stop) {
      assert !EndsAt(lx, depth, j);
    }
    assert x.end < |lx| ==> EndsAt(lx, depth, x.end);
  }

  // ---------------------------------------------------------------------
  // The output
  // ---------------------------------------------------------------------

  /** The marker of a compacted range says how many columns are left out. */
  lemma MarkerSays(sql: seq<byte>, ts: seq<Token>, c: Compaction) returns (columns: seq<byte>)
    requires AllSlices(sql, ts)
    ensures PieceText(sql, ts, Marker(c)) == Ascii(", ...(") + columns + Ascii(" more columns)")
    ensures IsNumeral(columns, c.additionalColumns)
  {
    columns := Decimal(c.additionalColumns);
    DecimalIsNumeral(c.additionalColumns);
  }

  /** A blank is due before a token after other output: where white space was left out, or words would meet. */
  predicate BlankDue(ts: seq<Token>, i: nat, out: seq<byte>, text: seq<byte>)
    requires i < |ts|
  {
    out != [] && ((i > 0 && ts[i - 1].end < ts[i].start) || WordsMeet(out, text))
  }

  /** With `out` written before, the pieces have a blank before a token exactly where one is due, and none elsewhere. */
  ghost predicate BlanksAreDue(sql: seq<byte>, ts: seq<Token>, ps: seq<Piece>, out: seq<byte>)
    requires AllSlices(sql, ts) && AllRefer(ps, ts)
    decreases |ps|
  {
    ps == [] ||
    if ps[0].Marker? then BlanksAreDue(sql, ts, ps[1..], out + PieceText(sql, ts, ps[0]))
    else if ps[0].Blank? then
      && |ps| > 1 && (ps[1].Placeholder? || ps[1].Verbatim?)
      && var text := PieceText(sql, ts, ps[1]);
         && BlankDue(ts, ps[1].token, out, text)
         && BlanksAreDue(sql, ts, ps[2..], out + [' ' as int] + text)
    else
      var text := PieceText(sql, ts, ps[0]);
      && !BlankDue(ts, ps[0].token, out, text)
      && BlanksAreDue(sql, ts, ps[1..], out + text)
  }

  lemma {:induction false} EmitBlanks(sql: seq<byte>, ts: seq<Token>, cs: seq<Compaction>, i: nat, out: seq<byte>)
    requires AllSlices(sql, ts) && i <= |ts| && Remaining(cs, i, |ts|)
    ensures BlanksAreDue(sql, ts, Emit(sql, ts, cs, i, out), out)
    decreases |ts| - i
  {
    if i < |ts| {
      if cs != [] && cs[0].start == i {
        var next := out + MarkerText(cs[0].additionalColumns);
        EmitBlanks(sql, ts, cs[1..], cs[0].end, next);
        var rest := Emit(sql, ts, cs[1..], cs[0].end, next);
        hide MarkerText, WouldFuse, Gap, TextAt;
        assert ([Marker(cs[0])] + rest)[1..] == rest;
      } else {
        TokenBlanks(sql, ts, cs, i, out);
      }
    }
  }

  lemma {:induction false} TokenBlanks(sql: seq<byte>, ts: seq<Token>, cs: seq<Compaction>, i: nat, out: seq<byte>)
    requires AllSlices(sql, ts) && i < |ts| && Remaining(cs, i, |ts|) && (cs != [] ==> cs[0].start != i)
    ensures BlanksAreDue(sql, ts, Emit(sql, ts, cs, i, out), out)
    decreases |ts| - i, 0
  {
    EmitToken(sql, ts, cs, i, out);
    var p := PieceAt(ts, i);
    var text := PieceText(sql, ts, p);
    FuseIsMeet(out, text);
    assert BlankDue(ts, i, out, text) <==> (Gap(ts, i) || WouldFuse(out, text)) && out != [];
    assert p.token == i && (p.Placeholder? || p.Verbatim?);
    hide *;
    if BlankDue(ts, i, out, text) {
      EmitBlanks(sql, ts, cs, i + 1, out + [SPACE] + text);
      BlankThenToken(sql, ts, p, Emit(sql, ts, cs, i + 1, out + [SPACE] + text), out);
    } else {
      EmitBlanks(sql, ts, cs, i + 1, out + text);
      JustToken(sql, ts, p, Emit(sql, ts, cs, i + 1, out + text), out);
    }
  }

  lemma BlankThenToken(sql: seq<byte>, ts: seq<Token>, p: Piece, rest: seq<Piece>, out: seq<byte>)
    requires AllSlices(sql, ts) && Refers(p, ts) && AllRefer(rest, ts) && (p.Placeholder? || p.Verbatim?)
    requires BlankDue(ts, p.token, out, PieceText(sql, ts, p))
    requires BlanksAreDue(sql, ts, rest, out + [SPACE] + PieceText(sql, ts, p))
    ensures AllRefer([Blank, p] + rest, ts) && BlanksAreDue(sql, ts, [Blank, p] + rest, out)
  {
    var ps := [Blank, p] + rest;
    assert ps[0] == Blank && ps[1] == p && ps[2..] == rest;
    hide PieceText, BlankDue, AllSlices;
  }

  lemma JustToken(sql: seq<byte>, ts: seq<Token>, p: Piece, rest: seq<Piece>, out: seq<byte>)
    requires AllSlices(sql, ts) && Refers(p, ts) && AllRefer(rest, ts) && (p.Placeholder? || p.Verbatim?)
    requires !BlankDue(ts, p.token, out, PieceText(sql, ts, p))
    requires BlanksAreDue(sql, ts, rest, out + PieceText(sql, ts, p))
    ensures AllRefer([p] + rest, ts) && BlanksAreDue(sql, ts, [p] + rest, out)
  {
    assert ([p] + rest)[1..] == rest;
    hide PieceText, BlankDue, AllSlices;
  }

  /** White space survives as a single blank, exactly where there was some or where words would meet without it. */
  lemma BlanksWhereDue(sql: seq<byte>, ts: seq<Token>)
    requires AllSlices(sql, ts)
    ensures BlanksAreDue(sql, ts, Pieces(sql, ts), [])
  {
    CompactionsRemain(Lexemes(sql, ts));
    EmitBlanks(sql, ts, Compactions(Lexemes(sql, ts)), 0, []);
  }
}
