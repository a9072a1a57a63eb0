/** What rendering guarantees: no literal shows through, words never fuse, placeholders stay apart. */
module Masking {
  import opened Bytes
  import opened Sanitize
  import opened SelectLists
  import opened Wrappers

  // ---------------------------------------------------------------------
  // No literal shows through
  // ---------------------------------------------------------------------

  /**
   Two scanned statements that differ in their literals only: the same kinds of tokens, the same text
   for all tokens that are not constants, white space in the same places; and where the constants are
   concerned, they look the same to the compactor (a literal is never a parenthesis, a comma or a keyword).
   */
  ghost predicate SameButLiterals(sql1: seq<byte>, ts1: seq<Token>, sql2: seq<byte>, ts2: seq<Token>) {
    && AllSlices(sql1, ts1) && AllSlices(sql2, ts2) && |ts1| == |ts2|
    && (forall i :: 0 <= i < |ts1| ==> ts1[i].kind == ts2[i].kind)
    && (forall i :: 0 <= i < |ts1| && !ts1[i].kind.Constant? ==> TextAt(sql1, ts1, i) == TextAt(sql2, ts2, i))
    && (forall i :: 0 <= i < |ts1| ==> LexemeOf(TextAt(sql1, ts1, i)) == LexemeOf(TextAt(sql2, ts2, i)))
    && (forall i :: 0 <= i < |ts1| ==> Gap(ts1, i) == Gap(ts2, i))
  }

  lemma {:induction false} SameHighest(ts1: seq<Token>, ts2: seq<Token>, n: nat)
    requires |ts1| == |ts2| && n <= |ts1| && forall i :: 0 <= i < |ts1| ==> ts1[i].kind == ts2[i].kind
    ensures HighestParam(ts1, n) == HighestParam(ts2, n) && ConstantsBefore(ts1, n) == ConstantsBefore(ts2, n)
  {
    if n > 0 {
      SameHighest(ts1, ts2, n - 1);
    }
  }

  lemma SamePieceText(sql1: seq<byte>, ts1: seq<Token>, sql2: seq<byte>, ts2: seq<Token>, p: Piece)
    requires SameButLiterals(sql1, ts1, sql2, ts2) && Refers(p, ts1)
    ensures Refers(p, ts2) && PieceText(sql1, ts1, p) == PieceText(sql2, ts2, p)
  {
    hide LexemeOf, TextAt, Decimal, MarkerText, Gap;
    SameHighest(ts1, ts2, |ts1|);
    if p.Placeholder? {
      SameHighest(ts1, ts2, p.token);
    }
  }

  lemma {:induction false} SameTextOf(sql1: seq<byte>, ts1: seq<Token>, sql2: seq<byte>, ts2: seq<Token>, ps: seq<Piece>)
    requires SameButLiterals(sql1, ts1, sql2, ts2) && AllRefer(ps, ts1)
    ensures AllRefer(ps, ts2) && TextOf(sql1, ts1, ps) == TextOf(sql2, ts2, ps)
  {
    hide PieceText, LexemeOf, TextAt, Gap;
    forall i | 0 <= i < |ps| ensures Refers(ps[i], ts2) {
      SamePieceText(sql1, ts1, sql2, ts2, ps[i]);
    }
    if ps != [] {
      SamePieceText(sql1, ts1, sql2, ts2, ps[0]);
      SameTextOf(sql1, ts1, sql2, ts2, ps[1..]);
    }
  }

  lemma {:induction false} SameEmit(sql1: seq<byte>, ts1: seq<Token>, sql2: seq<byte>, ts2: seq<Token>,
                                    cs: seq<Compaction>, i: nat, out: seq<byte>)
    requires SameButLiterals(sql1, ts1, sql2, ts2) && i <= |ts1| && Remaining(cs, i, |ts1|)
    ensures Emit(sql1, ts1, cs, i, out) == Emit(sql2, ts2, cs, i, out)
    decreases |ts1| - i
  {
    hide MarkerText, PieceText, WouldFuse, Gap, LexemeOf, TextAt;
    if i < |ts1| {
      if cs != [] && cs[0].start == i {
        SameEmit(sql1, ts1, sql2, ts2, cs[1..], cs[0].end, out + MarkerText(cs[0].additionalColumns));
      } else {
        var p := PieceAt(ts1, i);
        SamePieceText(sql1, ts1, sql2, ts2, p);
        var text := PieceText(sql1, ts1, p);
        if (Gap(ts1, i) || WouldFuse(out, text)) && out != [] {
          SameEmit(sql1, ts1, sql2, ts2, cs, i + 1, out + [SPACE] + text);
        } else {
          SameEmit(sql1, ts1, sql2, ts2, cs, i + 1, out + text);
        }
      }
    }
  }

  /**
   The output does not depend on the literals at all: statements that differ only in them are rendered
   to the same text.
   */
  lemma LiteralsDoNotShow(sql1: seq<byte>, ts1: seq<Token>, sql2: seq<byte>, ts2: seq<Token>)
    requires SameButLiterals(sql1, ts1, sql2, ts2)
    ensures TextOf(sql1, ts1, Pieces(sql1, ts1)) == TextOf(sql2, ts2, Pieces(sql2, ts2))
  {
    hide LexemeOf, TextAt;
    assert Lexemes(sql1, ts1) == Lexemes(sql2, ts2);
    CompactionsRemain(Lexemes(sql1, ts1));
    SameEmit(sql1, ts1, sql2, ts2, Compactions(Lexemes(sql1, ts1)), 0, []);
    SameTextOf(sql1, ts1, sql2, ts2, Pieces(sql1, ts1));
  }

  // ---------------------------------------------------------------------
  // Words do not fuse
  // ---------------------------------------------------------------------

  /** Appending the pieces one by one to `out`, no two word characters meet at a seam. */
  ghost predicate NeverFuses(sql: seq<byte>, ts: seq<Token>, ps: seq<Piece>, out: seq<byte>)
    requires AllSlices(sql, ts) && AllRefer(ps, ts)
  {
    ps == [] ||
    (!WouldFuse(out, PieceText(sql, ts, ps[0])) && NeverFuses(sql, ts, ps[1..], out + PieceText(sql, ts, ps[0])))
  }

  lemma SeparatorsAreNoWords(sql: seq<byte>, ts: seq<Token>, out: seq<byte>, text: seq<byte>, c: Compaction)
    requires AllSlices(sql, ts)
    ensures !WouldFuse(out, PieceText(sql, ts, Blank)) && !WouldFuse(out + [SPACE], text)
    ensures !WouldFuse(out, PieceText(sql, ts, Marker(c)))
  {
    assert Ascii(", ...(")[0] == 0x2C;
  }

  lemma {:induction false} EmitNeverFuses(sql: seq<byte>, ts: seq<Token>, cs: seq<Compaction>, i: nat, out: seq<byte>)
    requires AllSlices(sql, ts) && i <= |ts| && Remaining(cs, i, |ts|)
    ensures NeverFuses(sql, ts, Emit(sql, ts, cs, i, out), out)
    decreases |ts| - i
  {
    if i < |ts| {
      if cs != [] && cs[0].start == i {
        SeparatorsAreNoWords(sql, ts, out, [], cs[0]);
        hide MarkerText, WouldFuse, Gap, TextAt;
        var rest := Emit(sql, ts, cs[1..], cs[0].end, out + MarkerText(cs[0].additionalColumns));
        EmitNeverFuses(sql, ts, cs[1..], cs[0].end, out + MarkerText(cs[0].additionalColumns));
        NeverFusesCons(sql, ts, Marker(cs[0]), rest, out);
      } else {
        TokenNeverFuses(sql, ts, cs, i, out);
      }
    }
  }

  lemma EmitToken(sql: seq<byte>, ts: seq<Token>, cs: seq<Compaction>, i: nat, out: seq<byte>)
    requires AllSlices(sql, ts) && i < |ts| && Remaining(cs, i, |ts|) && (cs != [] ==> cs[0].start != i)
    ensures Remaining(cs, i + 1, |ts|) && Refers(PieceAt(ts, i), ts)
    ensures var p := PieceAt(ts, i);
            var text := PieceText(sql, ts, p);
            Emit(sql, ts, cs, i, out) ==
            if (Gap(ts, i) || WouldFuse(out, text)) && out != [] then [Blank, p] + Emit(sql, ts, cs, i + 1, out + [SPACE] + text)
            else [p] + Emit(sql, ts, cs, i + 1, out + text)
  {
    hide PieceText, WouldFuse, Gap, TextAt, AllSlices;
  }

  lemma {:induction false} TokenNeverFuses(sql: seq<byte>, ts: seq<Token>, cs: seq<Compaction>, i: nat, out: seq<byte>)
    requires AllSlices(sql, ts) && i < |ts| && Remaining(cs, i, |ts|) && (cs != [] ==> cs[0].start != i)
    ensures NeverFuses(sql, ts, Emit(sql, ts, cs, i, out), out)
    decreases |ts| - i, 0
  {
    hide *;
    EmitToken(sql, ts, cs, i, out);
    var p := PieceAt(ts, i);
    var text := PieceText(sql, ts, p);
    NothingFuses(text);
    if (Gap(ts, i) || WouldFuse(out, text)) && out != [] {
      EmitNeverFuses(sql, ts, cs, i + 1, out + [SPACE] + text);
      BlankThenPiece(sql, ts, p, Emit(sql, ts, cs, i + 1, out + [SPACE] + text), out);
    } else {
      EmitNeverFuses(sql, ts, cs, i + 1, out + text);
      NeverFusesCons(sql, ts, p, Emit(sql, ts, cs, i + 1, out + text), out);
    }
  }

  lemma NothingFuses(text: seq<byte>)
    ensures !WouldFuse([], text)
  {
  }

  lemma BlankThenPiece(sql: seq<byte>, ts: seq<Token>, p: Piece, rest: seq<Piece>, out: seq<byte>)
    requires AllSlices(sql, ts) && Refers(p, ts) && AllRefer(rest, ts)
    requires NeverFuses(sql, ts, rest, out + [SPACE] + PieceText(sql, ts, p))
    ensures AllRefer([Blank, p] + rest, ts) && NeverFuses(sql, ts, [Blank, p] + rest, out)
  {
    SeparatorsAreNoWords(sql, ts, out, PieceText(sql, ts, p), Compaction(0, 0, 0));
    assert PieceText(sql, ts, Blank) == [SPACE];
    hide PieceText, WouldFuse, NeverFuses;
    NeverFusesCons(sql, ts, p, rest, out + [SPACE]);
    NeverFusesCons(sql, ts, Blank, [p] + rest, out);
    assert [Blank, p] + rest == [Blank] + ([p] + rest);
  }

  lemma NeverFusesCons(sql: seq<byte>, ts: seq<Token>, p: Piece, rest: seq<Piece>, out: seq<byte>)
    requires AllSlices(sql, ts) && Refers(p, ts) && AllRefer(rest, ts)
    requires !WouldFuse(out, PieceText(sql, ts, p)) && NeverFuses(sql, ts, rest, out + PieceText(sql, ts, p))
    ensures AllRefer([p] + rest, ts) && NeverFuses(sql, ts, [p] + rest, out)
  {
    assert ([p] + rest)[1..] == rest;
  }

  lemma {:induction false} SeamOf(sql: seq<byte>, ts: seq<Token>, ps: seq<Piece>, out: seq<byte>, k: nat)
    requires AllSlices(sql, ts) && AllRefer(ps, ts) && k < |ps| && NeverFuses(sql, ts, ps, out)
    ensures !WouldFuse(out + TextOf(sql, ts, ps[..k]), PieceText(sql, ts, ps[k]))
    decreases k
  {
    hide WouldFuse, PieceText;
    var first := PieceText(sql, ts, ps[0]);
    if k == 0 {
      assert out + TextOf(sql, ts, ps[..0]) == out;
    } else {
      SeamOf(sql, ts, ps[1..], out + first, k - 1);
      assert ps[..k][0] == ps[0] && ps[..k][1..] == ps[1..][..k - 1];
      Assoc(out, first, TextOf(sql, ts, ps[1..][..k - 1]));
    }
  }

  /** Part of a word: a letter, a digit, an underscore, a dollar sign, or part of a character outside ASCII. */
  predicate InWord(b: byte) {
    || 'a' as int <= b <= 'z' as int || 'A' as int <= b <= 'Z' as int || '0' as int <= b <= '9' as int
    || b == '_' as int || b == '$' as int || b >= 0x80
  }

  /** `a` ends in a word and `b` begins with one. */
  predicate WordsMeet(a: seq<byte>, b: seq<byte>) { a != [] && b != [] && InWord(a[|a| - 1]) && InWord(b[0]) }

  lemma FuseIsMeet(a: seq<byte>, b: seq<byte>)
    ensures WouldFuse(a, b) <==> WordsMeet(a, b)
  {
  }

  /** At no seam between the text before a piece and the piece do two word characters meet. */
  lemma WordsNeverFuse(sql: seq<byte>, ts: seq<Token>, k: nat)
    requires AllSlices(sql, ts) && k < |Pieces(sql, ts)|
    ensures var ps := Pieces(sql, ts);
            !WordsMeet(TextOf(sql, ts, ps[..k]), PieceText(sql, ts, ps[k]))
  {
    CompactionsRemain(Lexemes(sql, ts));
    EmitNeverFuses(sql, ts, Compactions(Lexemes(sql, ts)), 0, []);
    SeamOf(sql, ts, Pieces(sql, ts), [], k);
    assert [] + TextOf(sql, ts, Pieces(sql, ts)[..k]) == TextOf(sql, ts, Pieces(sql, ts)[..k]);
    hide *;
    FuseIsMeet(TextOf(sql, ts, Pieces(sql, ts)[..k]), PieceText(sql, ts, Pieces(sql, ts)[k]));
  }

  // ---------------------------------------------------------------------
  // Numbering
  // ---------------------------------------------------------------------

  /** Placeholders strictly increase, compacted ones included, and none is an existing parameter. */
  ghost predicate PlaceholdersApart(ts: seq<Token>) {
    && (forall i, j :: 0 <= i < j < |ts| && ts[i].kind.Constant? && ts[j].kind.Constant? ==>
          NumberAt(ts, i) < NumberAt(ts, j))
    && (forall i, j :: 0 <= i < |ts| && 0 <= j < |ts| && ts[i].kind.Constant? && ts[j].kind.Param? ==>
          NumberAt(ts, i) != ts[j].kind.number)
  }

  /** The last placeholder number does not saturate. */
  predicate NumbersFit(ts: seq<Token>) {
    ConstantsBefore(ts, |ts|) == 0 || FirstNumber(ts) + ConstantsBefore(ts, |ts|) - 1 <= I32_MAX
  }

  lemma {:induction false} HighestIsUpperBound(ts: seq<Token>, n: nat, j: nat)
    requires j < n <= |ts| && ts[j].kind.Param?
    ensures HighestParam(ts, n).Some? && ts[j].kind.number <= HighestParam(ts, n).value
  {
    if j < n - 1 {
      HighestIsUpperBound(ts, n - 1, j);
    }
  }

  lemma {:induction false} HighestIsAttained(ts: seq<Token>, n: nat) returns (j: nat)
    requires n <= |ts| && HighestParam(ts, n).Some?
    ensures j < n && ts[j].kind.Param? && ts[j].kind.number == HighestParam(ts, n).value
  {
    if HighestParam(ts, n) == HighestParam(ts, n - 1) {
      j := HighestIsAttained(ts, n - 1);
    } else {
      j := n - 1;
    }
  }

  lemma {:induction false} ConstantsGrow(ts: seq<Token>, i: nat, j: nat)
    requires i <= j <= |ts|
    ensures ConstantsBefore(ts, i) <= ConstantsBefore(ts, j)
    ensures i < j && ts[i].kind.Constant? ==> ConstantsBefore(ts, i) < ConstantsBefore(ts, j)
    decreases j
  {
    if i < j {
      ConstantsGrow(ts, i, j - 1);
    }
  }

  /** The constant with exactly `n` constants before it. */
  lemma {:induction false} ConstantNumbered(ts: seq<Token>, n: nat, end: nat) returns (i: nat)
    requires end <= |ts| && n < ConstantsBefore(ts, end)
    ensures i < end && ts[i].kind.Constant? && ConstantsBefore(ts, i) == n
    decreases end
  {
    if n < ConstantsBefore(ts, end - 1) {
      i := ConstantNumbered(ts, n, end - 1);
    } else {
      i := end - 1;
    }
  }

  lemma ApartIfFits(ts: seq<Token>)
    requires NumbersFit(ts)
    ensures PlaceholdersApart(ts)
  {
    forall i, j | 0 <= i < j < |ts| && ts[i].kind.Constant? && ts[j].kind.Constant?
      ensures NumberAt(ts, i) < NumberAt(ts, j)
    {
      ConstantsGrow(ts, i, j);
      ConstantsGrow(ts, j, |ts|);
    }
    forall i, j | 0 <= i < |ts| && 0 <= j < |ts| && ts[i].kind.Constant? && ts[j].kind.Param?
      ensures NumberAt(ts, i) != ts[j].kind.number
    {
      HighestIsUpperBound(ts, |ts|, j);
      ConstantsGrow(ts, i, |ts|);
    }
  }

  lemma FitsIfApart(ts: seq<Token>)
    requires PlaceholdersApart(ts)
    ensures NumbersFit(ts)
  {
    var n := ConstantsBefore(ts, |ts|);
    if !NumbersFit(ts) {
      var last := ConstantNumbered(ts, n - 1, |ts|);
      if n >= 2 {
        var before := ConstantNumbered(ts, n - 2, |ts|);
        if last <= before {
          ConstantsGrow(ts, last, before);
        }
      } else {
        var j := HighestIsAttained(ts, |ts|);
      }
    }
  }

  /** The numbering is collision-free exactly if the last number is within 32 bits. */
  lemma PlaceholdersApartIff(ts: seq<Token>)
    ensures PlaceholdersApart(ts) <==> NumbersFit(ts)
  {
    if NumbersFit(ts) {
      ApartIfFits(ts);
    }
    if PlaceholdersApart(ts) {
      FitsIfApart(ts);
    }
  }

  /** The tokens whose placeholders are in the output. */
  function Shown(ps: seq<Piece>): set<nat> {
    set k | 0 <= k < |ps| && ps[k].Placeholder? :: ps[k].token
  }

  /** The same of the placeholders at the constants `shown` only. */
  ghost predicate ApartAmong(ts: seq<Token>, shown: set<nat>) {
    && (forall i, j :: i in shown && j in shown && i < j < |ts| ==> NumberAt(ts, i) < NumberAt(ts, j))
    && (forall i, j :: i in shown && i < |ts| && 0 <= j < |ts| && ts[j].kind.Param? ==>
          NumberAt(ts, i) != ts[j].kind.number)
  }

  /** Of the constants shown at most the last one reaches the largest number, and none if a parameter has it. */
  ghost predicate FitAmong(ts: seq<Token>, shown: set<nat>) {
    && (forall i, j :: i in shown && j in shown && i < j < |ts| ==> NumberAt(ts, i) < I32_MAX)
    && (HighestParam(ts, |ts|) == Some(I32_MAX) ==> shown == {})
  }

  lemma ApartAmongIff(ts: seq<Token>, shown: set<nat>)
    requires forall i :: i in shown ==> i < |ts| && ts[i].kind.Constant?
    ensures ApartAmong(ts, shown) <==> FitAmong(ts, shown)
  {
    if FitAmong(ts, shown) {
      forall i, j | i in shown && j in shown && i < j < |ts| ensures NumberAt(ts, i) < NumberAt(ts, j) {
        ConstantsGrow(ts, i, j);
      }
      forall i, j | i in shown && i < |ts| && 0 <= j < |ts| && ts[j].kind.Param?
        ensures NumberAt(ts, i) != ts[j].kind.number
      {
        HighestIsUpperBound(ts, |ts|, j);
      }
    }
    if ApartAmong(ts, shown) && HighestParam(ts, |ts|) == Some(I32_MAX) {
      var j := HighestIsAttained(ts, |ts|);
      forall i ensures i !in shown {
        assert i in shown ==> NumberAt(ts, i) == I32_MAX;
      }
    }
  }

  /** The numbers in the output are collision-free exactly if they do not run into the largest one. */
  lemma ShownPlaceholdersApartIff(sql: seq<byte>, ts: seq<Token>)
    requires AllSlices(sql, ts)
    ensures var shown := Shown(Pieces(sql, ts));
            ApartAmong(ts, shown) <==> FitAmong(ts, shown)
  {
    var ps := Pieces(sql, ts);
    forall i | i in Shown(ps) ensures i < |ts| && ts[i].kind.Constant? {
      var k :| 0 <= k < |ps| && ps[k].Placeholder? && ps[k].token == i;
      assert Refers(ps[k], ts);
    }
    hide Pieces, ApartAmong, FitAmong;
    ApartAmongIff(ts, Shown(ps));
  }

  /** The number that decimal digits stand for. */
  function DigitsValue(s: seq<byte>): int {
    if s == [] then 0 else 10 * DigitsValue(s[..|s| - 1]) + s[|s| - 1] as int - 0x30
  }

  lemma {:induction false} DecimalReadsBack(n: nat)
    ensures Decimal(n) != [] && Decimal(n)[0] != 0x2D && DigitsValue(Decimal(n)) == n
  {
    if n >= 10 {
      DecimalReadsBack(n / 10);
      assert Decimal(n)[..|Decimal(n)| - 1] == Decimal(n / 10);
    } else {
      assert Decimal(n)[..0] == [];
    }
  }

  /** Different placeholder numbers are different texts. */
  lemma PlaceholderTextDetermines(m: int, n: int)
    requires PlaceholderText(m) == PlaceholderText(n)
    ensures m == n
  {
    assert PlaceholderText(m)[1..] == Decimal(m) && PlaceholderText(n)[1..] == Decimal(n);
    DecimalReadsBack(if m < 0 then -m else m);
    DecimalReadsBack(if n < 0 then -n else n);
    if m < 0 && n < 0 {
      assert Decimal(m)[1..] == Decimal(-m) && Decimal(n)[1..] == Decimal(-n);
    }
  }
}
