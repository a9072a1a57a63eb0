/**
 Rendering a scanned statement: literals become numbered placeholders, SELECT lists are compacted,
 and the rest is copied token by token. Tokens are an arbitrary sequence of byte ranges.
 */
module Sanitize {
  import opened Bytes
  import opened SelectLists
  import opened Span
  import opened Wrappers

  datatype TokenKind = Constant | Param(number: i32) | Other

  datatype Token = Token(kind: TokenKind, start: nat, end: nat)

  // ---------------------------------------------------------------------
  // Text
  // ---------------------------------------------------------------------

  /** `str::get` of a range. */
  function Get(s: seq<byte>, start: nat, end: nat): Option<seq<byte>> {
    if start <= end <= |s| && IsCharBoundary(s, start) && IsCharBoundary(s, end) then Some(s[start..end]) else None
  }

  const TERMINATORS: seq<string> :=
    ["EXCEPT", "FETCH", "FOR", "FROM", "GROUP", "HAVING", "INTO", "INTERSECT", "LIMIT", "OFFSET", "ORDER", "UNION",
     "WHERE", "WINDOW"]

  predicate IsAscii(s: string) { forall i :: 0 <= i < |s| ==> s[i] as int < 128 }

  predicate SelectListTerminator(text: seq<byte>) {
    exists i :: 0 <= i < |TERMINATORS| && IsAscii(TERMINATORS[i]) && EqIgnoreCase(text, Ascii(TERMINATORS[i]))
  }

  const LPAREN: seq<byte> := [0x28]
  const RPAREN: seq<byte> := [0x29]
  const SEMICOLON: seq<byte> := [0x3B]
  const COMMA: seq<byte> := [0x2C]
  const SELECT: seq<byte> := [0x53, 0x45, 0x4C, 0x45, 0x43, 0x54]

  /** The lexical view of a token's text. */
  function LexemeOf(text: seq<byte>): Lexeme {
    Lexeme(text == LPAREN, text != LPAREN && text == RPAREN,
           text == RPAREN || text == SEMICOLON || SelectListTerminator(text), text == COMMA, EqIgnoreCase(text, SELECT))
  }

  // ---------------------------------------------------------------------
  // Specification
  // ---------------------------------------------------------------------

  /** Every token is a slice of the text on character boundaries. */
  predicate AllSlices(sql: seq<byte>, ts: seq<Token>) {
    forall i :: 0 <= i < |ts| ==> Get(sql, ts[i].start, ts[i].end).Some?
  }

  /** No token starts before the previous one ends. */
  predicate Ordered(ts: seq<Token>) {
    forall i :: 0 < i < |ts| ==> ts[i - 1].end <= ts[i].start
  }

  function TextAt(sql: seq<byte>, ts: seq<Token>, i: nat): seq<byte>
    requires AllSlices(sql, ts) && i < |ts|
  {
    Get(sql, ts[i].start, ts[i].end).value
  }

  function Lexemes(sql: seq<byte>, ts: seq<Token>): seq<Lexeme>
    requires AllSlices(sql, ts)
  {
    seq(|ts|, i requires 0 <= i < |ts| => LexemeOf(TextAt(sql, ts, i)))
  }

  const I32_MAX: int := 0x7FFF_FFFF

  /** The highest existing parameter number among the first `n` tokens. */
  function HighestParam(ts: seq<Token>, n: nat): (h: Option<i32>)
    requires n <= |ts|
  {
    if n == 0 then None
    else
      var before := HighestParam(ts, n - 1);
      match ts[n - 1].kind
      case Param(number) => if before.Some? && before.value > number then before else Some(number)
      case _ => before
  }

  /** 1 + the highest existing parameter, or 1. */
  function FirstNumber(ts: seq<Token>): int {
    var highest := HighestParam(ts, |ts|);
    if highest.Some? then highest.value + 1 else 1
  }

  function ConstantsBefore(ts: seq<Token>, i: nat): nat
    requires i <= |ts|
  {
    if i == 0 then 0 else ConstantsBefore(ts, i - 1) + if ts[i - 1].kind.Constant? then 1 else 0
  }

  function Saturate(n: int): int { if n > I32_MAX then I32_MAX else n }

  /** The placeholder number at token `i`: it counts all constants before, compacted or not. */
  function NumberAt(ts: seq<Token>, i: nat): int
    requires i <= |ts|
  {
    Saturate(FirstNumber(ts) + ConstantsBefore(ts, i))
  }

  function Decimal(n: int): (r: seq<byte>)
    decreases if n < 0 then 1 else 0, if n < 0 then -n else n
  {
    if n < 0 then [0x2D] + Decimal(-n)
    else if n < 10 then [0x30 + n]
    else Decimal(n / 10) + [0x30 + n % 10]
  }

  const DOLLAR: byte := 0x24
  const SPACE: byte := 0x20

  function PlaceholderText(n: int): seq<byte> { [DOLLAR] + Decimal(n) }

  function MarkerText(columns: nat): seq<byte> { Ascii(", ...(") + Decimal(columns) + Ascii(" more columns)") }

  /** What the output is made of. */
  datatype Piece = Blank | Placeholder(token: nat) | Verbatim(token: nat) | Marker(compaction: Compaction)

  /** A piece stands for a token of the right kind: placeholders for constants, only other tokens verbatim. */
  predicate Refers(p: Piece, ts: seq<Token>) {
    match p
    case Placeholder(i) => i < |ts| && ts[i].kind.Constant?
    case Verbatim(i) => i < |ts| && !ts[i].kind.Constant?
    case _ => true
  }

  function PieceText(sql: seq<byte>, ts: seq<Token>, p: Piece): seq<byte>
    requires AllSlices(sql, ts) && Refers(p, ts)
  {
    match p
    case Blank => [SPACE]
    case Placeholder(i) => PlaceholderText(NumberAt(ts, i))
    case Verbatim(i) => TextAt(sql, ts, i)
    case Marker(c) => MarkerText(c.additionalColumns)
  }

  predicate AllRefer(ps: seq<Piece>, ts: seq<Token>) { forall i :: 0 <= i < |ps| ==> Refers(ps[i], ts) }

  function TextOf(sql: seq<byte>, ts: seq<Token>, ps: seq<Piece>): seq<byte>
    requires AllSlices(sql, ts) && AllRefer(ps, ts)
  {
    if ps == [] then [] else PieceText(sql, ts, ps[0]) + TextOf(sql, ts, ps[1..])
  }

  /** Letters, digits, `_`, `$` and everything outside ASCII; on bytes, as the text is UTF-8. */
  predicate IsWord(b: byte) {
    b >= 0x80 || 0x30 <= b <= 0x39 || 0x41 <= b <= 0x5A || 0x61 <= b <= 0x7A || b == 0x5F || b == DOLLAR
  }

  predicate WouldFuse(out: seq<byte>, next: seq<byte>) {
    out != [] && next != [] && IsWord(out[|out| - 1]) && IsWord(next[0])
  }

  /** There was white space or a comment before token `i`. */
  predicate Gap(ts: seq<Token>, i: nat)
    requires i < |ts|
  {
    i > 0 && ts[i].start > ts[i - 1].end
  }

  predicate Remaining(cs: seq<Compaction>, i: nat, n: nat) {
    && (cs != [] ==> i <= cs[0].start)
    && (forall k :: 0 <= k < |cs| ==> cs[k].start < cs[k].end <= n)
    && (forall k :: 0 < k < |cs| ==> cs[k - 1].end <= cs[k].start)
  }

  function PieceAt(ts: seq<Token>, i: nat): (p: Piece)
    requires i < |ts|
  {
    if ts[i].kind.Constant? then Placeholder(i) else Verbatim(i)
  }

  /** The pieces from token `i` on, when `out` has been written and the compactions `cs` are ahead. */
  function Emit(sql: seq<byte>, ts: seq<Token>, cs: seq<Compaction>, i: nat, out: seq<byte>): (ps: seq<Piece>)
    requires AllSlices(sql, ts) && i <= |ts| && Remaining(cs, i, |ts|)
    ensures AllRefer(ps, ts)
    decreases |ts| - i
  {
    if i == |ts| then []
    else if cs != [] && cs[0].start == i then
      [Marker(cs[0])] + Emit(sql, ts, cs[1..], cs[0].end, out + MarkerText(cs[0].additionalColumns))
    else
      var p := PieceAt(ts, i);
      var text := PieceText(sql, ts, p);
      if (Gap(ts, i) || WouldFuse(out, text)) && out != [] then
        [Blank, p] + Emit(sql, ts, cs, i + 1, out + [SPACE] + text)
      else [p] + Emit(sql, ts, cs, i + 1, out + text)
  }

  lemma CompactionsRemain(lx: seq<Lexeme>)
    ensures Remaining(Compactions(lx), 0, |lx|)
  {
    var k := Compactions(lx);
    KeepsTheMaximal(lx);
    CandidatesLaminar(lx);
    forall i | 0 <= i < |k| ensures k[i].start < k[i].end <= |lx| {
      ElementAt(k, i);
    }
    forall i | 0 < i < |k| ensures k[i - 1].end <= k[i].start {
      SeparatedFar(k, i - 1, i);
    }
  }

  /** The pieces of the whole statement. */
  function Pieces(sql: seq<byte>, ts: seq<Token>): (ps: seq<Piece>)
    requires AllSlices(sql, ts)
    ensures AllRefer(ps, ts)
  {
    CompactionsRemain(Lexemes(sql, ts));
    Emit(sql, ts, Compactions(Lexemes(sql, ts)), 0, [])
  }

  // ---------------------------------------------------------------------
  // What the output reveals
  // ---------------------------------------------------------------------

  /** The pieces stand for the tokens from `i` on: each token once, in order, constants never verbatim. */
  ghost predicate Tiles(ps: seq<Piece>, ts: seq<Token>, cs: seq<Compaction>, i: nat)
    decreases |ps|
  {
    if ps == [] then i == |ts|
    else
      match ps[0]
      case Blank => |ps| > 1 && !ps[1].Blank? && !ps[1].Marker? && Tiles(ps[1..], ts, cs, i)
      case Placeholder(k) => k == i < |ts| && ts[i].kind.Constant? && Tiles(ps[1..], ts, cs, i + 1)
      case Verbatim(k) => k == i < |ts| && !ts[i].kind.Constant? && Tiles(ps[1..], ts, cs, i + 1)
      case Marker(c) => cs != [] && c == cs[0] && c.start == i && Tiles(ps[1..], ts, cs[1..], c.end)
  }

  lemma TilesToken(ts: seq<Token>, cs: seq<Compaction>, i: nat, rest: seq<Piece>)
    requires i < |ts| && Tiles(rest, ts, cs, i + 1)
    ensures var p := PieceAt(ts, i);
            Tiles([p] + rest, ts, cs, i) && Tiles([Blank] + ([p] + rest), ts, cs, i)
  {
    var p := PieceAt(ts, i);
    assert ([p] + rest)[1..] == rest;
    assert ([Blank] + ([p] + rest))[1..] == [p] + rest;
  }

  lemma {:induction false} EmitTiles(sql: seq<byte>, ts: seq<Token>, cs: seq<Compaction>, i: nat, out: seq<byte>)
    requires AllSlices(sql, ts) && i <= |ts| && Remaining(cs, i, |ts|)
    ensures Tiles(Emit(sql, ts, cs, i, out), ts, cs, i)
    decreases |ts| - i
  {
    hide MarkerText, PieceText, WouldFuse, Gap, AllSlices;
    if i < |ts| {
      if cs != [] && cs[0].start == i {
        var rest := Emit(sql, ts, cs[1..], cs[0].end, out + MarkerText(cs[0].additionalColumns));
        EmitTiles(sql, ts, cs[1..], cs[0].end, out + MarkerText(cs[0].additionalColumns));
        assert ([Marker(cs[0])] + rest)[1..] == rest;
      } else {
        var p := PieceAt(ts, i);
        var text := PieceText(sql, ts, p);
        var out' := if (Gap(ts, i) || WouldFuse(out, text)) && out != [] then out + [SPACE] + text else out + text;
        var rest := Emit(sql, ts, cs, i + 1, out');
        EmitTiles(sql, ts, cs, i + 1, out');
        TilesToken(ts, cs, i, rest);
        assert [Blank, p] + rest == [Blank] + ([p] + rest);
      }
    }
  }

  /** Masking: single blanks, placeholders for constants, markers for compactions, other tokens verbatim. */
  lemma OutputIsMasked(sql: seq<byte>, ts: seq<Token>)
    requires AllSlices(sql, ts)
    ensures Tiles(Pieces(sql, ts), ts, Compactions(Lexemes(sql, ts)), 0)
  {
    CompactionsRemain(Lexemes(sql, ts));
    EmitTiles(sql, ts, Compactions(Lexemes(sql, ts)), 0, []);
  }
}
