/** The `key=value` pairs of a comment. Text is held as its UTF-8 bytes. */
module KeyValues {
  import opened Bytes
  import opened Lossy
  import opened Wrappers

  const PERCENT: byte := 0x25
  const COMMA: byte := 0x2C
  const EQUALS: byte := 0x3D
  const QUOTE: byte := 0x27
  const DOUBLE_QUOTE: byte := 0x22

  // ---------------------------------------------------------------------
  // Percent-encoding (section 2.1 of RFC 3986)
  // ---------------------------------------------------------------------

  function HexDigit(b: byte): Option<nat> {
    if 0x30 <= b <= 0x39 then Some(b - 0x30)
    else if 0x41 <= b <= 0x46 then Some(b - 0x41 + 10)
    else if 0x61 <= b <= 0x66 then Some(b - 0x61 + 10)
    else None
  }

  /** The byte that an escape at the start of `s` stands for. */
  function Escaped(s: seq<byte>): Option<byte> {
    if |s| >= 3 && s[0] == PERCENT && HexDigit(s[1]).Some? && HexDigit(s[2]).Some?
    then Some((HexDigit(s[1]).value * 16 + HexDigit(s[2]).value) % 256)
    else None
  }

  /** Escapes are replaced, everything else (malformed escapes included) is kept. */
  function Decoded(s: seq<byte>): seq<byte> {
    if s == [] then []
    else if Escaped(s).Some? then [Escaped(s).value] + Decoded(s[3..])
    else [s[0]] + Decoded(s[1..])
  }

  /** The decoded bytes as text. */
  function DecodedText(s: seq<byte>): Utf8 { FromUtf8Lossy(Decoded(s)) }

  method PercentDecode(text: seq<byte>) returns (r: Utf8)
    ensures r == DecodedText(text)
  {
    var decoded: seq<byte> := [];
    var i := 0;
    while i < |text|
      invariant i <= |text| && decoded + Decoded(text[i..]) == Decoded(text)
    {
      SuffixNext(text, i);
      var escaped := Escaped(text[i..]);
      match escaped
      case Some(b) =>
        assert text[i..][3..] == text[i + 3..];
        Assoc(decoded, [b], Decoded(text[i + 3..]));
        decoded := decoded + [b];
        i := i + 3;
      case None =>
        Assoc(decoded, [text[i]], Decoded(text[i + 1..]));
        decoded := decoded + [text[i]];
        i := i + 1;
    }
    assert decoded + [] == decoded;
    return FromUtf8Lossy(decoded);
  }

  /** The characters that need no escape (section 2.3 of RFC 3986). */
  predicate IsUnreserved(b: byte) {
    || 0x30 <= b <= 0x39 || 0x41 <= b <= 0x5A || 0x61 <= b <= 0x7A
    || b == 0x2D || b == 0x2E || b == 0x5F || b == 0x7E
  }

  /** The hexadecimal digits, in either case. */
  const UPPER: seq<byte> :=
    [0x30, 0x31, 0x32, 0x33, 0x34, 0x35, 0x36, 0x37, 0x38, 0x39, 0x41, 0x42, 0x43, 0x44, 0x45, 0x46]
  const LOWER: seq<byte> :=
    [0x30, 0x31, 0x32, 0x33, 0x34, 0x35, 0x36, 0x37, 0x38, 0x39, 0x61, 0x62, 0x63, 0x64, 0x65, 0x66]

  /** `d` is a hexadecimal digit for `n`. */
  predicate IsDigit(d: byte, n: nat) { n < 16 && (d == UPPER[n] || d == LOWER[n]) }

  /** `e` starts with an escape of `b`: a percent sign and the digits of `b`, the higher one first. */
  predicate StartsWithEscape(e: seq<byte>, b: byte) {
    |e| >= 3 && e[0] == '%' as int && IsDigit(e[1], b / 16) && IsDigit(e[2], b % 16)
  }

  lemma DigitIs(d: byte, n: nat)
    requires n < 16
    ensures IsDigit(d, n) <==> HexDigit(d) == Some(n)
  {
  }

  /** The decoder takes for an escape exactly what the encoder writes as one. */
  lemma EscapedIff(e: seq<byte>, b: byte)
    ensures Escaped(e) == Some(b) <==> StartsWithEscape(e, b)
  {
    if |e| >= 3 {
      DigitIs(e[1], b / 16);
      DigitIs(e[2], b % 16);
      DigitBelow16(e[1]);
      DigitBelow16(e[2]);
      hide HexDigit, IsDigit;
      if HexDigit(e[1]).Some? && HexDigit(e[2]).Some? {
        Nibbles(HexDigit(e[1]).value, HexDigit(e[2]).value, b);
      }
    }
  }

  lemma DigitBelow16(d: byte)
    ensures HexDigit(d).Some? ==> HexDigit(d).value < 16
  {
  }

  lemma Nibbles(high: nat, low: nat, b: byte)
    requires high < 16 && low < 16
    ensures (high * 16 + low) % 256 == b <==> high == b / 16 && low == b % 16
  {
  }

  /**
   What decoding does at the start of any text: an escape of `b` becomes `b`; any other byte, a percent sign
   without two digits after it included, is kept.
   */
  lemma DecodedFromStart(s: seq<byte>)
    requires s != []
    ensures forall b: byte :: StartsWithEscape(s, b) ==> Decoded(s) == [b] + Decoded(s[3..])
    ensures (forall b: byte :: !StartsWithEscape(s, b)) ==> Decoded(s) == [s[0]] + Decoded(s[1..])
  {
    forall b: byte ensures Escaped(s) == Some(b) <==> StartsWithEscape(s, b) {
      EscapedIff(s, b);
    }
  }

  /** `e` is a percent-encoding of `s`: each byte is escaped, in either case, or unreserved and kept. */
  predicate IsEncoding(e: seq<byte>, s: seq<byte>) {
    if s == [] then e == []
    else
      || (|e| >= 1 && e[0] == s[0] && IsUnreserved(s[0]) && IsEncoding(e[1..], s[1..]))
      || (StartsWithEscape(e, s[0]) && IsEncoding(e[3..], s[1..]))
  }

  /** Decoding undoes every percent-encoding of every byte string. */
  lemma {:induction false} DecodeUndoesEncode(e: seq<byte>, s: seq<byte>)
    requires IsEncoding(e, s)
    ensures Decoded(e) == s
  {
    if s != [] {
      EscapedIff(e, s[0]);
      hide StartsWithEscape, HexDigit;
      if Escaped(e).Some? {
        assert e[0] == PERCENT && !IsUnreserved(PERCENT);
        DecodeUndoesEncode(e[3..], s[1..]);
      } else {
        DecodeUndoesEncode(e[1..], s[1..]);
      }
      assert s == [s[0]] + s[1..];
    }
  }

  // ---------------------------------------------------------------------
  // Scanning
  // ---------------------------------------------------------------------

  /** The length of the white-space character that `s` starts with, or 0. */
  function White(s: seq<byte>): (n: nat)
    ensures n <= |s|
  {
    if |s| >= 1 && (0x09 <= s[0] <= 0x0D || s[0] == 0x20) then 1
    else if |s| >= 2 && s[0] == 0xC2 && (s[1] == 0x85 || s[1] == 0xA0) then 2
    else if |s| >= 3 && ((s[0] == 0xE1 && s[1] == 0x9A && s[2] == 0x80)
                         || (s[0] == 0xE2 && s[1] == 0x80
                             && (0x80 <= s[2] <= 0x8A || s[2] == 0xA8 || s[2] == 0xA9 || s[2] == 0xAF))
                         || (s[0] == 0xE2 && s[1] == 0x81 && s[2] == 0x9F)
                         || (s[0] == 0xE3 && s[1] == 0x80 && s[2] == 0x80)) then 3
    else 0
  }

  function TrimWhite(s: seq<byte>): (r: seq<byte>)
    ensures |r| <= |s| && White(r) == 0
  {
    if White(s) > 0 then TrimWhite(s[White(s)..]) else s
  }

  function TrimSeparators(s: seq<byte>): (r: seq<byte>)
    ensures |r| <= |s| && White(r) == 0 && (r != [] ==> r[0] != COMMA)
  {
    if White(s) > 0 then TrimSeparators(s[White(s)..])
    else if s != [] && s[0] == COMMA then TrimSeparators(s[1..])
    else s
  }

  predicate EndsKey(s: seq<byte>) {
    s == [] || White(s) > 0 || s[0] == EQUALS || s[0] == COMMA || s[0] == QUOTE || s[0] == DOUBLE_QUOTE
  }

  function KeyEnd(s: seq<byte>): (n: nat)
    ensures n <= |s| && (n == 0 <==> EndsKey(s))
  {
    if EndsKey(s) then 0 else 1 + KeyEnd(s[1..])
  }

  function UnquotedEnd(s: seq<byte>): (n: nat)
    ensures n <= |s|
  {
    if s == [] || White(s) > 0 || s[0] == COMMA then 0 else 1 + UnquotedEnd(s[1..])
  }

  function Find(b: byte, s: seq<byte>): (r: Option<nat>)
    ensures r.Some? ==> r.value < |s| && s[r.value] == b && b !in s[..r.value]
    ensures r.None? ==> b !in s
  {
    if s == [] then None
    else if s[0] == b then Some(0)
    else
      match Find(b, s[1..])
      case None => None
      case Some(k) => Some(k + 1)
  }

  /** A leading value, in quotes or up to white space or a comma, and what follows; nothing if a quote is not closed. */
  function SplitValue(s: seq<byte>): (r: (seq<byte>, seq<byte>))
    ensures |r.0| + |r.1| <= |s|
  {
    if s != [] && (s[0] == QUOTE || s[0] == DOUBLE_QUOTE) then
      match Find(s[0], s[1..])
      case Some(end) => (s[1..][..end], s[1..][end + 1..])
      case None => ([], [])
    else (s[..UnquotedEnd(s)], s[UnquotedEnd(s)..])
  }

  /** A separator starts at position `i`. */
  predicate SeparatorAt(s: seq<byte>, i: nat)
    requires i < |s|
  {
    White(s[i..]) > 0 || s[i] == COMMA
  }

  lemma {:induction false} UnquotedEndsAtSeparator(s: seq<byte>)
    ensures var n := UnquotedEnd(s);
            (forall i :: 0 <= i < n ==> !SeparatorAt(s, i)) && (n < |s| ==> SeparatorAt(s, n))
  {
    var n := UnquotedEnd(s);
    assert s[0..] == s;
    if n > 0 {
      UnquotedEndsAtSeparator(s[1..]);
      hide White;
      forall i | 1 <= i <= n && i < |s| ensures SeparatorAt(s, i) == SeparatorAt(s[1..], i - 1) {
        assert s[i..] == s[1..][i - 1..];
      }
    }
  }

  /** What a value is: the text between the first two quotes, or all that is before the first separator. */
  lemma SplitValueIs(s: seq<byte>)
    ensures var (value, rest) := SplitValue(s);
            if s != [] && (s[0] == QUOTE || s[0] == DOUBLE_QUOTE) then
              && (s[0] in s[1..] ==> s == [s[0]] + (value + ([s[0]] + rest)) && s[0] !in value)
              && (s[0] !in s[1..] ==> value == [] && rest == [])
            else
              && s == value + rest
              && (forall i :: 0 <= i < |value| ==> !SeparatorAt(s, i))
              && (rest != [] ==> SeparatorAt(s, |value|))
  {
    if s != [] && (s[0] == QUOTE || s[0] == DOUBLE_QUOTE) {
      var end := Find(s[0], s[1..]);
      if end.Some? {
        var body := s[1..];
        assert body == body[..end.value] + ([s[0]] + body[end.value + 1..]);
        assert s == [s[0]] + body;
      }
    } else {
      UnquotedEndsAtSeparator(s);
      hide UnquotedEnd, SeparatorAt;
    }
  }

  predicate IsTraceparentKey(key: seq<byte>) {
    EqIgnoreCase(key, Ascii("traceparent")) || EqIgnoreCase(key, Ascii("pg_otel.traceparent"))
  }

  /** What one pair contributes. */
  function Contribution(key: seq<byte>, value: seq<byte>): seq<Utf8> {
    if IsTraceparentKey(DecodedText(key)) && value != [] then [DecodedText(value)] else []
  }

  /** The values of the matching keys, in order. */
  function Values(text: seq<byte>): seq<Utf8>
    decreases |text|
  {
    var s := TrimSeparators(text);
    var n := KeyEnd(s);
    if s == [] then []
    else if n == 0 then Values(s[1..])
    else
      var after := TrimWhite(s[n..]);
      if after == [] || after[0] != EQUALS then Values(s[n..])
      else
        var (value, rest) := SplitValue(TrimWhite(after[1..]));
        Contribution(s[..n], value) + Values(rest)
  }

  /** Leading separators do not matter. */
  lemma ValuesOfTrimmed(text: seq<byte>)
    ensures var s := TrimSeparators(text);
            var n := KeyEnd(s);
            && TrimSeparators(s) == s && Values(text) == Values(s)
            && (s == [] ==> Values(s) == [])
            && (s != [] && n == 0 ==> Values(s) == Values(s[1..]))
            && (n > 0 ==>
                  var after := TrimWhite(s[n..]);
                  if after == [] || after[0] != EQUALS then Values(s) == Values(s[n..])
                  else
                    var (value, rest) := SplitValue(TrimWhite(after[1..]));
                    Values(s) == Contribution(s[..n], value) + Values(rest))
  {
    var s := TrimSeparators(text);
    assert TrimSeparators(s) == s;
    hide White, TrimSeparators, KeyEnd, TrimWhite, SplitValue, Contribution, EndsKey;
  }

  lemma Contributes(key: seq<byte>, value: seq<byte>)
    ensures Contribution(key, value) == if IsTraceparentKey(DecodedText(key)) && value != [] then [DecodedText(value)] else []
  {
  }

  method TraceparentValues(comment: seq<byte>) returns (values: seq<Utf8>)
    ensures values == Values(comment)
  {
    values := [];
    var rest := comment;
    hide *;
    while true
      invariant values + Values(rest) == Values(comment)
      decreases |rest|
    {
      ValuesOfTrimmed(rest);
      rest := TrimSeparators(rest);
      if rest == [] {
        break;
      }
      var keyEnd := KeyEnd(rest);
      if keyEnd == 0 {
        rest := rest[1..];
        continue;
      }
      values, rest := ScanPair(values, rest, keyEnd);
    }
  }

  /** One key and, if an equals sign follows it, its value. */
  method ScanPair(values: seq<Utf8>, text: seq<byte>, keyEnd: nat) returns (values': seq<Utf8>, rest: seq<byte>)
    requires TrimSeparators(text) == text && keyEnd == KeyEnd(text) > 0
    ensures values' + Values(rest) == values + Values(text) && |rest| < |text|
  {
    ValuesOfTrimmed(text);
    hide *;
    var key, afterKey := text[..keyEnd], text[keyEnd..];
    var trimmed := TrimWhite(afterKey);
    if trimmed == [] || trimmed[0] != EQUALS {
      return values, afterKey;
    }
    var (value, remaining) := SplitValue(TrimWhite(trimmed[1..]));
    Assoc(values, Contribution(key, value), Values(remaining));
    Contributes(key, value);
    values', rest := values, remaining;
    var decodedKey := PercentDecode(key);
    if IsTraceparentKey(decodedKey) && value != [] {
      var decoded := PercentDecode(value);
      values' := values + [decoded];
    }
  }

  // ---------------------------------------------------------------------
  // Round trip
  // ---------------------------------------------------------------------

  predicate IsSpace(b: byte) { 0x09 <= b <= 0x0D || b == 0x20 }

  predicate AreSpaces(g: seq<byte>) { forall i :: 0 <= i < |g| ==> IsSpace(g[i]) }

  predicate AreSeparators(g: seq<byte>) { forall i :: 0 <= i < |g| ==> IsSpace(g[i]) || g[i] == COMMA }

  /**
   A pair and how it is written: both sides percent-encoded, spaces around the equals sign, the value in
   quotes of either kind or in none, and separators after it.
   */
  datatype Pair = Pair(key: seq<byte>, value: seq<byte>, keyText: seq<byte>, valueText: seq<byte>, quote: Option<byte>,
                       before: seq<byte>, after: seq<byte>, separators: seq<byte>)

  predicate IsWritten(p: Pair) {
    && p.key != [] && IsEncoding(p.keyText, p.key) && IsEncoding(p.valueText, p.value)
    && (p.quote.Some? ==> p.quote.value == QUOTE || p.quote.value == DOUBLE_QUOTE)
    && AreSpaces(p.before) && AreSpaces(p.after) && AreSeparators(p.separators)
  }

  /** A value without quotes is kept apart from what follows; if it is empty, by a comma. */
  predicate KeptApart(ps: seq<Pair>) {
    forall i :: 0 <= i < |ps| && ps[i].quote.None? ==>
      if ps[i].separators == [] then i == |ps| - 1 else ps[i].value != [] || ps[i].separators[0] == COMMA
  }

  function Quoted(quote: Option<byte>, value: seq<byte>, rest: seq<byte>): seq<byte> {
    if quote.Some? then [quote.value] + (value + ([quote.value] + rest)) else value + rest
  }

  function Printed(ps: seq<Pair>): seq<byte> {
    if ps == [] then []
    else
      var p := ps[0];
      p.keyText + (p.before + ([EQUALS] + (p.after + Quoted(p.quote, p.valueText, p.separators + Printed(ps[1..])))))
  }

  /** `traceparent` or `pg_otel.traceparent`, in any case. */
  predicate NamesTraceparent(key: seq<byte>) {
    EqIgnoreCase(key, Ascii("traceparent")) || EqIgnoreCase(key, Ascii("pg_otel.traceparent"))
  }

  /** The non-empty values of the matching keys, as text; valid UTF-8 is unchanged (`Lossy.LossyKeepsUtf8`). */
  function MatchingValues(ps: seq<Pair>): seq<Utf8> {
    if ps == [] then []
    else
      (if NamesTraceparent(FromUtf8Lossy(ps[0].key)) && ps[0].value != [] then [FromUtf8Lossy(ps[0].value)] else [])
      + MatchingValues(ps[1..])
  }

  predicate IsKeyByte(b: byte) { IsUnreserved(b) || b == PERCENT }

  lemma EscapeBytes(e: seq<byte>, b: byte)
    requires StartsWithEscape(e, b)
    ensures forall i :: 0 <= i < 3 ==> IsKeyByte(e[i])
  {
    DigitIsKeyByte(e[1], b / 16);
    DigitIsKeyByte(e[2], b % 16);
    hide IsDigit, IsUnreserved;
  }

  lemma DigitIsKeyByte(d: byte, n: nat)
    requires IsDigit(d, n)
    ensures IsKeyByte(d)
  {
  }

  lemma {:induction false} EncodingBytes(e: seq<byte>, s: seq<byte>)
    requires IsEncoding(e, s)
    ensures forall i :: 0 <= i < |e| ==> IsKeyByte(e[i])
    ensures e == [] <==> s == []
  {
    if s != [] {
      if StartsWithEscape(e, s[0]) && IsEncoding(e[3..], s[1..]) {
        EscapeBytes(e, s[0]);
        hide StartsWithEscape, IsKeyByte;
        EncodingBytes(e[3..], s[1..]);
        assert forall i :: 3 <= i < |e| ==> e[i] == e[3..][i - 3];
      } else {
        EncodingBytes(e[1..], s[1..]);
        assert forall i :: 1 <= i < |e| ==> e[i] == e[1..][i - 1];
      }
    }
  }

  lemma {:induction false} KeyEndsThere(key: seq<byte>, rest: seq<byte>)
    requires (forall i :: 0 <= i < |key| ==> IsKeyByte(key[i])) && EndsKey(rest)
    ensures KeyEnd(key + rest) == |key|
  {
    if key == [] {
      assert key + rest == rest;
    } else {
      KeyEndsThere(key[1..], rest);
      assert (key + rest)[0] == key[0] && (key + rest)[1..] == key[1..] + rest;
    }
  }

  lemma {:induction false} FindQuote(quote: byte, value: seq<byte>, rest: seq<byte>)
    requires !IsKeyByte(quote) && forall i :: 0 <= i < |value| ==> IsKeyByte(value[i])
    ensures Find(quote, value + ([quote] + rest)) == Some(|value|)
  {
    var s := value + ([quote] + rest);
    if value != [] {
      FindQuote(quote, value[1..], rest);
      assert s[0] == value[0] && s[1..] == value[1..] + ([quote] + rest);
    }
  }

  lemma KeyText(key: seq<byte>, tail: seq<byte>)
    requires key != [] && (forall i :: 0 <= i < |key| ==> IsKeyByte(key[i])) && EndsKey(tail)
    ensures TrimSeparators(key + tail) == key + tail && KeyEnd(key + tail) == |key|
  {
    assert (key + tail)[0] == key[0];
    KeyEndsThere(key, tail);
    hide KeyEnd;
  }

  lemma QuotedText(quote: byte, value: seq<byte>, rest: seq<byte>)
    requires (quote == QUOTE || quote == DOUBLE_QUOTE) && forall i :: 0 <= i < |value| ==> IsKeyByte(value[i])
    ensures SplitValue(TrimWhite(Quoted(Some(quote), value, rest))) == (value, rest)
  {
    var body := value + ([quote] + rest);
    NoWhiteFirst([quote] + body);
    FindQuote(quote, value, rest);
    hide Find, White, TrimWhite;
    Cut([quote], body);
    Cut(value, [quote] + rest);
    assert body[|value| + 1..] == rest;
  }

  /** What may stand after a value without quotes. */
  predicate EndsValue(s: seq<byte>) { s == [] || IsSpace(s[0]) || s[0] == COMMA }

  lemma {:induction false} UnquotedEndsThere(value: seq<byte>, rest: seq<byte>)
    requires (forall i :: 0 <= i < |value| ==> IsKeyByte(value[i])) && EndsValue(rest)
    ensures UnquotedEnd(value + rest) == |value|
  {
    if value == [] {
      assert value + rest == rest;
    } else {
      UnquotedEndsThere(value[1..], rest);
      assert (value + rest)[0] == value[0] && (value + rest)[1..] == value[1..] + rest;
    }
  }

  lemma UnquotedText(value: seq<byte>, rest: seq<byte>)
    requires (forall i :: 0 <= i < |value| ==> IsKeyByte(value[i])) && EndsValue(rest)
    requires value == [] && rest != [] ==> rest[0] == COMMA
    ensures SplitValue(TrimWhite(value + rest)) == (value, rest)
  {
    var s := value + rest;
    if s != [] {
      assert s[0] == if value == [] then COMMA else value[0];
      NoWhiteFirst(s);
    }
    UnquotedEndsThere(value, rest);
    hide UnquotedEnd, White, TrimWhite;
    Cut(value, rest);
  }

  lemma NoWhiteFirst(s: seq<byte>)
    requires s != [] && 0x20 < s[0] < 0x80
    ensures TrimWhite(s) == s
  {
  }

  lemma SpaceFirst(s: seq<byte>)
    requires s != [] && IsSpace(s[0])
    ensures EndsKey(s) && TrimWhite(s) == TrimWhite(s[1..]) && TrimSeparators(s) == TrimSeparators(s[1..])
  {
    assert White(s) == 1;
    hide White;
  }

  lemma CommaFirst(s: seq<byte>)
    requires s != [] && s[0] == COMMA
    ensures TrimSeparators(s) == TrimSeparators(s[1..])
  {
    assert White(s) == 0;
    hide White;
  }

  lemma {:induction false} SpacesTrimmed(g: seq<byte>, rest: seq<byte>)
    requires AreSpaces(g)
    ensures TrimWhite(g + rest) == TrimWhite(rest)
  {
    hide TrimWhite, IsSpace;
    if g == [] {
      assert g + rest == rest;
    } else {
      assert (g + rest)[0] == g[0] && (g + rest)[1..] == g[1..] + rest;
      SpaceFirst(g + rest);
      SpacesTrimmed(g[1..], rest);
    }
  }

  lemma {:induction false} SeparatorsTrimmed(g: seq<byte>, rest: seq<byte>)
    requires AreSeparators(g)
    ensures TrimSeparators(g + rest) == TrimSeparators(rest)
  {
    hide TrimSeparators, IsSpace;
    if g == [] {
      assert g + rest == rest;
    } else {
      assert (g + rest)[0] == g[0] && (g + rest)[1..] == g[1..] + rest;
      if g[0] == COMMA {
        CommaFirst(g + rest);
      } else {
        SpaceFirst(g + rest);
      }
      SeparatorsTrimmed(g[1..], rest);
    }
  }

  /** Leading separators do not change the values. */
  lemma ValuesAfterSeparators(g: seq<byte>, rest: seq<byte>)
    requires AreSeparators(g)
    ensures Values(g + rest) == Values(rest)
  {
    SeparatorsTrimmed(g, rest);
    hide *;
    TrimKeepsValues(g + rest);
    TrimKeepsValues(rest);
  }

  lemma TrimKeepsValues(text: seq<byte>)
    ensures Values(text) == Values(TrimSeparators(text))
  {
    ValuesOfTrimmed(text);
  }

  lemma ValuesOfPair(key: seq<byte>, tail: seq<byte>, body: seq<byte>, value: seq<byte>, rest: seq<byte>)
    requires key != [] && TrimSeparators(key + tail) == key + tail && KeyEnd(key + tail) == |key|
    requires TrimWhite(tail) == [EQUALS] + body && SplitValue(TrimWhite(body)) == (value, rest)
    ensures Values(key + tail) == Contribution(key, value) + Values(rest)
  {
    Cut(key, tail);
    Cut([EQUALS], body);
    assert ([EQUALS] + body)[0] == EQUALS;
    hide TrimSeparators, KeyEnd, TrimWhite, SplitValue, Contribution;
    var s := key + tail;
    assert s[..|key|] == key && s[|key|..] == tail;
  }

  /** The text between a key and its value. */
  lemma EqualsSign(before: seq<byte>, body: seq<byte>)
    requires AreSpaces(before)
    ensures EndsKey(before + ([EQUALS] + body)) && TrimWhite(before + ([EQUALS] + body)) == [EQUALS] + body
  {
    SpacesTrimmed(before, [EQUALS] + body);
    NoWhiteFirst([EQUALS] + body);
    if before == [] {
      assert before + ([EQUALS] + body) == [EQUALS] + body;
    } else {
      SpaceFirst(before + ([EQUALS] + body));
    }
  }

  /** A written pair at the front is read back, if what follows it may follow it. */
  lemma FirstPair(p: Pair, rest: seq<byte>)
    requires p.keyText != [] && forall i :: 0 <= i < |p.keyText| ==> IsKeyByte(p.keyText[i])
    requires forall i :: 0 <= i < |p.valueText| ==> IsKeyByte(p.valueText[i])
    requires p.quote.Some? ==> p.quote.value == QUOTE || p.quote.value == DOUBLE_QUOTE
    requires AreSpaces(p.before) && AreSpaces(p.after)
    requires p.quote.None? ==> EndsValue(rest) && (p.valueText == [] && rest != [] ==> rest[0] == COMMA)
    ensures Values(p.keyText + (p.before + ([EQUALS] + (p.after + Quoted(p.quote, p.valueText, rest)))))
            == Contribution(p.keyText, p.valueText) + Values(rest)
  {
    var written := Quoted(p.quote, p.valueText, rest);
    assert p.quote.None? ==> written == p.valueText + rest;
    hide *;
    if p.quote.Some? {
      QuotedText(p.quote.value, p.valueText, rest);
    } else {
      UnquotedText(p.valueText, rest);
    }
    SpacesTrimmed(p.after, written);
    EqualsSign(p.before, p.after + written);
    KeyText(p.keyText, p.before + ([EQUALS] + (p.after + written)));
    ValuesOfPair(p.keyText, p.before + ([EQUALS] + (p.after + written)), p.after + written, p.valueText, rest);
  }

  lemma FollowsValue(ps: seq<Pair>)
    requires ps != [] && IsWritten(ps[0]) && KeptApart(ps) && ps[0].quote.None?
    ensures var rest := ps[0].separators + Printed(ps[1..]);
            EndsValue(rest) && (ps[0].value == [] && rest != [] ==> rest[0] == COMMA)
  {
    var g := ps[0].separators;
    if g == [] {
      assert g + Printed(ps[1..]) == [];
    } else {
      assert (g + Printed(ps[1..]))[0] == g[0];
    }
  }

  lemma KeyNamed(key: seq<byte>)
    ensures IsTraceparentKey(key) <==> NamesTraceparent(key)
  {
  }

  /** The values of a printed list of pairs are the non-empty values of its matching keys, in order. */
  lemma {:induction false} RoundTrip(ps: seq<Pair>)
    requires (forall i :: 0 <= i < |ps| ==> IsWritten(ps[i])) && KeptApart(ps)
    ensures Values(Printed(ps)) == MatchingValues(ps)
  {
    if ps != [] {
      var p, rest := ps[0], ps[1..];
      RoundTrip(rest);
      EncodingBytes(p.keyText, p.key);
      EncodingBytes(p.valueText, p.value);
      if p.quote.None? {
        FollowsValue(ps);
      }
      DecodeUndoesEncode(p.keyText, p.key);
      DecodeUndoesEncode(p.valueText, p.value);
      KeyNamed(FromUtf8Lossy(p.key));
      hide Values, IsEncoding, Decoded, IsTraceparentKey, NamesTraceparent, FromUtf8Lossy, Quoted, EndsValue;
      FirstPair(p, p.separators + Printed(rest));
      ValuesAfterSeparators(p.separators, Printed(rest));
    }
  }
}
