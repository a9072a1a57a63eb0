/** Characters as code points: what valid UTF-8 is, and which characters are white space. */
module Characters {
  import opened Bytes
  import opened KeyValues
  import opened Lossy

  /** A Unicode scalar value: no surrogate. */
  predicate IsScalar(c: nat) { c < 0xD800 || 0xE000 <= c <= 0x10FFFF }

  /** The encoding table of section 3 of RFC 3629. */
  function Utf8Of(c: nat): (r: seq<byte>)
    requires IsScalar(c)
    ensures 1 <= |r| <= 4
  {
    if c < 0x80 then [c]
    else if c < 0x800 then [0xC0 + c / 0x40, 0x80 + c % 0x40]
    else if c < 0x1_0000 then [0xE0 + c / 0x1000, 0x80 + c / 0x40 % 0x40, 0x80 + c % 0x40]
    else [0xF0 + c / 0x4_0000, 0x80 + c / 0x1000 % 0x40, 0x80 + c / 0x40 % 0x40, 0x80 + c % 0x40]
  }

  /** Reading six bits at a time. */
  lemma SixBits(high: nat, low: nat)
    requires low < 0x40
    ensures (high * 0x40 + low) / 0x40 == high && (high * 0x40 + low) % 0x40 == low
  {
  }

  lemma DivDiv(n: nat)
    ensures n / 0x40 / 0x40 == n / 0x1000 && n / 0x1000 / 0x40 == n / 0x4_0000
  {
  }

  lemma Sextets(c: nat)
    ensures c == c / 0x40 * 0x40 + c % 0x40 && c / 0x40 == c / 0x1000 * 0x40 + c / 0x40 % 0x40
    ensures c / 0x1000 == c / 0x4_0000 * 0x40 + c / 0x1000 % 0x40
  {
    DivDiv(c);
  }

  lemma ThreeBytes(c: nat)
    requires IsScalar(c) && 0x800 <= c < 0x1_0000
    ensures StartsWhole(Utf8Of(c)) && Accepted(Utf8Of(c)) == 3
  {
    Sextets(c);
    var lead, second, third := 0xE0 + c / 0x1000, 0x80 + c / 0x40 % 0x40, 0x80 + c % 0x40;
    assert Utf8Of(c) == [lead, second, third];
    hide IsScalar, Utf8Of;
    assert 0xE0 <= lead < 0xF0 && 0x80 <= second < 0xC0 && 0x80 <= third < 0xC0;
    assert (lead == 0xE0 ==> second >= 0xA0) && (lead == 0xED ==> second < 0xA0);
  }

  lemma FourBytes(c: nat)
    requires IsScalar(c) && 0x1_0000 <= c
    ensures StartsWhole(Utf8Of(c)) && Accepted(Utf8Of(c)) == 4
  {
    Sextets(c);
    var lead, second := 0xF0 + c / 0x4_0000, 0x80 + c / 0x1000 % 0x40;
    var third, fourth := 0x80 + c / 0x40 % 0x40, 0x80 + c % 0x40;
    assert Utf8Of(c) == [lead, second, third, fourth];
    hide Utf8Of;
    assert 0xF0 <= lead < 0xF5 && 0x80 <= second < 0xC0 && 0x80 <= third < 0xC0 && 0x80 <= fourth < 0xC0;
    assert (lead == 0xF0 ==> second >= 0x90) && (lead == 0xF4 ==> second < 0x90);
  }

  /** The encoding of a code point is one whole character... */
  lemma EncodingIsWhole(c: nat)
    requires IsScalar(c)
    ensures StartsWhole(Utf8Of(c)) && Accepted(Utf8Of(c)) == |Utf8Of(c)|
    ensures ValidUtf8(Utf8Of(c))
  {
    var s := Utf8Of(c);
    if c >= 0x1_0000 {
      FourBytes(c);
    } else if c >= 0x800 {
      ThreeBytes(c);
    } else {
      assert StartsWhole(s) && Accepted(s) == |s|;
    }
    hide StartsWhole, Accepted, ValidUtf8;
    WholeIsUtf8(s);
    assert s[..|s|] == s;
  }

  lemma TwelveBits(a: nat, b: nat, c: nat)
    requires b < 0x40 && c < 0x40
    ensures var n := (a * 0x40 + b) * 0x40 + c; n / 0x1000 == a && n / 0x40 % 0x40 == b && n % 0x40 == c
  {
    SixBits(a, b);
    SixBits(a * 0x40 + b, c);
    DivDiv((a * 0x40 + b) * 0x40 + c);
  }

  lemma EighteenBits(a: nat, b: nat, c: nat, d: nat)
    requires b < 0x40 && c < 0x40 && d < 0x40
    ensures var n := ((a * 0x40 + b) * 0x40 + c) * 0x40 + d;
            n / 0x4_0000 == a && n / 0x1000 % 0x40 == b && n / 0x40 % 0x40 == c && n % 0x40 == d
  {
    var high := (a * 0x40 + b) * 0x40 + c;
    TwelveBits(a, b, c);
    SixBits(high, d);
    DivDiv(high * 0x40 + d);
  }

  /** The code point of a whole character. */
  function CodePoint(s: seq<byte>): nat
    requires s != [] && StartsWhole(s)
  {
    var n := Accepted(s);
    if n == 1 then s[0]
    else if n == 2 then (s[0] as int - 0xC0) * 0x40 + (s[1] as int - 0x80)
    else if n == 3 then ((s[0] as int - 0xE0) * 0x40 + (s[1] as int - 0x80)) * 0x40 + (s[2] as int - 0x80)
    else (((s[0] as int - 0xF0) * 0x40 + (s[1] as int - 0x80)) * 0x40 + (s[2] as int - 0x80)) * 0x40 + (s[3] as int - 0x80)
  }

  lemma CodePointIsScalar(s: seq<byte>)
    requires s != [] && StartsWhole(s)
    ensures var c, n := CodePoint(s), Accepted(s);
            && IsScalar(c)
            && (n == 1 <==> c < 0x80) && (n == 2 <==> 0x80 <= c < 0x800) && (n == 3 <==> 0x800 <= c < 0x1_0000)
  {
  }

  /** ...and every whole character is the encoding of a code point. */
  lemma WholeIsEncoding(s: seq<byte>) returns (c: nat)
    requires s != [] && StartsWhole(s)
    ensures IsScalar(c) && s[..Accepted(s)] == Utf8Of(c)
  {
    c := CodePoint(s);
    CodePointIsScalar(s);
    var n := Accepted(s);
    if n == 2 {
      SixBits(s[0] as int - 0xC0, s[1] as int - 0x80);
    } else if n == 3 {
      TwelveBits(s[0] as int - 0xE0, s[1] as int - 0x80, s[2] as int - 0x80);
    } else if n == 4 {
      EighteenBits(s[0] as int - 0xF0, s[1] as int - 0x80, s[2] as int - 0x80, s[3] as int - 0x80);
    }
    hide IsScalar, StartsWhole, Accepted;
  }

  /** What is left of a character cut short can be completed... */
  lemma CutShort(s: seq<byte>) returns (c: nat)
    requires s != [] && !StartsWhole(s) && Accepted(s) > 1
    ensures IsScalar(c) && s[..Accepted(s)] < Utf8Of(c)
  {
    var k, n := Accepted(s), LeadLen(s[0]);
    var whole := if n - k == 1 then s[..k] + [0x80] else s[..k] + [0x80, 0x80];
    assert whole[0] == s[0] && whole[1] == s[1] && (k > 2 ==> whole[2] == s[2]);
    assert StartsWhole(whole) && Accepted(whole) == n == |whole|;
    c := WholeIsEncoding(whole);
    assert whole[..n] == whole;
  }

  /** ...but not with the byte that follows it: the piece that is replaced is the longest possible. */
  lemma NotLonger(s: seq<byte>, c: nat)
    requires s != [] && !StartsWhole(s) && IsScalar(c) && Accepted(s) < |s|
    ensures !(s[..Accepted(s) + 1] <= Utf8Of(c))
  {
    EncodingIsWhole(c);
  }

  function EncodeAll(cs: seq<nat>): seq<byte>
    requires forall i :: 0 <= i < |cs| ==> IsScalar(cs[i])
  {
    if cs == [] then [] else Utf8Of(cs[0]) + EncodeAll(cs[1..])
  }

  lemma {:induction false} EncodingsAreUtf8(cs: seq<nat>)
    requires forall i :: 0 <= i < |cs| ==> IsScalar(cs[i])
    ensures ValidUtf8(EncodeAll(cs))
  {
    if cs != [] {
      EncodingIsWhole(cs[0]);
      EncodingsAreUtf8(cs[1..]);
      ConcatIsUtf8(Utf8Of(cs[0]), EncodeAll(cs[1..]));
    }
  }

  /** Valid UTF-8 is exactly the concatenated encodings of code points. */
  lemma {:induction false} Utf8IsEncodings(s: Utf8) returns (cs: seq<nat>)
    ensures (forall i :: 0 <= i < |cs| ==> IsScalar(cs[i])) && s == EncodeAll(cs)
  {
    if s == [] {
      cs := [];
    } else {
      FirstOfUtf8(s);
      var c := WholeIsEncoding(s);
      var rest := Utf8IsEncodings(s[Accepted(s)..]);
      cs := [c] + rest;
      assert cs[1..] == rest;
      assert s == s[..Accepted(s)] + s[Accepted(s)..];
    }
  }

  /** The code points with the Unicode property White_Space. */
  predicate IsWhiteSpace(c: nat) {
    || 0x9 <= c <= 0xD || c == 0x20 || c == 0x85 || c == 0xA0 || c == 0x1680 || 0x2000 <= c <= 0x200A
    || c == 0x2028 || c == 0x2029 || c == 0x202F || c == 0x205F || c == 0x3000
  }

  /** The scanner takes for white space exactly the encodings of those. */
  lemma WhiteFromCode(c: nat, rest: seq<byte>)
    requires IsScalar(c)
    ensures White(Utf8Of(c) + rest) == if IsWhiteSpace(c) then |Utf8Of(c)| else 0
  {
    var s := Utf8Of(c) + rest;
    assert s[0] == Utf8Of(c)[0];
    if |Utf8Of(c)| >= 2 { assert s[1] == Utf8Of(c)[1]; }
    if |Utf8Of(c)| >= 3 { assert s[2] == Utf8Of(c)[2]; }
  }
}
