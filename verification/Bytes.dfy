/** Bytes, little-endian numbers and UTF-8 well-formedness. */
module Bytes {

  type byte = b: int | 0 <= b < 256

  const U32_MAX: nat := 0xFFFF_FFFF
  const U64_MAX: nat := 0xFFFF_FFFF_FFFF_FFFF

  function Pow256(width: nat): (p: nat)
    ensures p > 0
  {
    if width == 0 then 1 else 256 * Pow256(width - 1)
  }

  /** The `width` low-order bytes of `n`, least significant first. */
  function ToLE(n: nat, width: nat): (s: seq<byte>)
    ensures |s| == width
  {
    if width == 0 then [] else [n % 256] + ToLE(n / 256, width - 1)
  }

  function FromLE(s: seq<byte>): nat {
    if s == [] then 0 else s[0] + 256 * FromLE(s[1..])
  }

  /** Byte `k` of a little-endian number has the weight 256^k. */
  lemma {:induction false} LEByte(n: nat, width: nat, k: nat)
    requires k < width
    ensures ToLE(n, width)[k] == n / Pow256(k) % 256
  {
    if k > 0 {
      LEByte(n / 256, width - 1, k - 1);
      DivideTwice(n, Pow256(k - 1));
      assert ToLE(n, width)[k] == ToLE(n / 256, width - 1)[k - 1];
    }
  }

  lemma DivideTwice(n: nat, d: nat)
    requires d > 0
    ensures n / 256 / d == n / (256 * d)
  {
    var q, r := n / 256, n % 256;
    var a, b := q / d, q % d;
    assert n == 256 * (d * a + b) + r == (256 * d) * a + (256 * b + r);
    QuotientIs(n, 256 * d, a, 256 * b + r);
  }

  lemma QuotientIs(n: nat, d: nat, q: nat, r: nat)
    requires d > 0 && n == d * q + r && r < d
    ensures n / d == q
  {
    var k := n / d - q;
    assert d * k == r - n % d;
  }

  lemma {:induction false} FromLEBound(s: seq<byte>)
    ensures FromLE(s) < Pow256(|s|)
  {
    if s != [] {
      FromLEBound(s[1..]);
    }
  }

  lemma {:induction false} FromLEOfToLE(n: nat, width: nat)
    requires n < Pow256(width)
    ensures FromLE(ToLE(n, width)) == n
  {
    if width > 0 {
      FromLEOfToLE(n / 256, width - 1);
      assert ToLE(n, width)[1..] == ToLE(n / 256, width - 1);
    }
  }

  lemma {:induction false} ToLEOfFromLE(s: seq<byte>)
    ensures ToLE(FromLE(s), |s|) == s
  {
    if s != [] {
      ToLEOfFromLE(s[1..]);
      assert FromLE(s) % 256 == s[0] && FromLE(s) / 256 == FromLE(s[1..]);
    }
  }

  /** 256^4 = 2^32 and 256^8 = 2^64. */
  lemma Pow256Values()
    ensures Pow256(1) == 256
    ensures Pow256(4) == U32_MAX + 1
    ensures Pow256(8) == U64_MAX + 1
  {
    assert Pow256(2) == 0x1_0000;
    assert Pow256(4) == 256 * (256 * Pow256(2));
    assert Pow256(6) == 256 * (256 * Pow256(4));
    assert Pow256(8) == 256 * (256 * Pow256(6));
  }

  // ---------------------------------------------------------------------
  // UTF-8 (section 4 of RFC 3629), the invariant of a Rust string
  // ---------------------------------------------------------------------

  /** Length of the character that a byte starts, or 0 if it starts none. */
  function LeadLen(b: byte): nat {
    if b < 0x80 then 1
    else if 0xC2 <= b < 0xE0 then 2
    else if 0xE0 <= b < 0xF0 then 3
    else if 0xF0 <= b < 0xF5 then 4
    else 0
  }

  predicate IsTail(b: byte) { 0x80 <= b < 0xC0 }

  /** The second byte of the three- and four-byte forms is restricted: no overlong forms, no surrogates. */
  predicate SecondFits(lead: byte, second: byte) {
    && (lead == 0xE0 ==> second >= 0xA0) && (lead == 0xED ==> second < 0xA0)
    && (lead == 0xF0 ==> second >= 0x90) && (lead == 0xF4 ==> second < 0x90)
  }

  /** Byte `i` starts a complete character, or continues one that starts at most three bytes before. */
  predicate WellFormedAt(s: seq<byte>, i: nat)
    requires i < |s|
  {
    var n := LeadLen(s[i]);
    if n > 0 then
      && i + n <= |s|
      && (n > 1 ==> IsTail(s[i + 1]) && SecondFits(s[i], s[i + 1]))
      && (n > 2 ==> IsTail(s[i + 2]))
      && (n > 3 ==> IsTail(s[i + 3]))
    else
      && IsTail(s[i])
      && ((i >= 1 && LeadLen(s[i - 1]) > 1) || (i >= 2 && LeadLen(s[i - 2]) > 2) || (i >= 3 && LeadLen(s[i - 3]) > 3))
  }

  predicate ValidUtf8(s: seq<byte>) {
    forall i :: 0 <= i < |s| ==> WellFormedAt(s, i)
  }

  /** A Rust `String`/`str`, held as its bytes. */
  type Utf8 = s: seq<byte> | ValidUtf8(s) witness []

  /** A place where a string may be cut: `str::is_char_boundary`. */
  predicate IsCharBoundary(s: seq<byte>, i: nat) {
    i == 0 || i == |s| || (i < |s| && !IsTail(s[i]))
  }

  /** A cut between two characters leaves whole characters. */
  lemma SliceIsUtf8(s: Utf8, lo: nat, hi: nat)
    requires lo <= hi <= |s| && IsCharBoundary(s, lo) && IsCharBoundary(s, hi)
    ensures ValidUtf8(s[lo..hi])
  {
    var t := s[lo..hi];
    forall i | 0 <= i < |t| ensures WellFormedAt(t, i) {
      assert WellFormedAt(s, lo + i);
      if lo + i >= 1 { assert WellFormedAt(s, lo + i - 1); }
      if lo + i >= 2 { assert WellFormedAt(s, lo + i - 2); }
      if lo + i >= 3 { assert WellFormedAt(s, lo + i - 3); }
    }
  }

  /** Before and after an ASCII byte there is one. */
  lemma AsciiIsBoundary(s: Utf8, i: nat)
    requires i < |s| && s[i] < 0x80
    ensures IsCharBoundary(s, i) && IsCharBoundary(s, i + 1)
  {
    assert WellFormedAt(s, i);
    if i + 1 < |s| {
      assert WellFormedAt(s, i + 1);
      if i >= 1 { assert WellFormedAt(s, i - 1); }
      if i >= 2 { assert WellFormedAt(s, i - 2); }
    }
  }

  /** The bytes of an ASCII literal. */
  function Ascii(s: string): (r: seq<byte>)
    requires forall i :: 0 <= i < |s| ==> s[i] as int < 128
    ensures |r| == |s|
  {
    seq<byte>(|s|, i requires 0 <= i < |s| => s[i] as int)
  }

  function Lower(b: byte): byte { if 0x41 <= b <= 0x5A then b + 0x20 else b }

  /** `eq_ignore_ascii_case`. */
  predicate EqIgnoreCase(a: seq<byte>, b: seq<byte>) {
    |a| == |b| && forall i :: 0 <= i < |a| ==> Lower(a[i]) == Lower(b[i])
  }

  /** Equal up to the case of the letters A to Z. */
  lemma EqIgnoreCaseIs(a: seq<byte>, b: seq<byte>)
    ensures EqIgnoreCase(a, b) <==>
              && |a| == |b|
              && forall i :: 0 <= i < |a| ==>
                   || a[i] == b[i]
                   || (0x41 <= a[i] <= 0x5A && b[i] as int == a[i] + 0x20)
                   || (0x41 <= b[i] <= 0x5A && a[i] as int == b[i] + 0x20)
  {
  }
}
