/**
 Bytes as text: `String::from_utf8_lossy`. Each longest incomplete or ill-formed piece of a character is
 replaced by U+FFFD (section 3.9 of the Unicode Standard, "substitution of maximal subparts").
 */
module Lossy {
  import opened Bytes

  const REPLACEMENT: seq<byte> := [0xEF, 0xBF, 0xBD]

  /** How many bytes at the start of `s` are, or could still become, one character. */
  function Accepted(s: seq<byte>): (k: nat)
    requires s != []
    ensures 1 <= k <= |s| && k <= 4
  {
    var n := LeadLen(s[0]);
    if n <= 1 || |s| < 2 || !IsTail(s[1]) || !SecondFits(s[0], s[1]) then 1
    else if n == 2 || |s| < 3 || !IsTail(s[2]) then 2
    else if n == 3 || |s| < 4 || !IsTail(s[3]) then 3
    else 4
  }

  /** `s` starts with a whole character. */
  predicate StartsWhole(s: seq<byte>)
    requires s != []
  {
    Accepted(s) == LeadLen(s[0])
  }

  lemma WholeIsUtf8(s: seq<byte>)
    requires s != [] && StartsWhole(s)
    ensures ValidUtf8(s[..Accepted(s)])
  {
  }

  lemma ReplacementIsUtf8()
    ensures ValidUtf8(REPLACEMENT)
  {
  }

  lemma ConcatIsUtf8(a: seq<byte>, b: seq<byte>)
    requires ValidUtf8(a) && ValidUtf8(b)
    ensures ValidUtf8(a + b)
  {
    var s := a + b;
    forall i | 0 <= i < |s| ensures WellFormedAt(s, i) {
      if i < |a| {
        assert WellFormedAt(a, i);
      } else {
        assert WellFormedAt(b, i - |a|);
      }
    }
  }

  function FromUtf8Lossy(s: seq<byte>): (r: Utf8) {
    if s == [] then []
    else
      var k, rest := Accepted(s), FromUtf8Lossy(s[Accepted(s)..]);
      if StartsWhole(s) then
        WholeIsUtf8(s);
        ConcatIsUtf8(s[..k], rest);
        s[..k] + rest
      else
        ReplacementIsUtf8();
        ConcatIsUtf8(REPLACEMENT, rest);
        REPLACEMENT + rest
  }

  lemma FirstOfUtf8(s: Utf8)
    requires s != []
    ensures StartsWhole(s) && ValidUtf8(s[Accepted(s)..])
  {
    assert WellFormedAt(s, 0);
    var k := Accepted(s);
    if k < |s| {
      assert WellFormedAt(s, k);
    }
    assert IsCharBoundary(s, k);
    SliceIsUtf8(s, k, |s|);
    assert s[k..|s|] == s[k..];
  }

  /** Valid UTF-8 is returned unchanged. */
  lemma {:induction false} LossyKeepsUtf8(s: Utf8)
    ensures FromUtf8Lossy(s) == s
  {
    if s != [] {
      FirstOfUtf8(s);
      LossyKeepsUtf8(s[Accepted(s)..]);
      hide WellFormedAt, Accepted;
      assert s == s[..Accepted(s)] + s[Accepted(s)..];
    }
  }

  /** A piece that is no whole character becomes the bytes of U+FFFD. */
  lemma LossyReplaces(s: seq<byte>)
    requires s != [] && !StartsWhole(s)
    ensures FromUtf8Lossy(s) == [0xEF, 0xBF, 0xBD] + FromUtf8Lossy(s[Accepted(s)..])
  {
    hide Accepted;
  }
}
