/** Which number a placeholder in the output carries, read off its text. */
module Numbering {
  import opened Bytes
  import opened Masking
  import opened Sanitize
  import opened Span
  import opened Wrappers

  /** The constants before token `i`, compacted ones included. */
  function EarlierConstants(ts: seq<Token>, i: nat): set<nat> {
    set j: nat | j < i && j < |ts| && ts[j].kind.Constant?
  }

  lemma {:induction false} EarlierAreCounted(ts: seq<Token>, i: nat)
    requires i <= |ts|
    ensures |EarlierConstants(ts, i)| == ConstantsBefore(ts, i)
  {
    if i > 0 {
      EarlierAreCounted(ts, i - 1);
      var before, now := EarlierConstants(ts, i - 1), EarlierConstants(ts, i);
      if ts[i - 1].kind.Constant? {
        assert now == before + {i - 1};
      } else {
        assert now == before;
      }
    }
  }

  /** `s` is the decimal numeral of `n`: a minus sign if negative, digits, no superfluous zero in front. */
  predicate IsNumeral(s: seq<byte>, n: int) {
    if n < 0 then |s| > 1 && s[0] == 0x2D && IsNumeral(s[1..], -n)
    else
      && s != [] && (forall k :: 0 <= k < |s| ==> 0x30 <= s[k] <= 0x39)
      && (|s| > 1 ==> s[0] != 0x30) && DigitsValue(s) == n
  }

  lemma {:induction false} DigitsOnly(n: nat)
    ensures var d := Decimal(n);
            d != [] && (forall k :: 0 <= k < |d| ==> 0x30 <= d[k] <= 0x39) && (n > 0 ==> d[0] != 0x30) && (n == 0 ==> |d| == 1)
  {
    if n >= 10 {
      DigitsOnly(n / 10);
    }
  }

  lemma DecimalIsNumeral(n: int)
    ensures IsNumeral(Decimal(n), n)
  {
    if n < 0 {
      DigitsOnly(-n);
      DecimalReadsBack(-n);
      assert Decimal(n)[1..] == Decimal(-n);
    } else {
      DigitsOnly(n);
      DecimalReadsBack(n);
    }
  }

  /** `h` is the number of some parameter, and no parameter has a higher one. */
  ghost predicate IsHighest(ts: seq<Token>, h: int) {
    && (exists j :: 0 <= j < |ts| && ts[j].kind.Param? && ts[j].kind.number == h)
    && (forall j :: 0 <= j < |ts| && ts[j].kind.Param? ==> ts[j].kind.number <= h)
  }

  lemma HighestIs(ts: seq<Token>, h: int)
    requires IsHighest(ts, h)
    ensures HighestParam(ts, |ts|) == Some(h)
  {
    var j :| 0 <= j < |ts| && ts[j].kind.Param? && ts[j].kind.number == h;
    HighestIsUpperBound(ts, |ts|, j);
    var i := HighestIsAttained(ts, |ts|);
  }

  lemma {:induction false} NoParamNoHighest(ts: seq<Token>, n: nat)
    requires n <= |ts| && forall j :: 0 <= j < |ts| ==> !ts[j].kind.Param?
    ensures HighestParam(ts, n) == None
  {
    if n > 0 {
      NoParamNoHighest(ts, n - 1);
    }
  }

  /**
   A placeholder in the output reads `$` and a number: the n-th constant of the statement, from 1 and
   compacted ones counted, has number n if there are no parameters, else n more than the highest of
   them; and 2^31 - 1 if that is less.
   */
  lemma PlaceholderCarries(sql: seq<byte>, ts: seq<Token>, k: nat, h: int)
    requires AllSlices(sql, ts) && k < |Pieces(sql, ts)| && Pieces(sql, ts)[k].Placeholder?
    requires IsHighest(ts, h) || (h == 0 && forall j :: 0 <= j < |ts| ==> !ts[j].kind.Param?)
    ensures var p := Pieces(sql, ts)[k];
            var text := PieceText(sql, ts, p);
            var number := h + |EarlierConstants(ts, p.token)| + 1;
            && ts[p.token].kind.Constant?
            && text[0] == '$' as int
            && IsNumeral(text[1..], if number <= 0x7FFF_FFFF then number else 0x7FFF_FFFF)
  {
    var p := Pieces(sql, ts)[k];
    assert Refers(p, ts);
    hide Pieces;
    EarlierAreCounted(ts, p.token);
    if IsHighest(ts, h) {
      HighestIs(ts, h);
    } else {
      NoParamNoHighest(ts, |ts|);
    }
    hide IsHighest, EarlierConstants;
    DecimalIsNumeral(NumberAt(ts, p.token));
    assert PieceText(sql, ts, p) == [DOLLAR] + Decimal(NumberAt(ts, p.token));
    hide IsNumeral, Decimal;
    assert ([DOLLAR] + Decimal(NumberAt(ts, p.token)))[1..] == Decimal(NumberAt(ts, p.token));
  }
}
