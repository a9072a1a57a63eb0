/** The compactor and the renderer as they run, proved against `SelectLists.Compactions` and `Sanitize.Pieces`. */
module Renderer {
  import opened Bytes
  import opened Sanitize
  import opened SelectLists
  import opened Wrappers

  /** `sort_unstable_by_key`: some order by start; what it does with equal keys is not promised. */
  method SortUnstable(cs: seq<Compaction>) returns (sorted: seq<Compaction>)
    ensures multiset(sorted) == multiset(cs) && SortedByStart(sorted)
  {
    SortSorts(cs);
    sorted := SortByStart(cs);
  }

  /** The candidate of the SELECT at `selectIndex`, found in one scan of the tokens that follow it. */
  method ScanSelectList(lx: seq<Lexeme>, depths: seq<int>, selectIndex: nat)
    returns (firstComma: Option<nat>, end: nat, additionalColumns: nat)
    requires |depths| == |lx| && (forall i :: 0 <= i < |lx| ==> depths[i] == Depth(lx, i)) && selectIndex < |lx|
    ensures var x := RangeOf(lx, selectIndex);
            && end == x.end && additionalColumns == x.additionalColumns
            && firstComma == if x.start < x.end then Some(x.start) else None
  {
    ghost var goal := RangeOf(lx, selectIndex);
    var selectDepth := depths[selectIndex];
    firstComma, additionalColumns, end := None, 0, |lx|;
    var index := selectIndex + 1;
    while index < |lx|
      invariant selectIndex < index <= |lx| && end == |lx|
      invariant forall j :: selectIndex < j < index ==> !EndsAt(lx, selectDepth, j)
      invariant additionalColumns == Commas(lx, selectDepth, selectIndex + 1, index)
      invariant firstComma.None? ==> forall j :: selectIndex < j < index ==> !CommaAt(lx, selectDepth, j)
      invariant firstComma.Some? ==> selectIndex < firstComma.value < index
      invariant firstComma.Some? ==> CommaAt(lx, selectDepth, firstComma.value)
      invariant firstComma.Some? ==> forall j :: selectIndex < j < firstComma.value ==> !CommaAt(lx, selectDepth, j)
    {
      if depths[index] == selectDepth {
        if lx[index].stop {
          assert EndsAt(lx, selectDepth, index);
          end := index;
          break;
        }
        if lx[index].comma {
          assert CommaAt(lx, selectDepth, index);
          if firstComma.None? {
            firstComma := Some(index);
          }
          additionalColumns := additionalColumns + 1;
        }
      }
      index := index + 1;
    }
    assert end == goal.end == index;
  }

  /** The texts of the tokens, as lexemes, and the depth before each; nothing if one is not a slice. */
  method TokenDepths(sql: seq<byte>, tokens: seq<Token>) returns (r: Option<(seq<Lexeme>, seq<int>)>)
    ensures r.Some? <==> AllSlices(sql, tokens)
    ensures r.Some? ==> var (lx, depths) := r.value;
                        lx == Lexemes(sql, tokens) && |depths| == |lx| && forall i :: 0 <= i < |lx| ==> depths[i] == Depth(lx, i)
  {
    hide LexemeOf, Get;
    var depths: seq<int> := [];
    var texts: seq<Lexeme> := [];
    var depth := 0;
    for i := 0 to |tokens|
      invariant |depths| == |texts| == i
      invariant forall j :: 0 <= j < i ==> Get(sql, tokens[j].start, tokens[j].end).Some?
      invariant forall j :: 0 <= j < i ==> texts[j] == LexemeOf(Get(sql, tokens[j].start, tokens[j].end).value)
      invariant forall j :: 0 <= j < i ==> depths[j] == Depth(texts, j)
      invariant depth == Depth(texts, i)
    {
      var text := Get(sql, tokens[i].start, tokens[i].end);
      if text.None? {
        return None;
      }
      var lexeme := LexemeOf(text.value);
      DepthOfPrefix(texts, lexeme);
      depths := depths + [depth];
      texts := texts + [lexeme];
      if lexeme.open {
        depth := depth + 1;
      } else if lexeme.close {
        depth := depth - 1;
      }
    }
    return Some((texts, depths));
  }

  method CollectCandidates(lx: seq<Lexeme>, depths: seq<int>) returns (compactions: seq<Compaction>)
    requires |depths| == |lx| && forall i :: 0 <= i < |lx| ==> depths[i] == Depth(lx, i)
    ensures compactions == Candidates(lx, |lx|)
  {
    compactions := [];
    for selectIndex := 0 to |lx|
      invariant compactions == Candidates(lx, selectIndex)
    {
      if lx[selectIndex].select {
        var firstComma, end, additionalColumns := ScanSelectList(lx, depths, selectIndex);
        if firstComma.Some? {
          compactions := compactions + [Compaction(firstComma.value, end, additionalColumns)];
        }
      }
    }
  }

  method KeepNonOverlapping(compactions: seq<Compaction>) returns (kept: seq<Compaction>)
    ensures kept == Keep(compactions, 0)
  {
    kept := [];
    for i := 0 to |compactions|
      invariant kept + Keep(compactions[i..], if kept == [] then 0 else kept[|kept| - 1].end) == Keep(compactions, 0)
    {
      var compaction := compactions[i];
      assert compactions[i..][1..] == compactions[i + 1..];
      if kept == [] || kept[|kept| - 1].end <= compaction.start {
        Assoc(kept, [compaction], Keep(compactions[i + 1..], compaction.end));
        kept := kept + [compaction];
      }
    }
    assert kept + [] == kept;
  }

  /** Finds the parts of SELECT lists to compact; none at all if some token is not a slice of the text. */
  method SelectListCompactions(sql: seq<byte>, tokens: seq<Token>) returns (r: Option<seq<Compaction>>)
    ensures r == if AllSlices(sql, tokens) then Some(Compactions(Lexemes(sql, tokens))) else None
  {
    var lexed := TokenDepths(sql, tokens);
    if lexed.None? {
      return None;
    }
    var (lx, depths) := lexed.value;
    var compactions := CollectCandidates(lx, depths);
    compactions := SortUnstable(compactions);
    AnySortedOrderWorks(lx, compactions);
    var nonOverlapping := KeepNonOverlapping(compactions);
    return Some(nonOverlapping);
  }

  /** Appending a token does not change the depths before it. */
  lemma DepthOfPrefix(lx: seq<Lexeme>, l: Lexeme)
    ensures forall j :: 0 <= j <= |lx| ==> Depth(lx + [l], j) == Depth(lx, j)
    ensures Depth(lx + [l], |lx| + 1) == Depth(lx, |lx|) + if l.open then 1 else if l.close then -1 else 0
  {
    forall j | 0 <= j <= |lx| ensures Depth(lx + [l], j) == Depth(lx, j) {
      SameDepth(lx, l, j);
    }
  }

  lemma {:induction false} SameDepth(lx: seq<Lexeme>, l: Lexeme, j: nat)
    requires j <= |lx|
    ensures Depth(lx + [l], j) == Depth(lx, j)
  {
    if j > 0 {
      SameDepth(lx, l, j - 1);
    }
  }

  // ---------------------------------------------------------------------
  // Rendering
  // ---------------------------------------------------------------------

  /** The output after the piece at token `i`, and a blank before it where one is due. */
  function Appended(sql: seq<byte>, ts: seq<Token>, i: nat, out: seq<byte>): seq<byte>
    requires AllSlices(sql, ts) && i < |ts|
  {
    var text := PieceText(sql, ts, PieceAt(ts, i));
    if (Gap(ts, i) || WouldFuse(out, text)) && out != [] then out + [SPACE] + text else out + text
  }

  ghost function Finished(sql: seq<byte>, ts: seq<Token>, cs: seq<Compaction>, i: nat, out: seq<byte>): seq<byte>
    requires AllSlices(sql, ts) && i <= |ts| && Remaining(cs, i, |ts|)
  {
    out + TextOf(sql, ts, Emit(sql, ts, cs, i, out))
  }

  lemma TextOfCons(sql: seq<byte>, ts: seq<Token>, p: Piece, ps: seq<Piece>)
    requires AllSlices(sql, ts) && Refers(p, ts) && AllRefer(ps, ts)
    ensures AllRefer([p] + ps, ts)
    ensures TextOf(sql, ts, [p] + ps) == PieceText(sql, ts, p) + TextOf(sql, ts, ps)
  {
    assert ([p] + ps)[1..] == ps;
  }

  lemma MarkerAdvances(sql: seq<byte>, ts: seq<Token>, cs: seq<Compaction>, i: nat, out: seq<byte>)
    requires AllSlices(sql, ts) && i < |ts| && Remaining(cs, i, |ts|) && cs != [] && cs[0].start == i
    ensures Remaining(cs[1..], cs[0].end, |ts|)
    ensures Finished(sql, ts, cs, i, out)
            == Finished(sql, ts, cs[1..], cs[0].end, out + MarkerText(cs[0].additionalColumns))
  {
    hide MarkerText;
    var marker := MarkerText(cs[0].additionalColumns);
    var rest := Emit(sql, ts, cs[1..], cs[0].end, out + marker);
    TextOfCons(sql, ts, Marker(cs[0]), rest);
    Assoc(out, marker, TextOf(sql, ts, rest));
  }

  lemma TokenAdvances(sql: seq<byte>, ts: seq<Token>, cs: seq<Compaction>, i: nat, out: seq<byte>)
    requires AllSlices(sql, ts) && i < |ts| && Remaining(cs, i, |ts|) && (cs != [] ==> cs[0].start != i)
    ensures Remaining(cs, i + 1, |ts|)
    ensures Finished(sql, ts, cs, i, out) == Finished(sql, ts, cs, i + 1, Appended(sql, ts, i, out))
  {
    hide PieceText, WouldFuse, Gap;
    var p := PieceAt(ts, i);
    var text := PieceText(sql, ts, p);
    var rest := Emit(sql, ts, cs, i + 1, Appended(sql, ts, i, out));
    TextOfCons(sql, ts, p, rest);
    if (Gap(ts, i) || WouldFuse(out, text)) && out != [] {
      TextOfCons(sql, ts, Blank, [p] + rest);
      assert [Blank, p] + rest == [Blank] + ([p] + rest);
      BlankText(sql, ts);
      Assoc(out, [SPACE], text + TextOf(sql, ts, rest));
      Assoc(out + [SPACE], text, TextOf(sql, ts, rest));
    } else {
      Assoc(out, text, TextOf(sql, ts, rest));
    }
  }

  lemma BlankText(sql: seq<byte>, ts: seq<Token>)
    requires AllSlices(sql, ts)
    ensures PieceText(sql, ts, Blank) == [SPACE]
  {
  }

  lemma NumberNext(ts: seq<Token>, i: nat)
    requires i < |ts|
    ensures NumberAt(ts, i + 1) == if ts[i].kind.Constant? then Saturate(NumberAt(ts, i) + 1) else NumberAt(ts, i)
  {
  }

  /** The tokens before `n` do not overlap. */
  ghost predicate OrderedUpTo(ts: seq<Token>, n: nat)
    requires n <= |ts|
  {
    forall i :: 0 < i < n ==> ts[i - 1].end <= ts[i].start
  }

  lemma OrderedParts(ts: seq<Token>)
    ensures forall n :: 0 <= n <= |ts| && !OrderedUpTo(ts, n) ==> !OrderedUpTo(ts, |ts|)
    ensures OrderedUpTo(ts, 0)
  {
    forall n | 0 <= n <= |ts| && !OrderedUpTo(ts, n) ensures !OrderedUpTo(ts, |ts|) {
      var i :| 0 < i < n && ts[i - 1].end > ts[i].start;
    }
  }

  function EndBefore(ts: seq<Token>, i: nat): Option<nat>
    requires i <= |ts|
  {
    if i == 0 then None else Some(ts[i - 1].end)
  }

  /** Passes over compacted tokens: counts their constants and validates them; false if two overlap. */
  method SkipCompacted(sql: seq<byte>, tokens: seq<Token>, from: nat, to: nat, previousEnd: Option<nat>, next: int)
    returns (ok: bool, lastEnd: Option<nat>, next': int)
    requires AllSlices(sql, tokens) && from <= to <= |tokens|
    requires OrderedUpTo(tokens, from) && previousEnd == EndBefore(tokens, from) && next == NumberAt(tokens, from)
    ensures ok <==> OrderedUpTo(tokens, to)
    ensures ok ==> lastEnd == EndBefore(tokens, to) && next' == NumberAt(tokens, to)
  {
    lastEnd, next' := previousEnd, next;
    for i := from to to
      invariant OrderedUpTo(tokens, i) && lastEnd == EndBefore(tokens, i) && next' == NumberAt(tokens, i)
    {
      var token := tokens[i];
      NumberNext(tokens, i);
      if token.kind.Constant? {
        next' := Saturate(next' + 1);
      }
      if lastEnd.Some? && token.start < lastEnd.value {
        return false, lastEnd, next';
      }
      lastEnd := Some(token.end);
    }
    ok := true;
  }

  /** Appends the token at `i`, masked if it is a constant; false if it overlaps the previous one. */
  method AppendToken(sql: seq<byte>, tokens: seq<Token>, i: nat, out: seq<byte>, previousEnd: Option<nat>, next: int)
    returns (ok: bool, out': seq<byte>, next': int)
    requires AllSlices(sql, tokens) && i < |tokens|
    requires OrderedUpTo(tokens, i) && previousEnd == EndBefore(tokens, i) && next == NumberAt(tokens, i)
    ensures ok <==> OrderedUpTo(tokens, i + 1)
    ensures ok ==> out' == Appended(sql, tokens, i, out) && next' == NumberAt(tokens, i + 1)
  {
    NumberNext(tokens, i);
    PieceTextIs(sql, tokens, i);
    hide PieceText, WouldFuse, PlaceholderText, NumberAt;
    var token := tokens[i];
    out', next' := out, next;
    var text;
    if token.kind.Constant? {
      text := PlaceholderText(next);
      next' := Saturate(next + 1);
    } else {
      text := Get(sql, token.start, token.end).value;
    }
    if previousEnd.Some? && token.start < previousEnd.value {
      return false, out, next;
    }
    var gap := previousEnd.Some? && token.start > previousEnd.value;
    if (gap || WouldFuse(out, text)) && out != [] {
      out' := out' + [SPACE];
    }
    out' := out' + text;
    ok := true;
  }

  /** The rendering loop: over the tokens, with the compactions ahead. */
  method RenderTokens(sql: seq<byte>, tokens: seq<Token>, compactions: seq<Compaction>, firstPlaceholder: int)
    returns (r: Option<seq<byte>>)
    requires AllSlices(sql, tokens) && Remaining(compactions, 0, |tokens|) && firstPlaceholder == NumberAt(tokens, 0)
    ensures r.Some? <==> OrderedUpTo(tokens, |tokens|)
    ensures r.Some? ==> r.value == Finished(sql, tokens, compactions, 0, [])
  {
    hide MarkerText, NumberAt, Finished, AllSlices, Appended, OrderedUpTo, Remaining;
    OrderedParts(tokens);
    var out: seq<byte> := [];
    var nextPlaceholder := firstPlaceholder;
    ghost var ahead := compactions;
    var previousEnd: Option<nat> := None;
    var tokenIndex, compactionIndex := 0, 0;
    while tokenIndex < |tokens|
      invariant tokenIndex <= |tokens| && compactionIndex <= |compactions|
      invariant ahead == compactions[compactionIndex..]
      invariant Remaining(ahead, tokenIndex, |tokens|)
      invariant OrderedUpTo(tokens, tokenIndex)
      invariant previousEnd == EndBefore(tokens, tokenIndex)
      invariant nextPlaceholder == NumberAt(tokens, tokenIndex)
      invariant Finished(sql, tokens, ahead, tokenIndex, out) == Finished(sql, tokens, compactions, 0, [])
    {
      SuffixNext(compactions, compactionIndex);
      RemainingFirst(ahead, tokenIndex, |tokens|);
      var ok;
      if compactionIndex < |compactions| && tokenIndex == compactions[compactionIndex].start {
        var compaction := compactions[compactionIndex];
        MarkerAdvances(sql, tokens, ahead, tokenIndex, out);
        ok, previousEnd, nextPlaceholder :=
          SkipCompacted(sql, tokens, compaction.start, compaction.end, previousEnd, nextPlaceholder);
        if !ok {
          return None;
        }
        out := out + MarkerText(compaction.additionalColumns);
        tokenIndex, compactionIndex, ahead := compaction.end, compactionIndex + 1, ahead[1..];
      } else {
        TokenAdvances(sql, tokens, ahead, tokenIndex, out);
        ok, out, nextPlaceholder := AppendToken(sql, tokens, tokenIndex, out, previousEnd, nextPlaceholder);
        if !ok {
          return None;
        }
        previousEnd := Some(tokens[tokenIndex].end);
        tokenIndex := tokenIndex + 1;
      }
    }
    NothingLeft(sql, tokens, ahead, out);
    return Some(out);
  }

  /** Builds the normalized text; nothing exactly if the tokens are inconsistent with it. */
  method Render(sql: seq<byte>, tokens: seq<Token>) returns (r: Option<seq<byte>>)
    ensures r.Some? <==> AllSlices(sql, tokens) && Ordered(tokens)
    ensures r.Some? ==> r.value == TextOf(sql, tokens, Pieces(sql, tokens))
  {
    var compactions := SelectListCompactions(sql, tokens);
    if compactions.None? {
      return None;
    }
    FinishedFromStart(sql, tokens);
    r := RenderTokens(sql, tokens, compactions.value, Saturate(FirstNumber(tokens)));
  }

  lemma PieceTextIs(sql: seq<byte>, ts: seq<Token>, i: nat)
    requires AllSlices(sql, ts) && i < |ts|
    ensures PieceText(sql, ts, PieceAt(ts, i)) ==
            if ts[i].kind.Constant? then PlaceholderText(NumberAt(ts, i)) else Get(sql, ts[i].start, ts[i].end).value
  {
  }

  lemma RemainingFirst(cs: seq<Compaction>, i: nat, n: nat)
    requires Remaining(cs, i, n)
    ensures cs != [] ==> i <= cs[0].start < cs[0].end <= n
  {
  }

  lemma NothingLeft(sql: seq<byte>, ts: seq<Token>, cs: seq<Compaction>, out: seq<byte>)
    requires AllSlices(sql, ts) && Remaining(cs, |ts|, |ts|)
    ensures Finished(sql, ts, cs, |ts|, out) == out
  {
  }

  lemma FinishedFromStart(sql: seq<byte>, ts: seq<Token>)
    requires AllSlices(sql, ts)
    ensures Remaining(Compactions(Lexemes(sql, ts)), 0, |ts|)
    ensures Finished(sql, ts, Compactions(Lexemes(sql, ts)), 0, []) == TextOf(sql, ts, Pieces(sql, ts))
  {
    CompactionsRemain(Lexemes(sql, ts));
  }
}
