/**
 Finding the block comments of a text. The specification pairs comment markers by bracket matching: an
 opener and a closer match if the markers between them are balanced. The scan itself keeps a stack.
 */
module Comments {
  import opened Bytes
  import opened Wrappers

  /** A comment marker and where it stands. */
  datatype Mark = Opener(pos: nat) | Closer(pos: nat)

  const SLASH: byte := 0x2F
  const STAR: byte := 0x2A

  /** The markers from position `i` on, taken from left to right; they do not overlap. */
  function Marks(s: seq<byte>, i: nat): seq<Mark>
    decreases |s| - i
  {
    if i + 1 >= |s| then []
    else if s[i] == SLASH && s[i + 1] == STAR then [Opener(i)] + Marks(s, i + 2)
    else if s[i] == STAR && s[i + 1] == SLASH then [Closer(i)] + Marks(s, i + 2)
    else Marks(s, i + 1)
  }

  lemma {:induction false} MarksApart(s: seq<byte>, i: nat)
    ensures Apart(Marks(s, i), i, |s|)
    decreases |s| - i
  {
    if i + 1 < |s| {
      MarksApart(s, i + 1);
      MarksApart(s, i + 2);
    }
  }

  ghost predicate Apart(ms: seq<Mark>, i: nat, end: nat) {
    && (forall k :: 0 <= k < |ms| ==> i <= ms[k].pos < end - 1)
    && (forall k, l :: 0 <= k < l < |ms| ==> ms[k].pos + 2 <= ms[l].pos)
  }

  /** The two bytes of an opening marker stand at `p`. */
  predicate OpensAt(s: seq<byte>, p: nat) { p + 1 < |s| && s[p] == '/' as int && s[p + 1] == '*' as int }

  predicate ClosesAt(s: seq<byte>, p: nat) { p + 1 < |s| && s[p] == '*' as int && s[p + 1] == '/' as int }

  ghost predicate MarkAt(ms: seq<Mark>, p: int) { exists k :: 0 <= k < |ms| && ms[k].pos == p }

  /**
   Where markers stand: each of them is one of the two byte pairs, and such a pair is a marker unless the
   marker taken one byte before it overlaps it.
   */
  lemma {:induction false} MarksAreMarkers(s: seq<byte>, i: nat, p: nat)
    requires i <= p
    ensures forall k :: 0 <= k < |Marks(s, i)| ==>
              var m := Marks(s, i)[k]; if m.Opener? then OpensAt(s, m.pos) else ClosesAt(s, m.pos)
    ensures MarkAt(Marks(s, i), p) <==> (OpensAt(s, p) || ClosesAt(s, p)) && (p == i || !MarkAt(Marks(s, i), p - 1))
    decreases |s| - i
  {
    var ms := Marks(s, i);
    if i + 1 < |s| {
      var next := if OpensAt(s, i) || ClosesAt(s, i) then i + 2 else i + 1;
      var rest := Marks(s, next);
      MarksApart(s, next);
      if next == i + 2 {
        assert ms[0].pos == i && ms[1..] == rest;
        assert forall q :: q > i ==> (MarkAt(ms, q) <==> MarkAt(rest, q));
      } else {
        assert ms == rest;
      }
      if p >= next {
        MarksAreMarkers(s, next, p);
      } else {
        MarksAreMarkers(s, next, next);
      }
    }
  }

  /** What stands at `i`, if the first `n` markers end before it. */
  lemma NextMark(s: seq<byte>, i: nat, n: nat)
    requires i + 1 < |s| && n <= |Marks(s, 0)| && Marks(s, i) == Marks(s, 0)[n..]
    ensures var ms := Marks(s, 0);
            if s[i] == SLASH && s[i + 1] == STAR then
              n < |ms| && ms[n] == Opener(i) && Marks(s, i + 2) == ms[n + 1..]
            else if s[i] == STAR && s[i + 1] == SLASH then
              n < |ms| && ms[n] == Closer(i) && Marks(s, i + 2) == ms[n + 1..]
            else Marks(s, i + 1) == ms[n..]
  {
    SuffixNext(Marks(s, 0), n);
  }

  /** Openers minus closers in `ms[a..b]`. */
  function Net(ms: seq<Mark>, a: nat, b: nat): int
    requires a <= b <= |ms|
  {
    if a == b then 0 else Net(ms, a, b - 1) + if ms[b - 1].Opener? then 1 else -1
  }

  /** No closer in `ms[a..b]` lacks its opener there. */
  ghost predicate NeverBelow(ms: seq<Mark>, a: nat, b: nat)
    requires a <= b <= |ms|
  {
    forall k :: a <= k <= b ==> Net(ms, a, k) >= 0
  }

  /** `ms[a]` opens the comment that `ms[b]` closes: what stands between them is balanced. */
  ghost predicate Matched(ms: seq<Mark>, a: nat, b: nat) {
    && a < b < |ms| && ms[a].Opener? && ms[b].Closer?
    && NeverBelow(ms, a + 1, b) && Net(ms, a + 1, b) == 0
  }

  lemma {:induction false} NetSplit(ms: seq<Mark>, a: nat, b: nat, c: nat)
    requires a <= b <= c <= |ms|
    ensures Net(ms, a, c) == Net(ms, a, b) + Net(ms, b, c)
  {
    if b < c {
      NetSplit(ms, a, b, c - 1);
    }
  }

  /** Two comments are the same, apart from each other, or one inside the other. */
  lemma CommentsNest(ms: seq<Mark>, a: nat, b: nat, c: nat, d: nat)
    requires Matched(ms, a, b) && Matched(ms, c, d)
    ensures (a == c && b == d) || b < c || d < a || (a < c && d < b) || (c < a && b < d)
  {
    if a <= c <= b {
      DoNotCross(ms, a, b, c, d);
    } else if c <= a <= d {
      DoNotCross(ms, c, d, a, b);
    }
  }

  lemma ClosesOnce(ms: seq<Mark>, a: nat, b: nat, d: nat)
    requires Matched(ms, a, b) && b < d
    ensures !Matched(ms, a, d)
  {
    if d < |ms| {
      assert Net(ms, a + 1, b + 1) == -1;
    }
  }

  lemma DoNotCross(ms: seq<Mark>, a: nat, b: nat, c: nat, d: nat)
    requires Matched(ms, a, b) && Matched(ms, c, d) && a <= c <= b
    ensures (a == c && b == d) || (a < c && d < b)
  {
    if a == c {
      if b < d {
        ClosesOnce(ms, a, b, d);
      } else if d < b {
        ClosesOnce(ms, a, d, b);
      }
    } else if b <= d {
      NetSplit(ms, a + 1, c, b);
      NetSplit(ms, c, c + 1, b);
    }
  }

  ghost predicate HasOpener(ms: seq<Mark>, b: nat) { exists a :: Matched(ms, a, b) }

  ghost function OpenerOf(ms: seq<Mark>, b: nat): (a: nat)
    requires HasOpener(ms, b)
    ensures Matched(ms, a, b)
  {
    var a :| Matched(ms, a, b);
    a
  }

  /** The comments closed by the first `n` markers, in the order in which they are closed. */
  ghost function Pairs(ms: seq<Mark>, n: nat): (ps: seq<(nat, nat)>)
    requires n <= |ms|
  {
    if n == 0 then []
    else if HasOpener(ms, n - 1) then Pairs(ms, n - 1) + [(OpenerOf(ms, n - 1), n - 1)]
    else Pairs(ms, n - 1)
  }

  /** Exactly the matching pairs are reported, each once, ordered by where they close. */
  lemma {:induction false} PairsAreTheMatches(ms: seq<Mark>, n: nat)
    requires n <= |ms|
    ensures var ps := Pairs(ms, n);
            && (forall a: nat, b: nat :: (a, b) in ps <==> Matched(ms, a, b) && b < n)
            && (forall k, l :: 0 <= k < l < |ps| ==> ps[k].1 < ps[l].1)
  {
    if n > 0 {
      PairsAreTheMatches(ms, n - 1);
      var ps, ps' := Pairs(ms, n - 1), Pairs(ms, n);
      assert forall k :: 0 <= k < |ps| ==> (ps[k].0, ps[k].1) in ps;
      var b := n - 1;
      if HasOpener(ms, b) {
        var a := ps'[|ps|].0;
        assert ps' == ps + [(a, b)] && Matched(ms, a, b);
        forall c | Matched(ms, c, b) ensures c == a {
          CommentsNest(ms, a, b, c, b);
        }
      }
    }
  }

  // ---------------------------------------------------------------------
  // The scan
  // ---------------------------------------------------------------------

  /** The openers among the first `n` markers that are still open. */
  ghost predicate IsOpen(ms: seq<Mark>, a: nat, n: nat) {
    a < n <= |ms| && ms[a].Opener? && NeverBelow(ms, a + 1, n)
  }

  /** The stack holds exactly the open ones, the innermost last; `a` has one more open marker after it per place. */
  ghost predicate IsStack(ms: seq<Mark>, stack: seq<nat>, n: nat) {
    && n <= |ms|
    && (forall j :: 0 <= j < |stack| ==> IsOpen(ms, stack[j], n) && Net(ms, stack[j] + 1, n) == |stack| - 1 - j)
    && (forall a: nat :: IsOpen(ms, a, n) ==> a in stack)
  }

  lemma OpenNext(ms: seq<Mark>, a: nat, n: nat)
    requires n < |ms| && a < n
    ensures IsOpen(ms, a, n + 1) <==> IsOpen(ms, a, n) && Net(ms, a + 1, n + 1) >= 0
  {
  }

  lemma PushOpener(ms: seq<Mark>, stack: seq<nat>, n: nat)
    requires IsStack(ms, stack, n) && n < |ms| && ms[n].Opener?
    ensures IsStack(ms, stack + [n], n + 1)
    ensures !HasOpener(ms, n)
  {
    var stack' := stack + [n];
    forall j | 0 <= j < |stack'|
      ensures IsOpen(ms, stack'[j], n + 1) && Net(ms, stack'[j] + 1, n + 1) == |stack'| - 1 - j
    {
      if j < |stack| {
        OpenNext(ms, stack[j], n);
      }
    }
    forall a: nat | IsOpen(ms, a, n + 1) ensures a in stack' {
      assert stack'[|stack|] == n;
      if a < n {
        OpenNext(ms, a, n);
        var j :| 0 <= j < |stack| && stack[j] == a;
        assert stack'[j] == a;
      }
    }
  }

  lemma PopOpener(ms: seq<Mark>, stack: seq<nat>, n: nat)
    requires IsStack(ms, stack, n) && n < |ms| && ms[n].Closer? && stack != []
    ensures IsStack(ms, stack[..|stack| - 1], n + 1)
    ensures HasOpener(ms, n) && OpenerOf(ms, n) == stack[|stack| - 1]
  {
    var top, stack' := stack[|stack| - 1], stack[..|stack| - 1];
    assert Matched(ms, top, n);
    forall c | Matched(ms, c, n) ensures c == top {
      CommentsNest(ms, top, n, c, n);
    }
    forall j | 0 <= j < |stack'|
      ensures IsOpen(ms, stack'[j], n + 1) && Net(ms, stack'[j] + 1, n + 1) == |stack'| - 1 - j
    {
      OpenNext(ms, stack[j], n);
    }
    forall a: nat | IsOpen(ms, a, n + 1) ensures a in stack' {
      OpenNext(ms, a, n);
      var j :| 0 <= j < |stack| && stack[j] == a;
      assert stack'[j] == a;
    }
  }

  lemma StrayCloser(ms: seq<Mark>, n: nat)
    requires IsStack(ms, [], n) && n < |ms| && ms[n].Closer?
    ensures IsStack(ms, [], n + 1)
    ensures !HasOpener(ms, n)
  {
    forall a: nat | a < n ensures !Matched(ms, a, n) {
      assert a !in [];
    }
    forall a: nat | IsOpen(ms, a, n + 1) ensures a in [] {
      OpenNext(ms, a, n);
    }
  }

  /** The texts of the comments closed by the first `n` markers, in the order of `Pairs`. */
  ghost function Texts(s: seq<byte>, n: nat): (r: seq<seq<byte>>)
    requires n <= |Marks(s, 0)|
  {
    if n == 0 then []
    else
      var ms := Marks(s, 0);
      MarksApart(s, 0);
      if HasOpener(ms, n - 1) then Texts(s, n - 1) + [s[ms[OpenerOf(ms, n - 1)].pos + 2..ms[n - 1].pos]]
      else Texts(s, n - 1)
  }

  /** `r` is what stands between the two markers of the pair `p`. */
  ghost predicate IsTextOf(s: seq<byte>, ms: seq<Mark>, p: (nat, nat), r: seq<byte>) {
    && p.0 < p.1 < |ms| && ms[p.0].pos + 2 <= ms[p.1].pos <= |s|
    && r == s[ms[p.0].pos + 2..ms[p.1].pos]
  }

  /** Each text reported is that of its pair. */
  lemma {:induction false} TextsArePairs(s: seq<byte>, n: nat)
    requires n <= |Marks(s, 0)|
    ensures var ms := Marks(s, 0);
            var ps, r := Pairs(ms, n), Texts(s, n);
            |r| == |ps| && forall k :: 0 <= k < |ps| ==> IsTextOf(s, ms, ps[k], r[k])
  {
    if n > 0 {
      NextText(s, n);
      hide *;
      TextsArePairs(s, n - 1);
    }
  }

  lemma NextText(s: seq<byte>, n: nat)
    requires 0 < n <= |Marks(s, 0)|
    ensures var ms := Marks(s, 0);
            if HasOpener(ms, n - 1) then
              var p, r := (OpenerOf(ms, n - 1), n - 1), Texts(s, n);
              && Pairs(ms, n) == Pairs(ms, n - 1) + [p]
              && |r| == |Texts(s, n - 1)| + 1 && r[..|r| - 1] == Texts(s, n - 1)
              && IsTextOf(s, ms, p, r[|r| - 1])
            else Pairs(ms, n) == Pairs(ms, n - 1) && Texts(s, n) == Texts(s, n - 1)
  {
    MarksApart(s, 0);
    hide HasOpener, NeverBelow, Net;
  }

  /** The scan at position `i`, past `n` markers: where the texts of the open comments start, and the texts found. */
  ghost predicate Scanned(text: Utf8, open: seq<nat>, comments: seq<Utf8>, i: nat, n: nat, stack: seq<nat>) {
    var ms := Marks(text, 0);
    && n <= |ms| && Marks(text, i) == ms[n..]
    && IsStack(ms, stack, n)
    && comments == Texts(text, n)
    && |open| == |stack|
    && forall j :: 0 <= j < |open| ==>
         && stack[j] < |ms| && open[j] == ms[stack[j]].pos + 2 <= i
         && open[j] <= |text| && IsCharBoundary(text, open[j])
  }

  lemma ScanOpener(text: Utf8, open: seq<nat>, comments: seq<Utf8>, i: nat, n: nat, stack: seq<nat>)
    requires Scanned(text, open, comments, i, n, stack)
    requires i + 1 < |text| && text[i] == SLASH && text[i + 1] == STAR
    ensures Scanned(text, open + [i + 2], comments, i + 2, n + 1, stack + [n])
  {
    NextMark(text, i, n);
    AsciiIsBoundary(text, i + 1);
    PushOpener(Marks(text, 0), stack, n);
    hide IsStack, HasOpener, Marks;
  }

  lemma ScanCloser(text: Utf8, open: seq<nat>, comments: seq<Utf8>, i: nat, n: nat, stack: seq<nat>)
    requires Scanned(text, open, comments, i, n, stack)
    requires i + 1 < |text| && text[i] == STAR && text[i + 1] == SLASH && open != []
    ensures var k := |open| - 1;
            && k < |stack| && open[k] <= i && ValidUtf8(text[open[k]..i])
            && Scanned(text, open[..k], comments + [text[open[k]..i]], i + 2, n + 1, stack[..k])
  {
    NextMark(text, i, n);
    AsciiIsBoundary(text, i);
    SliceIsUtf8(text, open[|open| - 1], i);
    PopOpener(Marks(text, 0), stack, n);
    hide IsStack, HasOpener, Marks, ValidUtf8;
  }

  lemma ScanStrayCloser(text: Utf8, comments: seq<Utf8>, i: nat, n: nat, stack: seq<nat>)
    requires Scanned(text, [], comments, i, n, stack)
    requires i + 1 < |text| && text[i] == STAR && text[i + 1] == SLASH
    ensures Scanned(text, [], comments, i + 2, n + 1, [])
  {
    NextMark(text, i, n);
    StrayCloser(Marks(text, 0), n);
    hide IsStack, HasOpener, Marks;
  }

  lemma ScanOther(text: Utf8, open: seq<nat>, comments: seq<Utf8>, i: nat, n: nat, stack: seq<nat>)
    requires Scanned(text, open, comments, i, n, stack) && i + 1 < |text|
    requires !(text[i] == SLASH && text[i + 1] == STAR) && !(text[i] == STAR && text[i + 1] == SLASH)
    ensures Scanned(text, open, comments, i + 1, n, stack)
  {
    NextMark(text, i, n);
    hide IsStack, Marks;
  }

  lemma ScanStart(text: Utf8)
    ensures Scanned(text, [], [], 0, 0, [])
  {
  }

  lemma ScanEnd(text: Utf8, open: seq<nat>, comments: seq<Utf8>, i: nat, n: nat, stack: seq<nat>)
    requires Scanned(text, open, comments, i, n, stack) && i + 1 >= |text|
    ensures comments == Texts(text, |Marks(text, 0)|)
  {
    hide IsStack, Texts;
  }

  /**
   The inner texts of all comments of `text`, nested ones included, in the order in which they are
   closed. Every cut is between two characters.
   */
  method BlockComments(text: Utf8) returns (comments: seq<Utf8>)
    ensures comments == Texts(text, |Marks(text, 0)|)
  {
    hide *;
    comments := [];
    var open: seq<nat> := [];
    ghost var n, stack: seq<nat> := 0, [];
    var i := 0;
    ScanStart(text);
    while i + 1 < |text|
      invariant Scanned(text, open, comments, i, n, stack)
      decreases |text| - i
    {
      if text[i] == SLASH && text[i + 1] == STAR {
        ScanOpener(text, open, comments, i, n, stack);
        open, stack, n := open + [i + 2], stack + [n], n + 1;
        i := i + 2;
      } else if text[i] == STAR && text[i + 1] == SLASH {
        if |open| > 0 {
          var start := open[|open| - 1];
          ScanCloser(text, open, comments, i, n, stack);
          comments := comments + [text[start..i]];
          open, stack := open[..|open| - 1], stack[..|open| - 1];
        } else {
          ScanStrayCloser(text, comments, i, n, stack);
          stack := [];
        }
        n := n + 1;
        i := i + 2;
      } else {
        ScanOther(text, open, comments, i, n, stack);
        i := i + 1;
      }
    }
    ScanEnd(text, open, comments, i, n, stack);
  }
}
