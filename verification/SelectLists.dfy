/**
 Which parts of SELECT lists are compacted, over the lexical view of a token: is it a parenthesis, a
 comma, the keyword SELECT, or something that ends a select list. Parentheses need not balance.
 */
module SelectLists {
  datatype LexemeView = Lexeme(open: bool, close: bool, stop: bool, comma: bool, select: bool)

  /** A closing parenthesis ends a list, and is not the keyword. */
  type Lexeme = l: LexemeView | (l.close ==> l.stop) && (l.select ==> !l.close)
    witness Lexeme(false, false, false, false, false)

  /** The tokens `[start, end)` after the first column of a SELECT list, and how many columns they are. */
  datatype Compaction = Compaction(start: nat, end: nat, additionalColumns: nat)

  /** Parenthesis depth before token `i`; negative after surplus closing parentheses. */
  function Depth(lx: seq<Lexeme>, i: nat): int
    requires i <= |lx|
  {
    if i == 0 then 0
    else Depth(lx, i - 1) + if lx[i - 1].open then 1 else if lx[i - 1].close then -1 else 0
  }

  predicate EndsAt(lx: seq<Lexeme>, depth: int, i: nat)
    requires i < |lx|
  {
    Depth(lx, i) == depth && lx[i].stop
  }

  predicate CommaAt(lx: seq<Lexeme>, depth: int, i: nat)
    requires i < |lx|
  {
    Depth(lx, i) == depth && lx[i].comma
  }

  /** The first token from `i` on that ends a list at `depth`, or the number of tokens. */
  function End(lx: seq<Lexeme>, depth: int, i: nat): (e: nat)
    requires i <= |lx|
    ensures i <= e <= |lx|
    ensures forall j :: i <= j < e ==> !EndsAt(lx, depth, j)
    ensures e < |lx| ==> EndsAt(lx, depth, e)
    decreases |lx| - i
  {
    if i == |lx| || EndsAt(lx, depth, i) then i else End(lx, depth, i + 1)
  }

  /** The first comma of `[i, e)` at `depth`, or `e`. */
  function FirstComma(lx: seq<Lexeme>, depth: int, i: nat, e: nat): (c: nat)
    requires i <= e <= |lx|
    ensures i <= c <= e
    ensures forall j :: i <= j < c ==> !CommaAt(lx, depth, j)
    ensures c < e ==> CommaAt(lx, depth, c)
    decreases e - i
  {
    if i == e || CommaAt(lx, depth, i) then i else FirstComma(lx, depth, i + 1, e)
  }

  /** How many commas `[i, e)` has at `depth`. */
  function Commas(lx: seq<Lexeme>, depth: int, i: nat, e: nat): nat
    requires i <= e <= |lx|
    decreases e
  {
    if i == e then 0 else Commas(lx, depth, i, e - 1) + if CommaAt(lx, depth, e - 1) then 1 else 0
  }

  /** What the SELECT at token `s` would compact; empty (`start == end`) if its list has one column. */
  function RangeOf(lx: seq<Lexeme>, s: nat): Compaction
    requires s < |lx|
  {
    var depth := Depth(lx, s);
    var end := End(lx, depth, s + 1);
    Compaction(FirstComma(lx, depth, s + 1, end), end, Commas(lx, depth, s + 1, end))
  }

  predicate IsCandidate(lx: seq<Lexeme>, s: nat) {
    s < |lx| && lx[s].select && RangeOf(lx, s).start < RangeOf(lx, s).end
  }

  function Candidates(lx: seq<Lexeme>, n: nat): seq<Compaction>
    requires n <= |lx|
  {
    if n == 0 then []
    else Candidates(lx, n - 1) + if IsCandidate(lx, n - 1) then [RangeOf(lx, n - 1)] else []
  }

  // ---------------------------------------------------------------------
  // Candidates form a laminar family
  // ---------------------------------------------------------------------

  /** Between a SELECT and the end of its list the depth never falls below the SELECT's. */
  lemma {:induction false} StaysDeep(lx: seq<Lexeme>, s: nat, j: nat)
    requires s < |lx| && lx[s].select && s < j <= RangeOf(lx, s).end
    ensures Depth(lx, j) >= Depth(lx, s)
    decreases j
  {
    if j > s + 1 {
      StaysDeep(lx, s, j - 1);
      assert !EndsAt(lx, Depth(lx, s), j - 1);
    }
  }

  lemma {:induction false} CommasFrom(lx: seq<Lexeme>, depth: int, i: nat, c: nat, e: nat)
    requires i <= c <= e <= |lx| && forall j :: i <= j < c ==> !CommaAt(lx, depth, j)
    ensures Commas(lx, depth, i, e) == Commas(lx, depth, c, e)
    decreases e
  {
    if e > c {
      CommasFrom(lx, depth, i, c, e - 1);
    } else if i < e {
      CommasFrom(lx, depth, i, c - 1, e - 1);
    }
  }

  predicate Contains(x: Compaction, y: Compaction) { x.start <= y.start && y.end <= x.end }

  predicate Disjoint(x: Compaction, y: Compaction) { x.end <= y.start || y.end <= x.start }

  /** A candidate that starts inside another one also ends inside it; with equal starts they are equal. */
  lemma StartsInsideEndsInside(lx: seq<Lexeme>, s1: nat, s2: nat)
    requires IsCandidate(lx, s1) && IsCandidate(lx, s2)
    requires RangeOf(lx, s1).start <= RangeOf(lx, s2).start < RangeOf(lx, s1).end
    ensures RangeOf(lx, s2).end <= RangeOf(lx, s1).end
    ensures RangeOf(lx, s1).start == RangeOf(lx, s2).start ==> RangeOf(lx, s1) == RangeOf(lx, s2)
  {
    var x1, x2 := RangeOf(lx, s1), RangeOf(lx, s2);
    var d1, d2 := Depth(lx, s1), Depth(lx, s2);
    StaysDeep(lx, s1, x2.start);
    assert CommaAt(lx, d1, x1.start) && CommaAt(lx, d2, x2.start);
    if x1.end < x2.end {
      StaysDeep(lx, s2, x1.end);
    }
    if x1.start == x2.start {
      CommasFrom(lx, d1, s1 + 1, x1.start, x1.end);
      CommasFrom(lx, d2, s2 + 1, x1.start, x1.end);
    }
  }

  /**
   For every token sequence, unbalanced parentheses included: two candidates are disjoint or nested,
   and candidates with the same start are the same.
   */
  lemma Laminar(lx: seq<Lexeme>, s1: nat, s2: nat)
    requires IsCandidate(lx, s1) && IsCandidate(lx, s2)
    ensures var (x1, x2) := (RangeOf(lx, s1), RangeOf(lx, s2));
            && (Disjoint(x1, x2) || Contains(x1, x2) || Contains(x2, x1))
            && (x1.start == x2.start ==> x1 == x2)
  {
    var x1, x2 := RangeOf(lx, s1), RangeOf(lx, s2);
    if x1.start <= x2.start < x1.end {
      StartsInsideEndsInside(lx, s1, s2);
    } else if x2.start <= x1.start < x2.end {
      StartsInsideEndsInside(lx, s2, s1);
    }
  }

  // ---------------------------------------------------------------------
  // Sorting and filtering
  // ---------------------------------------------------------------------

  ghost function Elements(cs: seq<Compaction>): set<Compaction> {
    if cs == [] then {} else {cs[0]} + Elements(cs[1..])
  }

  lemma {:induction false} ElementAt(cs: seq<Compaction>, i: nat)
    requires i < |cs|
    ensures cs[i] in Elements(cs)
  {
    if i > 0 {
      ElementAt(cs[1..], i - 1);
    }
  }

  lemma {:induction false} IndexOf(cs: seq<Compaction>, x: Compaction) returns (i: nat)
    requires x in Elements(cs)
    ensures i < |cs| && cs[i] == x
  {
    if cs[0] == x {
      i := 0;
    } else {
      var j := IndexOf(cs[1..], x);
      i := j + 1;
    }
  }

  /** A family as the compactor relies on: non-empty ranges, laminar, determined by their starts. */
  ghost predicate LaminarFamily(family: set<Compaction>) {
    && (forall x :: x in family ==> x.start < x.end)
    && (forall x, y :: x in family && y in family ==> Disjoint(x, y) || Contains(x, y) || Contains(y, x))
    && (forall x, y :: x in family && y in family && x.start == y.start ==> x == y)
  }

  lemma {:induction false} CandidatesAre(lx: seq<Lexeme>, n: nat, i: nat) returns (s: nat)
    requires n <= |lx| && i < |Candidates(lx, n)|
    ensures s < n && IsCandidate(lx, s) && Candidates(lx, n)[i] == RangeOf(lx, s)
    decreases n
  {
    if i < |Candidates(lx, n - 1)| {
      s := CandidatesAre(lx, n - 1, i);
    } else {
      s := n - 1;
    }
  }

  lemma CandidateOf(lx: seq<Lexeme>, x: Compaction) returns (s: nat)
    requires x in Elements(Candidates(lx, |lx|))
    ensures IsCandidate(lx, s) && x == RangeOf(lx, s)
  {
    var i := IndexOf(Candidates(lx, |lx|), x);
    s := CandidatesAre(lx, |lx|, i);
  }

  lemma CandidatesLaminar(lx: seq<Lexeme>)
    ensures LaminarFamily(Elements(Candidates(lx, |lx|)))
    ensures forall x :: x in Elements(Candidates(lx, |lx|)) ==> x.end <= |lx|
  {
    var family := Elements(Candidates(lx, |lx|));
    forall x | x in family ensures x.start < x.end <= |lx| {
      var s := CandidateOf(lx, x);
    }
    forall x, y | x in family && y in family
      ensures Disjoint(x, y) || Contains(x, y) || Contains(y, x)
      ensures x.start == y.start ==> x == y
    {
      var s := CandidateOf(lx, x);
      var t := CandidateOf(lx, y);
      Laminar(lx, s, t);
    }
  }

  ghost predicate SortedByStart(cs: seq<Compaction>) {
    forall i :: 0 <= i < |cs| - 1 ==> cs[i].start <= cs[i + 1].start
  }

  /** The greedy filter: keep a range unless it starts before the last kept one ends. */
  function Keep(cs: seq<Compaction>, lastEnd: nat): seq<Compaction> {
    if cs == [] then []
    else if lastEnd <= cs[0].start then [cs[0]] + Keep(cs[1..], cs[0].end)
    else Keep(cs[1..], lastEnd)
  }

  function InsertByStart(x: Compaction, cs: seq<Compaction>): (r: seq<Compaction>)
    ensures multiset(r) == multiset(cs) + multiset{x}
    ensures |r| == |cs| + 1
  {
    if cs == [] || x.start <= cs[0].start then [x] + cs
    else
      assert cs == [cs[0]] + cs[1..];
      [cs[0]] + InsertByStart(x, cs[1..])
  }

  function SortByStart(cs: seq<Compaction>): (r: seq<Compaction>)
    ensures multiset(r) == multiset(cs)
  {
    if cs == [] then []
    else
      assert cs == [cs[0]] + cs[1..];
      InsertByStart(cs[0], SortByStart(cs[1..]))
  }

  /** The ranges that are compacted: the candidates, sorted and filtered. */
  function Compactions(lx: seq<Lexeme>): seq<Compaction> {
    Keep(SortByStart(Candidates(lx, |lx|)), 0)
  }

  lemma {:induction false} InsertSorted(x: Compaction, cs: seq<Compaction>)
    requires SortedByStart(cs)
    ensures SortedByStart(InsertByStart(x, cs))
    ensures cs != [] && cs[0].start < x.start ==> InsertByStart(x, cs)[0] == cs[0]
  {
    if cs != [] && x.start > cs[0].start {
      InsertSorted(x, cs[1..]);
    }
  }

  lemma {:induction false} SortSorts(cs: seq<Compaction>)
    ensures SortedByStart(SortByStart(cs))
  {
    if cs != [] {
      SortSorts(cs[1..]);
      InsertSorted(cs[0], SortByStart(cs[1..]));
    }
  }

  lemma {:induction false} FirstIsLeast(cs: seq<Compaction>, x: Compaction)
    requires SortedByStart(cs) && x in Elements(cs)
    ensures cs[0].start <= x.start
  {
    if x != cs[0] {
      FirstIsLeast(cs[1..], x);
      assert cs[0].start <= cs[0 + 1].start;
    }
  }

  lemma {:induction false} ElementsOfMultiset(cs: seq<Compaction>, x: Compaction)
    ensures x in Elements(cs) <==> x in multiset(cs)
  {
    if cs != [] {
      assert cs == [cs[0]] + cs[1..];
      ElementsOfMultiset(cs[1..], x);
    }
  }

  lemma SameElements(a: seq<Compaction>, b: seq<Compaction>)
    requires multiset(a) == multiset(b)
    ensures Elements(a) == Elements(b)
  {
    forall x ensures x in Elements(a) <==> x in Elements(b) {
      ElementsOfMultiset(a, x);
      ElementsOfMultiset(b, x);
    }
  }

  lemma SameFirst(a: seq<Compaction>, b: seq<Compaction>)
    requires multiset(a) == multiset(b) && SortedByStart(a) && SortedByStart(b) && LaminarFamily(Elements(a)) && a != []
    ensures b != [] && a[0] == b[0]
  {
    SameElements(a, b);
    assert a[0] in Elements(b);
    FirstIsLeast(b, a[0]);
    FirstIsLeast(a, b[0]);
  }

  lemma MultisetTail(a: seq<Compaction>)
    requires a != []
    ensures multiset(a[1..]) == multiset(a) - multiset{a[0]}
  {
    assert a == [a[0]] + a[1..];
  }

  /** When equal keys mean equal elements, there is only one sorted order: stability does not matter. */
  lemma {:induction false} SortedUnique(a: seq<Compaction>, b: seq<Compaction>)
    requires multiset(a) == multiset(b) && SortedByStart(a) && SortedByStart(b) && LaminarFamily(Elements(a))
    ensures a == b
  {
    if a == [] {
      assert multiset(b) == multiset{};
      assert b == [];
    } else {
      SameFirst(a, b);
      MultisetTail(a);
      MultisetTail(b);
      SortedUnique(a[1..], b[1..]);
      assert a == [a[0]] + a[1..] && b == [b[0]] + b[1..];
    }
  }

  /** Kept ranges do not overlap and come in order. */
  ghost predicate Separated(k: seq<Compaction>) {
    && (forall i :: 0 <= i < |k| ==> k[i].start < k[i].end)
    && (forall i :: 0 <= i < |k| - 1 ==> k[i].end <= k[i + 1].start)
  }

  lemma {:induction false} KeepSelects(cs: seq<Compaction>, lastEnd: nat)
    requires forall x :: x in Elements(cs) ==> x.start < x.end
    ensures var k := Keep(cs, lastEnd);
            Elements(k) <= Elements(cs) && Separated(k) && (k != [] ==> lastEnd <= k[0].start)
  {
    if cs != [] {
      if lastEnd <= cs[0].start {
        KeepSelects(cs[1..], cs[0].end);
        assert ([cs[0]] + Keep(cs[1..], cs[0].end))[1..] == Keep(cs[1..], cs[0].end);
      } else {
        KeepSelects(cs[1..], lastEnd);
      }
    }
  }

  lemma {:induction false} SeparatedFar(k: seq<Compaction>, i: nat, j: nat)
    requires Separated(k) && i < j < |k|
    ensures k[i].end <= k[j].start
    decreases j
  {
    if i < j - 1 {
      SeparatedFar(k, i, j - 1);
      assert k[j - 1].end <= k[j - 1 + 1].start;
    } else {
      assert k[i].end <= k[i + 1].start;
    }
  }

  /** Whatever is filtered out lies inside a range that is kept. */
  lemma {:induction false} KeepCovers(cs: seq<Compaction>, lastEnd: nat, y: Compaction) returns (x: Compaction)
    requires LaminarFamily(Elements(cs)) && SortedByStart(cs) && y in Elements(cs) && lastEnd <= y.start
    ensures x in Elements(Keep(cs, lastEnd)) && Contains(x, y)
  {
    var first := cs[0];
    FirstIsLeast(cs, y);
    if lastEnd > first.start {
      x := KeepCovers(cs[1..], lastEnd, y);
    } else {
      var rest := Keep(cs[1..], first.end);
      assert ([first] + rest)[1..] == rest;
      if y == first {
        x := first;
      } else if first.end <= y.start {
        x := KeepCovers(cs[1..], first.end, y);
      } else {
        assert first in Elements(cs);
        x := first;
      }
    }
  }

  /** The sort's freedom among equal keys has no effect: every sorted order gives the same compactions. */
  lemma AnySortedOrderWorks(lx: seq<Lexeme>, sorted: seq<Compaction>)
    requires multiset(sorted) == multiset(Candidates(lx, |lx|)) && SortedByStart(sorted)
    ensures Keep(sorted, 0) == Compactions(lx)
  {
    var cs := Candidates(lx, |lx|);
    CandidatesLaminar(lx);
    SortSorts(cs);
    SameElements(cs, sorted);
    SortedUnique(sorted, SortByStart(cs));
  }

  /** A candidate that no other candidate contains. */
  ghost predicate Maximal(x: Compaction, family: set<Compaction>) {
    x in family && forall y :: y in family && Contains(y, x) ==> y == x
  }

  /** A kept range is maximal: whatever contains it is itself covered by a kept range, which must be the same one. */
  lemma KeptIsMaximal(cs: seq<Compaction>, x: Compaction)
    requires LaminarFamily(Elements(cs)) && SortedByStart(cs) && x in Elements(Keep(cs, 0))
    ensures Maximal(x, Elements(cs))
  {
    KeepSelects(cs, 0);
    forall y | y in Elements(cs) && Contains(y, x) ensures y == x {
      var z := KeepCovers(cs, 0, y);
      var k := Keep(cs, 0);
      var i := IndexOf(k, x);
      var j := IndexOf(k, z);
      if i < j {
        SeparatedFar(k, i, j);
      } else if j < i {
        SeparatedFar(k, j, i);
      }
    }
  }

  /**
   The greedy filter keeps exactly the maximal candidates, in order and without overlap; every
   candidate lies inside one of them, so their union is the union of all candidates.
   */
  lemma KeepsTheMaximal(lx: seq<Lexeme>)
    ensures var family, k := Elements(Candidates(lx, |lx|)), Compactions(lx);
            && (forall x :: x in Elements(k) <==> Maximal(x, family))
            && (forall y :: y in family ==> exists x :: x in Elements(k) && Contains(x, y))
            && Separated(k)
  {
    var cs := Candidates(lx, |lx|);
    var sorted := SortByStart(cs);
    CandidatesLaminar(lx);
    SortSorts(cs);
    SameElements(cs, sorted);
    KeepSelects(sorted, 0);
    forall y | y in Elements(cs) ensures exists x :: x in Elements(Compactions(lx)) && Contains(x, y) {
      var x := KeepCovers(sorted, 0, y);
    }
    forall x ensures x in Elements(Compactions(lx)) <==> Maximal(x, Elements(cs)) {
      if x in Elements(Compactions(lx)) {
        KeptIsMaximal(sorted, x);
      }
      if Maximal(x, Elements(cs)) {
        var y := KeepCovers(sorted, 0, x);
      }
    }
  }
}
