/** The failure-compatible datatypes used by every module. */
module Wrappers {

  datatype Option<+T> = None | Some(value: T)

  datatype Result<+T, +E> = Ok(value: T) | Err(error: E) {
    predicate IsFailure() { Err? }

    function PropagateFailure<U>(): Result<U, E>
      requires Err?
    {
      Err(error)
    }

    function Extract(): T
      requires Ok?
    {
      value
    }
  }

  /** The results of `f` on the elements of `s` that it accepts, in order. */
  function FilterMap<T, U>(f: T -> Option<U>, s: seq<T>): seq<U> {
    if s == [] then []
    else (if f(s[0]).Some? then [f(s[0]).value] else []) + FilterMap(f, s[1..])
  }

  lemma FilterMapCons<T, U>(f: T -> Option<U>, x: T, s: seq<T>)
    ensures FilterMap(f, [x] + s) == (if f(x).Some? then [f(x).value] else []) + FilterMap(f, s)
  {
    assert ([x] + s)[1..] == s;
  }

  lemma {:induction false} FilterMapConcat<T, U>(f: T -> Option<U>, a: seq<T>, b: seq<T>)
    ensures FilterMap(f, a + b) == FilterMap(f, a) + FilterMap(f, b)
  {
    if a == [] {
      assert a + b == b;
    } else {
      var first := if f(a[0]).Some? then [f(a[0]).value] else [];
      calc {
        FilterMap(f, a + b);
        { assert a + b == [a[0]] + (a[1..] + b); FilterMapCons(f, a[0], a[1..] + b); }
        first + FilterMap(f, a[1..] + b);
        { FilterMapConcat(f, a[1..], b); }
        first + (FilterMap(f, a[1..]) + FilterMap(f, b));
        { Assoc(first, FilterMap(f, a[1..]), FilterMap(f, b)); }
        FilterMap(f, a) + FilterMap(f, b);
      }
    }
  }

  lemma FilterMapSnoc<T, U>(f: T -> Option<U>, s: seq<T>, x: T)
    ensures FilterMap(f, s + [x]) == FilterMap(f, s) + if f(x).Some? then [f(x).value] else []
  {
    FilterMapConcat(f, s, [x]);
    assert FilterMap(f, [x]) == (if f(x).Some? then [f(x).value] else []) + FilterMap(f, []);
  }

  lemma FilterMapNext<T, U>(f: T -> Option<U>, s: seq<T>, i: nat)
    requires i < |s|
    ensures FilterMap(f, s[..i + 1]) == FilterMap(f, s[..i]) + if f(s[i]).Some? then [f(s[i]).value] else []
  {
    assert s[..i + 1] == s[..i] + [s[i]];
    FilterMapSnoc(f, s[..i], s[i]);
  }

  lemma {:induction false} FilterMapLength<T, U>(f: T -> Option<U>, s: seq<T>)
    ensures |FilterMap(f, s)| <= |s|
  {
    if s != [] {
      FilterMapLength(f, s[1..]);
    }
  }

  function Flatten<T>(ss: seq<seq<T>>): seq<T> {
    if ss == [] then [] else ss[0] + Flatten(ss[1..])
  }

  lemma {:induction false} FlattenSnoc<T>(ss: seq<seq<T>>, s: seq<T>)
    ensures Flatten(ss + [s]) == Flatten(ss) + s
  {
    if ss == [] {
      assert ss + [s] == [s] && Flatten([s]) == s + Flatten([]);
    } else {
      FlattenSnoc(ss[1..], s);
      assert (ss + [s])[1..] == ss[1..] + [s];
    }
  }

  lemma Assoc<T>(a: seq<T>, b: seq<T>, c: seq<T>)
    ensures (a + b) + c == a + (b + c)
  {
  }

  lemma Cut<T>(a: seq<T>, b: seq<T>)
    ensures (a + b)[..|a|] == a && (a + b)[|a|..] == b
  {
  }

  lemma SuffixNext<T>(s: seq<T>, i: nat)
    requires i <= |s|
    ensures s[i..] == [] <==> i == |s|
    ensures i < |s| ==> s[i..][0] == s[i] && s[i..][1..] == s[i + 1..]
  {
  }

  lemma MoveFirst<T>(a: seq<T>, b: seq<T>)
    requires b != []
    ensures (a + [b[0]]) + b[1..] == a + b
  {
  }

  /** If what was given out and what is left is what came in, that stays so when more comes in... */
  lemma StaysInOrderIn<T, U>(f: T -> Option<U>, given: seq<seq<U>>, left: seq<U>, taken: seq<seq<T>>, more: seq<T>)
    requires Flatten(given) + left == FilterMap(f, Flatten(taken))
    ensures Flatten(given) + (left + FilterMap(f, more)) == FilterMap(f, Flatten(taken + [more]))
  {
    FlattenSnoc(taken, more);
    FilterMapConcat(f, Flatten(taken), more);
    Assoc(Flatten(given), left, FilterMap(f, more));
  }

  /** ...and when something more is given out from the front of what is left. */
  lemma StaysInOrderOut<U>(given: seq<seq<U>>, left: seq<U>, k: nat)
    requires k <= |left|
    ensures Flatten(given + [left[..k]]) + left[k..] == Flatten(given) + left
    ensures |Flatten(given + [left[..k]])| + |left[k..]| == |Flatten(given)| + |left|
  {
    FlattenSnoc(given, left[..k]);
    assert left == left[..k] + left[k..];
    Assoc(Flatten(given), left[..k], left[k..]);
  }
}
