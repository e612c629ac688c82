/**
 * `Array.prototype.map`, `filter`, flattening, and the first failure met
 * when a step that may fail is run on each element in turn; stated once
 * for any element function.
 */
module SeqOps {
  import opened Wrappers

  /** `xs.map(f)`, built from the front of the sequence to its back. */
  function Map<T, U>(f: T -> U, xs: seq<T>): (ys: seq<U>)
    ensures |ys| == |xs|
    ensures forall i :: 0 <= i < |xs| ==> ys[i] == f(xs[i])
  {
    if xs == [] then [] else Map(f, xs[..|xs| - 1]) + [f(xs[|xs| - 1])]
  }

  /** An element of `xs.map(f)` is the image of an element of `xs`. */
  lemma MapMembers<T, U>(f: T -> U, xs: seq<T>)
    ensures forall y :: y in Map(f, xs) <==> exists x :: x in xs && f(x) == y
  {
    var ys := Map(f, xs);
    forall y | y in ys ensures exists x :: x in xs && f(x) == y {
      var i :| 0 <= i < |ys| && ys[i] == y;
      assert xs[i] in xs;
    }
    forall x | x in xs ensures f(x) in ys {
      var i :| 0 <= i < |xs| && xs[i] == x;
      assert ys[i] == f(x);
    }
  }

  /** `xs.filter(p)`. */
  function Filter<T>(p: T -> bool, xs: seq<T>): (ys: seq<T>)
    ensures |ys| <= |xs|
  {
    if xs == [] then []
    else Filter(p, xs[..|xs| - 1]) + (if p(xs[|xs| - 1]) then [xs[|xs| - 1]] else [])
  }

  /** The filter keeps exactly the elements that pass. */
  lemma {:induction false} FilterMembers<T>(p: T -> bool, xs: seq<T>)
    ensures forall y :: y in Filter(p, xs) <==> y in xs && p(y)
    decreases |xs|
  {
    if xs != [] {
      var prefix := xs[..|xs| - 1];
      FilterMembers(p, prefix);
      assert forall x :: x in xs <==> x in prefix || x == xs[|xs| - 1];
    }
  }

  /** Mapping a concatenation concatenates the maps. */
  lemma MapAppend<T, U>(f: T -> U, a: seq<T>, b: seq<T>)
    ensures Map(f, a + b) == Map(f, a) + Map(f, b)
  {
    var l, r := Map(f, a + b), Map(f, a) + Map(f, b);
    forall i | 0 <= i < |l| ensures l[i] == r[i] {
      if i < |a| {
        assert (a + b)[i] == a[i];
      } else {
        assert (a + b)[i] == b[i - |a|];
      }
    }
  }

  /** The elements of a filtered map are the passing images of the elements. */
  lemma FilterMapMembers<T, U>(p: U -> bool, f: T -> U, xs: seq<T>)
    ensures forall y :: y in Filter(p, Map(f, xs)) <==> p(y) && exists x :: x in xs && f(x) == y
  {
    MapMembers(f, xs);
    FilterMembers(p, Map(f, xs));
  }

  /** A one-element list keeps its element exactly when it passes. */
  lemma FilterOne<T>(p: T -> bool, x: T)
    ensures Filter(p, [x]) == if p(x) then [x] else []
  {
    assert [x][..0] == [];
  }

  /** Filtering a concatenation concatenates the filtered parts; with
      `FilterOne` this says that the passing elements are kept once each and
      in their order. */
  lemma {:induction false} FilterAppend<T>(p: T -> bool, a: seq<T>, b: seq<T>)
    ensures Filter(p, a + b) == Filter(p, a) + Filter(p, b)
    decreases |b|
  {
    if b == [] {
      assert a + b == a;
    } else {
      var b' := b[..|b| - 1];
      assert (a + b)[..|a + b| - 1] == a + b';
      assert (a + b)[|a + b| - 1] == b[|b| - 1];
      FilterAppend(p, a, b');
    }
  }

  /** The results of `f` on every element, concatenated in order. */
  function FlatMap<T, U>(f: T -> seq<U>, xs: seq<T>): seq<U> {
    if xs == [] then [] else FlatMap(f, xs[..|xs| - 1]) + f(xs[|xs| - 1])
  }

  /** Flattening one more element appends its result. */
  lemma FlatMapSnoc<T, U>(f: T -> seq<U>, xs: seq<T>, x: T)
    ensures FlatMap(f, xs + [x]) == FlatMap(f, xs) + f(x)
  {
    assert (xs + [x])[..|xs|] == xs;
  }

  /** Flattening a concatenation concatenates the flattenings. */
  lemma {:induction false} FlatMapAppend<T, U>(f: T -> seq<U>, a: seq<T>, b: seq<T>)
    ensures FlatMap(f, a + b) == FlatMap(f, a) + FlatMap(f, b)
    decreases |b|
  {
    if b == [] {
      assert a + b == a;
    } else {
      var b' := b[..|b| - 1];
      assert (a + b)[..|a + b| - 1] == a + b';
      assert (a + b)[|a + b| - 1] == b[|b| - 1];
      FlatMapAppend(f, a, b');
    }
  }

  /** An element of the flattening comes from the result of some element. */
  lemma {:induction false} FlatMapMembers<T, U>(f: T -> seq<U>, xs: seq<T>)
    ensures forall y :: y in FlatMap(f, xs) <==> exists x :: x in xs && y in f(x)
    decreases |xs|
  {
    if xs != [] {
      var prefix := xs[..|xs| - 1];
      var last := xs[|xs| - 1];
      FlatMapMembers(f, prefix);
      assert forall x :: x in xs <==> x in prefix || x == last;
    }
  }

  /** When `f` and `g` give equally long results that are related element by
      element, so are their flattenings. */
  lemma {:induction false} FlatMapPointwise<T, U, V>(f: T -> seq<U>, g: T -> seq<V>, related: (U, V) -> bool, xs: seq<T>)
    requires forall x :: x in xs ==> |f(x)| == |g(x)| && forall i :: 0 <= i < |f(x)| ==> related(f(x)[i], g(x)[i])
    ensures |FlatMap(f, xs)| == |FlatMap(g, xs)|
    ensures forall i :: 0 <= i < |FlatMap(f, xs)| ==> related(FlatMap(f, xs)[i], FlatMap(g, xs)[i])
    decreases |xs|
  {
    if xs != [] {
      var prefix := xs[..|xs| - 1];
      var last := xs[|xs| - 1];
      FlatMapPointwise(f, g, related, prefix);
      var a, b := FlatMap(f, prefix), FlatMap(g, prefix);
      assert last in xs;
      forall i | 0 <= i < |a| + |f(last)| ensures related((a + f(last))[i], (b + g(last))[i]) {
        if i >= |a| {
          assert (a + f(last))[i] == f(last)[i - |a|];
          assert (b + g(last))[i] == g(last)[i - |a|];
        }
      }
    }
  }

  /** The first `Some` the steps give, taken from the front: running `f` on
      each element in order and stopping at the first failure. */
  function FirstSome<T, U>(f: T -> Option<U>, xs: seq<T>): Option<U> {
    if xs == [] then None
    else match FirstSome(f, xs[..|xs| - 1])
      case Some(u) => Some(u)
      case None => f(xs[|xs| - 1])
  }

  /** No step fails exactly when none of the elements fails. */
  lemma {:induction false} FirstSomeNone<T, U>(f: T -> Option<U>, xs: seq<T>)
    ensures FirstSome(f, xs).None? <==> forall k :: 0 <= k < |xs| ==> f(xs[k]).None?
    decreases |xs|
  {
    if xs != [] {
      var prefix := xs[..|xs| - 1];
      FirstSomeNone(f, prefix);
      assert forall k :: 0 <= k < |prefix| ==> prefix[k] == xs[k];
    }
  }

  /** A failure met among the first elements is the result: the later
      elements are never reached. */
  lemma {:induction false} FirstSomeKept<T, U>(f: T -> Option<U>, xs: seq<T>, j: nat)
    requires j <= |xs| && FirstSome(f, xs[..j]).Some?
    ensures FirstSome(f, xs) == FirstSome(f, xs[..j])
    decreases |xs| - j
  {
    if j < |xs| {
      var prefix := xs[..|xs| - 1];
      assert prefix[..j] == xs[..j];
      FirstSomeKept(f, prefix, j);
    } else {
      assert xs[..j] == xs;
    }
  }

  /** The failure met is that of the first element that fails. */
  lemma FirstSomeAt<T, U>(f: T -> Option<U>, xs: seq<T>, i: nat)
    requires i < |xs| && f(xs[i]).Some?
    requires forall k :: 0 <= k < i ==> f(xs[k]).None?
    ensures FirstSome(f, xs) == f(xs[i])
  {
    var prefix := xs[..i];
    assert forall k :: 0 <= k < i ==> prefix[k] == xs[k];
    FirstSomeNone(f, prefix);
    assert xs[..i + 1][..i] == prefix;
    FirstSomeKept(f, xs, i + 1);
  }
}
