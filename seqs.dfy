/** Generic sequence helpers: `Array.prototype.reverse`, flat-mapping and the subsequence relation. */
module Seqs {

  /** `xs.reverse()`: the last element comes first. */
  function Reverse<T>(xs: seq<T>): (r: seq<T>)
    ensures |r| == |xs|
    ensures forall i :: 0 <= i < |xs| ==> r[i] == xs[|xs| - 1 - i]
  {
    if xs == [] then [] else Reverse(xs[1..]) + [xs[0]]
  }

  /** Reversing a concatenation reverses the order of the parts. */
  lemma ReverseConcat<T>(a: seq<T>, b: seq<T>)
    ensures Reverse(a + b) == Reverse(b) + Reverse(a)
  {
    var l, r := Reverse(a + b), Reverse(b) + Reverse(a);
    assert forall i :: 0 <= i < |l| ==> l[i] == r[i] by {
      forall i | 0 <= i < |l|
        ensures l[i] == r[i]
      {
        if i < |b| {
          assert l[i] == (a + b)[|a| + |b| - 1 - i] == b[|b| - 1 - i];
        } else {
          assert l[i] == (a + b)[|a| + |b| - 1 - i] == a[|a| - 1 - (i - |b|)];
        }
      }
    }
  }

  /** `f` applied to each element of `xs`, the results concatenated in order. */
  function FlatMap<T, U>(f: T -> seq<U>, xs: seq<T>): seq<U>
    decreases |xs|
  {
    if xs == [] then [] else FlatMap(f, xs[..|xs| - 1]) + f(xs[|xs| - 1])
  }

  /** On one element, `FlatMap` is just `f` of it. */
  lemma FlatMapSingle<T, U>(f: T -> seq<U>, x: T)
    ensures FlatMap(f, [x]) == f(x)
  {
    assert [x][..0] == [];
  }

  /** `FlatMap` distributes over concatenation. */
  lemma {:induction false} FlatMapConcat<T, U>(f: T -> seq<U>, a: seq<T>, b: seq<T>)
    ensures FlatMap(f, a + b) == FlatMap(f, a) + FlatMap(f, b)
    decreases |b|
  {
    if b == [] {
      assert a + b == a;
    } else {
      var h := a + b;
      assert h[..|h| - 1] == a + b[..|b| - 1];
      FlatMapConcat(f, a, b[..|b| - 1]);
    }
  }

  /** What `FlatMap` produces comes from `f` of some element, and all of it does. */
  lemma {:induction false} FlatMapMember<T, U>(f: T -> seq<U>, xs: seq<T>)
    ensures forall y :: y in FlatMap(f, xs) <==> exists i :: 0 <= i < |xs| && y in f(xs[i])
    decreases |xs|
  {
    if xs != [] {
      var init := xs[..|xs| - 1];
      FlatMapMember(f, init);
      forall y
        ensures y in FlatMap(f, xs) <==> exists i :: 0 <= i < |xs| && y in f(xs[i])
      {
        if y in FlatMap(f, init) {
          var i :| 0 <= i < |init| && y in f(init[i]);
          assert xs[i] == init[i];
        }
        if exists i :: 0 <= i < |xs| && y in f(xs[i]) {
          var i :| 0 <= i < |xs| && y in f(xs[i]);
          if i < |init| {
            assert init[i] == xs[i];
          }
        }
      }
    }
  }

  /** Reversing keeps the same elements. */
  lemma ReverseMember<T>(xs: seq<T>)
    ensures forall y :: y in Reverse(xs) <==> y in xs
  {
    forall y | y in xs
      ensures y in Reverse(xs)
    {
      var i :| 0 <= i < |xs| && xs[i] == y;
      assert Reverse(xs)[|xs| - 1 - i] == y;
    }
  }

  /** `sub` is obtained from `xs` by deleting elements and keeping the order of the rest. */
  predicate IsSubsequence<T(==)>(sub: seq<T>, xs: seq<T>)
    decreases |xs|
  {
    sub == [] ||
    (xs != [] &&
     ((sub[0] == xs[0] && IsSubsequence(sub[1..], xs[1..])) || IsSubsequence(sub, xs[1..])))
  }

  /** A subsequence only holds elements of the original. */
  lemma {:induction false} SubsequenceElements<T>(sub: seq<T>, xs: seq<T>)
    requires IsSubsequence(sub, xs)
    ensures forall y :: y in sub ==> y in xs
    decreases |xs|
  {
    if sub != [] {
      if sub[0] == xs[0] && IsSubsequence(sub[1..], xs[1..]) {
        SubsequenceElements(sub[1..], xs[1..]);
        assert forall y :: y in sub ==> y == sub[0] || y in sub[1..];
      } else {
        SubsequenceElements(sub, xs[1..]);
      }
    }
  }
  /** `xs.filter(p)`: the elements satisfying `p`, in order. */
  function Filter<T>(p: T -> bool, xs: seq<T>): seq<T>
    decreases |xs|
  {
    if xs == [] then [] else (if p(xs[0]) then [xs[0]] else []) + Filter(p, xs[1..])
  }

  /**
   * `Filter` keeps exactly the elements satisfying `p`, in their order, each as often as it
   * occurs.
   */
  lemma {:induction false} FilterFacts<T>(p: T -> bool, xs: seq<T>)
    ensures IsSubsequence(Filter(p, xs), xs)
    ensures forall y :: y in Filter(p, xs) <==> y in xs && p(y)
    ensures forall y :: multiset(Filter(p, xs))[y] == if p(y) then multiset(xs)[y] else 0
    decreases |xs|
  {
    if xs != [] {
      FilterFacts(p, xs[1..]);
      var f, rest := Filter(p, xs), Filter(p, xs[1..]);
      assert xs == [xs[0]] + xs[1..];
      assert multiset(xs) == multiset([xs[0]]) + multiset(xs[1..]);
      if p(xs[0]) {
        assert f == [xs[0]] + rest;
        assert f[0] == xs[0] && f[1..] == rest;
        assert multiset(f) == multiset([xs[0]]) + multiset(rest);
      } else {
        assert f == rest;
      }
      assert forall y :: y in xs <==> y == xs[0] || y in xs[1..];
    }
  }

  /** Filtering a concatenation filters each part. */
  lemma {:induction false} FilterConcat<T>(p: T -> bool, a: seq<T>, b: seq<T>)
    ensures Filter(p, a + b) == Filter(p, a) + Filter(p, b)
    decreases |a|
  {
    if a == [] {
      assert a + b == b;
    } else {
      var head := if p(a[0]) then [a[0]] else [];
      assert (a + b)[0] == a[0] && (a + b)[1..] == a[1..] + b;
      assert Filter(p, a + b) == head + Filter(p, a[1..] + b);
      assert Filter(p, a) == head + Filter(p, a[1..]);
      FilterConcat(p, a[1..], b);
    }
  }
  /** Nothing passes the filter when no element satisfies `p`. */
  lemma {:induction false} FilterNone<T>(p: T -> bool, xs: seq<T>)
    requires forall y :: y in xs ==> !p(y)
    ensures Filter(p, xs) == []
    decreases |xs|
  {
    if xs != [] {
      assert xs[0] in xs;
      assert forall y :: y in xs[1..] ==> y in xs;
      FilterNone(p, xs[1..]);
    }
  }
}
