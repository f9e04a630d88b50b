/** Generic sequence helpers shared by the three programs. */
module Seqs {

  /** The concatenation of a sequence of sequences, in order. */
  function Concat<T>(ss: seq<seq<T>>): seq<T>
  {
    if ss == [] then [] else ss[0] + Concat(ss[1..])
  }

  /** Apply f to every element and concatenate the results, in order. */
  function FlatMap<T, U>(f: T -> seq<U>, xs: seq<T>): seq<U>
  {
    if xs == [] then [] else f(xs[0]) + FlatMap(f, xs[1..])
  }

  lemma {:induction false} FlatMapAppend<T, U>(f: T -> seq<U>, xs: seq<T>, ys: seq<T>)
    ensures FlatMap(f, xs + ys) == FlatMap(f, xs) + FlatMap(f, ys)
  {
    if xs == [] {
      assert xs + ys == ys;
    } else {
      assert (xs + ys)[1..] == xs[1..] + ys;
      FlatMapAppend(f, xs[1..], ys);
    }
  }

  lemma FlatMapSnoc<T, U>(f: T -> seq<U>, xs: seq<T>, x: T)
    ensures FlatMap(f, xs + [x]) == FlatMap(f, xs) + f(x)
  {
    FlatMapAppend(f, xs, [x]);
    assert FlatMap(f, [x]) == f(x) + FlatMap(f, []);
  }

  lemma FlatMapPair<T, U>(f: T -> seq<U>, x: T, y: T)
    ensures FlatMap(f, [x, y]) == f(x) + f(y)
  {
    assert [x, y][1..] == [y] && [y][1..] == [];
    assert FlatMap(f, [y]) == f(y) + FlatMap(f, []) == f(y);
  }

  /** Extending a prefix of xs by one element extends its FlatMap by that element's image. */
  lemma FlatMapPrefixStep<T, U>(f: T -> seq<U>, xs: seq<T>, n: nat)
    requires n < |xs|
    ensures FlatMap(f, xs[..n + 1]) == FlatMap(f, xs[..n]) + f(xs[n])
  {
    assert xs[..n + 1] == xs[..n] + [xs[n]];
    FlatMapSnoc(f, xs[..n], xs[n]);
  }

  lemma TakeAll<T>(s: seq<T>)
    ensures s[..|s|] == s
  {
  }

  /** FlatMap does not depend on the order of its inputs, up to the order of its outputs. */
  lemma {:induction false} FlatMapPermutation<T, U>(f: T -> seq<U>, xs: seq<T>, ys: seq<T>)
    requires multiset(xs) == multiset(ys)
    ensures multiset(FlatMap(f, xs)) == multiset(FlatMap(f, ys))
    decreases |xs|
  {
    if xs == [] {
      assert |ys| == |multiset(ys)| == 0;
    } else {
      var x := xs[0];
      assert x in multiset(ys);
      var p :| 0 <= p < |ys| && ys[p] == x;
      var rest := ys[..p] + ys[p + 1..];
      assert ys == ys[..p] + [x] + ys[p + 1..];
      assert xs == [x] + xs[1..];
      assert multiset(xs) == multiset{x} + multiset(xs[1..]);
      assert multiset(ys) == multiset(ys[..p]) + multiset{x} + multiset(ys[p + 1..]);
      assert multiset(rest) == multiset(ys[..p]) + multiset(ys[p + 1..]);
      forall e ensures multiset(xs[1..])[e] == multiset(rest)[e] {
        assert multiset(xs)[e] == multiset(ys)[e];
      }
      assert multiset(xs[1..]) == multiset(rest);
      FlatMapPermutation(f, xs[1..], rest);
      FlatMapAppend(f, ys[..p] + [x], ys[p + 1..]);
      FlatMapAppend(f, ys[..p], [x]);
      FlatMapAppend(f, ys[..p], ys[p + 1..]);
      assert FlatMap(f, [x]) == f(x) + FlatMap(f, []);
    }
  }

  /** The elements of s that satisfy p, in order. */
  function Filter<T>(p: T -> bool, s: seq<T>): (r: seq<T>)
    ensures forall i :: 0 <= i < |r| ==> p(r[i])
  {
    if s == [] then [] else (if p(s[0]) then [s[0]] else []) + Filter(p, s[1..])
  }

  lemma {:induction false} FilterAppend<T>(p: T -> bool, a: seq<T>, b: seq<T>)
    ensures Filter(p, a + b) == Filter(p, a) + Filter(p, b)
  {
    if a == [] {
      assert a + b == b;
    } else {
      assert (a + b)[1..] == a[1..] + b;
      FilterAppend(p, a[1..], b);
    }
  }

  /** a can be obtained from b by deleting elements: its elements occur in b, in the same order. */
  predicate IsSubsequence<T(==)>(a: seq<T>, b: seq<T>)
    decreases |b|
  {
    if a == [] then true
    else if b == [] then false
    else (a[0] == b[0] && IsSubsequence(a[1..], b[1..])) || IsSubsequence(a, b[1..])
  }

  /** Elements inserted in front of b keep a a subsequence. */
  lemma {:induction false} SubsequencePrepend<T>(a: seq<T>, x: seq<T>, b: seq<T>)
    requires IsSubsequence(a, b)
    ensures IsSubsequence(a, x + b)
    decreases |x|
  {
    if x == [] {
      assert x + b == b;
    } else if a != [] {
      assert (x + b)[1..] == x[1..] + b;
      SubsequencePrepend(a, x[1..], b);
    }
  }

  /** A common first element extends a subsequence. */
  lemma SubsequenceCons<T>(c: T, a: seq<T>, b: seq<T>)
    requires IsSubsequence(a, b)
    ensures IsSubsequence([c] + a, [c] + b)
  {
    assert ([c] + a)[1..] == a && ([c] + b)[1..] == b;
  }

  /** The length of the longest prefix of s whose elements all satisfy p. */
  function Span<T>(s: seq<T>, p: T -> bool): (n: nat)
    ensures n <= |s|
    ensures forall i :: 0 <= i < n ==> p(s[i])
    ensures n < |s| ==> !p(s[n])
  {
    if s == [] || !p(s[0]) then 0 else 1 + Span(s[1..], p)
  }

  /** A run that meets an element failing p stops there. */
  lemma SpanStops<T>(s: seq<T>, p: T -> bool, n: nat)
    requires n < |s| && !p(s[n])
    requires forall i :: 0 <= i < n ==> p(s[i])
    ensures Span(s, p) == n
  {
  }

  /** The index of the first occurrence of x in s, or |s| when there is none. */
  function FirstIndex<T(==)>(s: seq<T>, x: T): (i: nat)
    ensures i <= |s|
    ensures i < |s| ==> s[i] == x
    ensures forall k :: 0 <= k < i ==> s[k] != x
  {
    if s == [] then 0 else if s[0] == x then 0 else 1 + FirstIndex(s[1..], x)
  }
}
