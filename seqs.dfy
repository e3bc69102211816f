/** Sequence helpers shared by the record model: distinctness, a left fold
    (how a block visits a collection) and an order-preserving filter. */
module Seqs {

  predicate Distinct<T(==)>(xs: seq<T>) {
    forall i, j :: 0 <= i < j < |xs| ==> xs[i] != xs[j]
  }

  /** The state a visitor reaches after being handed the elements of `xs`
      one at a time, first to last. */
  function Fold<T, S>(xs: seq<T>, visit: (S, T) -> S, s: S): S
    decreases |xs|
  {
    if xs == [] then s else Fold(xs[1..], visit, visit(s, xs[0]))
  }

  /** A visitor that appends one image per element it is handed sees exactly
      the images of `xs`, in order. */
  lemma {:induction false} FoldAppends<T, U>(xs: seq<T>, visit: (seq<U>, T) -> seq<U>, image: T -> U, acc: seq<U>)
    requires forall a, x :: visit(a, x) == a + [image(x)]
    ensures Fold(xs, visit, acc) == acc + seq(|xs|, i requires 0 <= i < |xs| => image(xs[i]))
    decreases |xs|
  {
    if xs != [] {
      FoldAppends(xs[1..], visit, image, acc + [image(xs[0])]);
      assert acc + [image(xs[0])] + seq(|xs| - 1, i requires 0 <= i < |xs| - 1 => image(xs[1..][i]))
          == acc + seq(|xs|, i requires 0 <= i < |xs| => image(xs[i]));
    }
  }

  /** The elements of `xs` that satisfy `keep`, in their original order. */
  function Filter<T>(xs: seq<T>, keep: T -> bool): seq<T>
    decreases |xs|
  {
    if xs == [] then []
    else if keep(xs[0]) then [xs[0]] + Filter(xs[1..], keep)
    else Filter(xs[1..], keep)
  }

  /** `a` can be obtained from `b` by deleting elements, without reordering. */
  predicate Subsequence<T(==)>(a: seq<T>, b: seq<T>)
    decreases |b|
  {
    if a == [] then true
    else if b == [] then false
    else (a[0] == b[0] && Subsequence(a[1..], b[1..])) || Subsequence(a, b[1..])
  }

  lemma {:induction false} FilterIsSubsequence<T>(xs: seq<T>, keep: T -> bool)
    ensures Subsequence(Filter(xs, keep), xs)
    decreases |xs|
  {
    if xs != [] {
      FilterIsSubsequence(xs[1..], keep);
      var r := Filter(xs[1..], keep);
      if keep(xs[0]) {
        assert Filter(xs, keep) == [xs[0]] + r;
        assert ([xs[0]] + r)[1..] == r;
      } else if r != [] {
        assert Filter(xs, keep) == r;
      }
    }
  }

  /** Each value occurs in the filtered sequence exactly as often as in `xs`
      when it satisfies `keep`, and not at all otherwise. */
  lemma {:induction false} FilterCounts<T>(xs: seq<T>, keep: T -> bool, x: T)
    ensures multiset(Filter(xs, keep))[x] == if keep(x) then multiset(xs)[x] else 0
    decreases |xs|
  {
    if xs != [] {
      FilterCounts(xs[1..], keep, x);
      assert xs == [xs[0]] + xs[1..];
      assert multiset(xs) == multiset([xs[0]]) + multiset(xs[1..]);
    }
  }

  lemma {:induction false} FilterMembers<T>(xs: seq<T>, keep: T -> bool, x: T)
    ensures x in Filter(xs, keep) <==> x in xs && keep(x)
  {
    FilterCounts(xs, keep, x);
  }
}
