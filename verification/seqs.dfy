/** Sequence helpers shared by the destination search and the
    remove-by-name handlers: an order-preserving filter (JavaScript's
    `Array.prototype.filter`) and the subsequence relation it establishes. */
module Seqs {

  /** `a` can be obtained from `b` by deleting elements, keeping order. */
  predicate IsSubseq<T(==)>(a: seq<T>, b: seq<T>)
    decreases |b|
  {
    a == [] || (b != [] && ((a[0] == b[0] && IsSubseq(a[1..], b[1..])) || IsSubseq(a, b[1..])))
  }

  /** The elements of `xs` satisfying `p`, in their original order. Every
      occurrence of a kept element is kept and nothing else appears. */
  function Filter<T(==,!new)>(xs: seq<T>, p: T -> bool): (r: seq<T>)
    ensures |r| <= |xs|
    ensures forall i :: 0 <= i < |r| ==> p(r[i])
    ensures forall x :: x in r <==> x in xs && p(x)
    ensures forall x :: multiset(r)[x] == if p(x) then multiset(xs)[x] else 0
  {
    if xs == [] then []
    else
      assert xs == [xs[0]] + xs[1..];
      if p(xs[0]) then [xs[0]] + Filter(xs[1..], p) else Filter(xs[1..], p)
  }

  /** The filter's result is a subsequence of its input: order is kept. */
  lemma {:induction false} FilterIsSubseq<T(!new)>(xs: seq<T>, p: T -> bool)
    ensures IsSubseq(Filter(xs, p), xs)
    decreases |xs|
  {
    if xs != [] {
      FilterIsSubseq(xs[1..], p);
      var rest := Filter(xs[1..], p);
      if p(xs[0]) {
        assert Filter(xs, p) == [xs[0]] + rest;
        assert ([xs[0]] + rest)[1..] == rest;
      } else {
        assert Filter(xs, p) == rest;
        SubseqOfTail(rest, xs);
      }
    }
  }

  lemma SubseqOfTail<T>(a: seq<T>, b: seq<T>)
    requires b != [] && IsSubseq(a, b[1..])
    ensures IsSubseq(a, b)
  {
  }

  /** Filtering a concatenation filters each part. */
  lemma {:induction false} FilterAppend<T(!new)>(xs: seq<T>, ys: seq<T>, p: T -> bool)
    ensures Filter(xs + ys, p) == Filter(xs, p) + Filter(ys, p)
    decreases |xs|
  {
    if xs == [] {
      assert xs + ys == ys;
    } else {
      assert (xs + ys)[0] == xs[0];
      assert (xs + ys)[1..] == xs[1..] + ys;
      FilterAppend(xs[1..], ys, p);
    }
  }

  /** When every element satisfies `p`, filtering changes nothing. */
  lemma {:induction false} FilterKeepsAll<T(!new)>(xs: seq<T>, p: T -> bool)
    requires forall i :: 0 <= i < |xs| ==> p(xs[i])
    ensures Filter(xs, p) == xs
    decreases |xs|
  {
    if xs != [] {
      FilterKeepsAll(xs[1..], p);
      assert [xs[0]] + xs[1..] == xs;
    }
  }

  /** Filtering twice by the same predicate is filtering once. */
  lemma FilterIdempotent<T(!new)>(xs: seq<T>, p: T -> bool)
    ensures Filter(Filter(xs, p), p) == Filter(xs, p)
  {
    FilterKeepsAll(Filter(xs, p), p);
  }

}
