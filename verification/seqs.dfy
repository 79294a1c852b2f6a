/** `Array.prototype.filter` on immutable sequences, and the sub-sequence
    relation that says an order-preserving filter only drops elements. */
module Seqs {

  /** `a` can be obtained from `b` by deleting elements, keeping the order
      of the rest. */
  predicate Subseq<T(==)>(a: seq<T>, b: seq<T>)
    decreases |b|
  {
    if |a| == 0 then true
    else if |b| == 0 then false
    else if a[0] == b[0] then Subseq(a[1..], b[1..])
    else Subseq(a, b[1..])
  }

  /** `xs.filter(p)`: every kept element satisfies `p`, each element that
      satisfies `p` is kept as often as it occurs, nothing else is kept, and
      the order is the original one. */
  function Keep<T(==,!new)>(xs: seq<T>, p: T -> bool): (r: seq<T>)
    ensures forall k :: 0 <= k < |r| ==> p(r[k])
    ensures forall x :: multiset(r)[x] == if p(x) then multiset(xs)[x] else 0
    ensures Subseq(r, xs)
    ensures |r| <= |xs|
  {
    if |xs| == 0 then []
    else
      var rest := Keep(xs[1..], p);
      assert xs == [xs[0]] + xs[1..];
      if p(xs[0]) then
        assert ([xs[0]] + rest)[1..] == rest;
        [xs[0]] + rest
      else
        SubseqDropHead(rest, xs);
        rest
  }

  /** Deleting one more element from the front of `b` keeps a sub-sequence
      a sub-sequence. */
  lemma {:induction false} SubseqDropHead<T>(a: seq<T>, b: seq<T>)
    requires |b| > 0 && Subseq(a, b[1..])
    ensures Subseq(a, b)
    decreases |b|, 0
  {
    if |a| > 0 && a[0] == b[0] {
      SubseqTail(a, b[1..]);
    }
  }

  /** Dropping the first element of a sub-sequence keeps it one. */
  lemma {:induction false} SubseqTail<T>(a: seq<T>, c: seq<T>)
    requires |a| > 0 && Subseq(a, c)
    ensures Subseq(a[1..], c)
    decreases |c|, 1
  {
    if a[0] == c[0] {
      SubseqDropHead(a[1..], c);
    } else {
      SubseqTail(a, c[1..]);
      SubseqDropHead(a[1..], c);
    }
  }

  /** When every element passes, the filter keeps the whole sequence. */
  lemma {:induction false} KeepAll<T(!new)>(xs: seq<T>, p: T -> bool)
    requires forall k :: 0 <= k < |xs| ==> p(xs[k])
    ensures Keep(xs, p) == xs
  {
    if |xs| > 0 {
      KeepAll(xs[1..], p);
      assert xs == [xs[0]] + xs[1..];
    }
  }

  /** Filtering twice by the same test is filtering once. */
  lemma KeepIdempotent<T(!new)>(xs: seq<T>, p: T -> bool)
    ensures Keep(Keep(xs, p), p) == Keep(xs, p)
  {
    KeepAll(Keep(xs, p), p);
  }

  /** Filtering a sequence with one more element in front. */
  lemma KeepCons<T(!new)>(x: T, xs: seq<T>, p: T -> bool)
    ensures Keep([x] + xs, p) == if p(x) then [x] + Keep(xs, p) else Keep(xs, p)
  {
    assert ([x] + xs)[1..] == xs;
  }
}
