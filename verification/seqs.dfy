/** Order-preserving selection from sequences (`Array.prototype.filter`). */
module Seqs {

  /** `a` can be obtained from `b` by deleting elements, keeping order. */
  ghost predicate IsSubsequence<T>(a: seq<T>, b: seq<T>)
    decreases |b|
  {
    || |a| == 0
    || (|b| > 0 && ((a[0] == b[0] && IsSubsequence(a[1..], b[1..])) || IsSubsequence(a, b[1..])))
  }

  /** `s.filter(p)`; what it keeps is stated by `FilterSpec`. */
  function Filter<T>(s: seq<T>, p: T -> bool): (r: seq<T>)
    ensures |r| <= |s|
  {
    if |s| == 0 then []
    else if p(s[0]) then [s[0]] + Filter(s[1..], p)
    else Filter(s[1..], p)
  }

  /** The filter keeps the elements of `s` that satisfy `p`, in their
      original order and with their original multiplicities, and nothing
      else. */
  lemma {:induction false} FilterSpec<T>(s: seq<T>, p: T -> bool)
    ensures forall x :: x in Filter(s, p) <==> x in s && p(x)
    ensures forall x :: multiset(Filter(s, p))[x] == if p(x) then multiset(s)[x] else 0
    ensures IsSubsequence(Filter(s, p), s)
  {
    if |s| > 0 {
      FilterSpec(s[1..], p);
      assert s == [s[0]] + s[1..];
      var rest := Filter(s[1..], p);
      if p(s[0]) {
        assert Filter(s, p)[1..] == rest;
      }
    }
  }

  /** Filtering by a predicate and by its negation splits `s` in two: every
      element lands in exactly one part and the sizes add up. */
  lemma FilterPartition<T(!new)>(s: seq<T>, p: T -> bool, q: T -> bool)
    requires forall x :: q(x) == !p(x)
    ensures |Filter(s, p)| + |Filter(s, q)| == |s|
    ensures multiset(Filter(s, p)) + multiset(Filter(s, q)) == multiset(s)
  {
    FilterSpec(s, p);
    FilterSpec(s, q);
    var a, b := Filter(s, p), Filter(s, q);
    forall x ensures (multiset(a) + multiset(b))[x] == multiset(s)[x] {
      assert multiset(a)[x] == if p(x) then multiset(s)[x] else 0;
      assert multiset(b)[x] == if p(x) then 0 else multiset(s)[x];
    }
    assert multiset(a) + multiset(b) == multiset(s);
    assert |multiset(a) + multiset(b)| == |multiset(s)|;
  }
}
