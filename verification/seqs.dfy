/** Order-preserving selection from a sequence, and what characterises it. */
module Seqs {

  /** The elements of `s` satisfying `p`, in their original order. */
  function Filter<T>(s: seq<T>, p: T -> bool): (r: seq<T>)
    ensures |r| <= |s|
    ensures forall i :: 0 <= i < |r| ==> p(r[i])
    ensures forall x :: x in r ==> x in s
  {
    if |s| == 0 then []
    else if p(s[0]) then [s[0]] + Filter(s[1..], p)
    else Filter(s[1..], p)
  }

  /** How many elements of `s` satisfy `p`. */
  function Count<T>(s: seq<T>, p: T -> bool): (n: nat)
    ensures n <= |s|
  {
    if |s| == 0 then 0 else (if p(s[0]) then 1 else 0) + Count(s[1..], p)
  }

  /** `a` is obtained from `b` by deleting elements, keeping the order of the rest. */
  ghost predicate IsSubseq<T>(a: seq<T>, b: seq<T>)
    decreases |b|
  {
    || |a| == 0
    || (|b| > 0 && ((a[0] == b[0] && IsSubseq(a[1..], b[1..])) || IsSubseq(a, b[1..])))
  }

  /** `out` is the order-preserving selection of exactly the elements of `s` that satisfy `p`. */
  ghost predicate SelectsExactly<T>(out: seq<T>, s: seq<T>, p: T -> bool) {
    && IsSubseq(out, s)
    && (forall i :: 0 <= i < |out| ==> p(out[i]))
    && |out| == Count(s, p)
  }

  lemma {:induction false} FilterIsSubseq<T>(s: seq<T>, p: T -> bool)
    ensures IsSubseq(Filter(s, p), s)
    decreases |s|
  {
    if |s| > 0 {
      FilterIsSubseq(s[1..], p);
      if p(s[0]) {
        assert Filter(s, p)[1..] == Filter(s[1..], p);
      }
    }
  }

  lemma {:induction false} FilterCount<T>(s: seq<T>, p: T -> bool)
    ensures |Filter(s, p)| == Count(s, p)
    decreases |s|
  {
    if |s| > 0 {
      FilterCount(s[1..], p);
    }
  }

  /** The filter selects exactly the elements satisfying `p`. */
  lemma FilterSelectsExactly<T>(s: seq<T>, p: T -> bool)
    ensures SelectsExactly(Filter(s, p), s, p)
  {
    FilterIsSubseq(s, p);
    FilterCount(s, p);
  }

  /** An element of `s` survives the filter exactly when it satisfies `p`. */
  lemma {:induction false} FilterMembership<T>(s: seq<T>, p: T -> bool, x: T)
    requires x in s
    ensures x in Filter(s, p) <==> p(x)
    decreases |s|
  {
    if s[0] != x {
      FilterMembership(s[1..], p, x);
    }
  }

  /** A subsequence made of elements satisfying `p` has at most `Count(s, p)` of them. */
  lemma {:induction false} SubseqCountBound<T>(a: seq<T>, s: seq<T>, p: T -> bool)
    requires IsSubseq(a, s)
    requires forall i :: 0 <= i < |a| ==> p(a[i])
    ensures |a| <= Count(s, p)
    decreases |s|
  {
    if |a| > 0 {
      if a[0] == s[0] && IsSubseq(a[1..], s[1..]) {
        SubseqCountBound(a[1..], s[1..], p);
      } else {
        SubseqCountBound(a, s[1..], p);
      }
    }
  }

  /** There is only one sequence selecting exactly the elements satisfying `p`:
      the filter. */
  lemma {:induction false} SelectionIsFilter<T>(a: seq<T>, s: seq<T>, p: T -> bool)
    requires SelectsExactly(a, s, p)
    ensures a == Filter(s, p)
    decreases |s|
  {
    if |s| == 0 {
    } else if |a| == 0 {
      FilterCount(s, p);
    } else if p(s[0]) {
      if a[0] == s[0] && IsSubseq(a[1..], s[1..]) {
        SelectionIsFilter(a[1..], s[1..], p);
        assert a == [a[0]] + a[1..];
      } else {
        SubseqCountBound(a, s[1..], p);
        assert false;
      }
    } else {
      assert a[0] != s[0];
      SelectionIsFilter(a, s[1..], p);
    }
  }

  /** Filtering a second time with the same predicate changes nothing. */
  lemma {:induction false} FilterIdempotent<T>(s: seq<T>, p: T -> bool)
    ensures Filter(Filter(s, p), p) == Filter(s, p)
    decreases |s|
  {
    if |s| > 0 {
      FilterIdempotent(s[1..], p);
      if p(s[0]) {
        assert Filter(s, p)[1..] == Filter(s[1..], p);
      }
    }
  }

  /** Predicates that agree on every element of `s` select the same elements. */
  lemma {:induction false} FilterCongruent<T>(s: seq<T>, p: T -> bool, q: T -> bool)
    requires forall i :: 0 <= i < |s| ==> p(s[i]) == q(s[i])
    ensures Filter(s, p) == Filter(s, q)
    ensures Count(s, p) == Count(s, q)
    decreases |s|
  {
    if |s| > 0 {
      FilterCongruent(s[1..], p, q);
    }
  }
}
