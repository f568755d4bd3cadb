/** `Array.prototype.filter` and the order-preserving subsequence relation it produces. */
module Sequences {

  /** `a` is `b` with some elements left out, the rest in their original order. */
  predicate IsSubsequence<T(==)>(a: seq<T>, b: seq<T>)
    decreases |b|
  {
    if a == [] then true
    else if b == [] then false
    else (a[0] == b[0] && IsSubsequence(a[1..], b[1..])) || IsSubsequence(a, b[1..])
  }

  lemma {:induction false} SubsequenceLength<T>(a: seq<T>, b: seq<T>)
    requires IsSubsequence(a, b)
    ensures |a| <= |b|
    decreases |b|
  {
    if a != [] {
      if a[0] == b[0] && IsSubsequence(a[1..], b[1..]) {
        SubsequenceLength(a[1..], b[1..]);
      } else {
        SubsequenceLength(a, b[1..]);
      }
    }
  }

  /** Every element of a subsequence comes from the larger sequence. */
  lemma {:induction false} SubsequenceElement<T>(a: seq<T>, b: seq<T>, i: int)
    requires IsSubsequence(a, b) && 0 <= i < |a|
    ensures exists k :: 0 <= k < |b| && b[k] == a[i]
    decreases |b|
  {
    if a[0] == b[0] && IsSubsequence(a[1..], b[1..]) {
      if i > 0 {
        SubsequenceElement(a[1..], b[1..], i - 1);
        var k :| 0 <= k < |b| - 1 && b[1..][k] == a[1..][i - 1];
        assert b[k + 1] == a[i];
      } else {
        assert b[0] == a[i];
      }
    } else {
      SubsequenceElement(a, b[1..], i);
      var k :| 0 <= k < |b| - 1 && b[1..][k] == a[i];
      assert b[k + 1] == a[i];
    }
  }

  /** Two elements of a subsequence come, in the same order, from two distinct
      positions of the larger sequence. */
  lemma {:induction false} SubsequencePair<T>(a: seq<T>, b: seq<T>, i: int, j: int)
    requires IsSubsequence(a, b) && 0 <= i < j < |a|
    ensures exists k, l :: 0 <= k < l < |b| && b[k] == a[i] && b[l] == a[j]
    decreases |b|
  {
    if a[0] == b[0] && IsSubsequence(a[1..], b[1..]) {
      if i == 0 {
        SubsequenceElement(a[1..], b[1..], j - 1);
        var l :| 0 <= l < |b| - 1 && b[1..][l] == a[1..][j - 1];
        assert b[0] == a[i] && b[l + 1] == a[j];
      } else {
        SubsequencePair(a[1..], b[1..], i - 1, j - 1);
        var k, l :| 0 <= k < l < |b| - 1 && b[1..][k] == a[1..][i - 1] && b[1..][l] == a[1..][j - 1];
        assert b[k + 1] == a[i] && b[l + 1] == a[j];
      }
    } else {
      SubsequencePair(a, b[1..], i, j);
      var k, l :| 0 <= k < l < |b| - 1 && b[1..][k] == a[i] && b[1..][l] == a[j];
      assert b[k + 1] == a[i] && b[l + 1] == a[j];
    }
  }

  /** `s.filter(p)`: the elements satisfying `p`, in order. */
  function Filter<T(!new)>(s: seq<T>, p: T -> bool): (r: seq<T>)
    ensures IsSubsequence(r, s)
    ensures forall i :: 0 <= i < |r| ==> p(r[i])
    ensures forall i :: 0 <= i < |s| && p(s[i]) ==> s[i] in r
  {
    if s == [] then []
    else
      var rest := Filter(s[1..], p);
      assert forall i :: 1 <= i < |s| ==> s[i] == s[1..][i - 1];
      if p(s[0]) then [s[0]] + rest else rest
  }

  /** The filter keeps every copy of each element that satisfies `p`, and nothing else. */
  lemma {:induction false} FilterCount<T(!new)>(s: seq<T>, p: T -> bool, x: T)
    ensures multiset(Filter(s, p))[x] == if p(x) then multiset(s)[x] else 0
  {
    if s != [] {
      assert s == [s[0]] + s[1..];
      FilterCount(s[1..], p, x);
    }
  }

  lemma {:induction false} FilterConcat<T(!new)>(a: seq<T>, b: seq<T>, p: T -> bool)
    ensures Filter(a + b, p) == Filter(a, p) + Filter(b, p)
  {
    if a == [] {
      assert a + b == b;
    } else {
      assert (a + b)[1..] == a[1..] + b;
      FilterConcat(a[1..], b, p);
    }
  }

  /** Filtering by `p` and then by `q` is filtering once by their conjunction. */
  lemma {:induction false} FilterFuse<T(!new)>(s: seq<T>, p: T -> bool, q: T -> bool, pq: T -> bool)
    requires forall x :: pq(x) == (p(x) && q(x))
    ensures Filter(Filter(s, p), q) == Filter(s, pq)
  {
    if s != [] {
      FilterFuse(s[1..], p, q, pq);
    }
  }

  /** Filters by two predicates that agree everywhere agree. */
  lemma {:induction false} FilterEquivalent<T(!new)>(s: seq<T>, p: T -> bool, p': T -> bool)
    requires forall x :: p(x) == p'(x)
    ensures Filter(s, p) == Filter(s, p')
  {
    if s != [] {
      FilterEquivalent(s[1..], p, p');
    }
  }

  /** A filter that every element passes changes nothing. */
  lemma {:induction false} FilterKeepsAll<T(!new)>(s: seq<T>, p: T -> bool)
    requires forall i :: 0 <= i < |s| ==> p(s[i])
    ensures Filter(s, p) == s
  {
    if s != [] {
      FilterKeepsAll(s[1..], p);
    }
  }
}
