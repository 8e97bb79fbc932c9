/**
 Order-preserving filtering of sequences, the shape of JavaScript's
 `Array.prototype.filter` that every list view of the library uses.
 */
module Seqs {

  /** The elements of `s` that satisfy `p`, in their original order. */
  function Filter<T(==,!new)>(s: seq<T>, p: T -> bool): (r: seq<T>)
    ensures |r| <= |s|
    ensures forall i :: 0 <= i < |r| ==> p(r[i]) && r[i] in s
    ensures forall i :: 0 <= i < |s| && p(s[i]) ==> s[i] in r
    ensures forall x {:trigger multiset(r)[x]} :: multiset(r)[x] == if p(x) then multiset(s)[x] else 0
    decreases |s|
  {
    if |s| == 0 then []
    else
      var rest := Filter(s[1..], p);
      assert [s[0]] + s[1..] == s;
      FilterMembersStep(s[0], s[1..], rest, p);
      FilterCountsStep(s[0], s[1..], rest, p);
      if p(s[0]) then [s[0]] + rest else rest
  }

  /**
   The step of `Filter`'s length and membership clauses: keeping or dropping
   `head` by `p` extends them from `tail` and `rest` to `[head] + tail`.
   */
  lemma FilterMembersStep<T>(head: T, tail: seq<T>, rest: seq<T>, p: T -> bool)
    requires |rest| <= |tail|
    requires forall i :: 0 <= i < |rest| ==> p(rest[i]) && rest[i] in tail
    requires forall i :: 0 <= i < |tail| && p(tail[i]) ==> tail[i] in rest
    ensures var s, r := [head] + tail, if p(head) then [head] + rest else rest;
            && |r| <= |s|
            && (forall i :: 0 <= i < |r| ==> p(r[i]) && r[i] in s)
            && (forall i :: 0 <= i < |s| && p(s[i]) ==> s[i] in r)
  {
    var s, r := [head] + tail, if p(head) then [head] + rest else rest;
    forall i | 0 <= i < |s| && p(s[i])
      ensures s[i] in r
    {
      if i > 0 {
        assert s[i] == tail[i - 1];
      }
    }
  }

  /**
   The step of `Filter`'s multiplicity clause: if `rest` keeps every element of
   `tail` satisfying `p` as often as it occurs and nothing else, keeping or
   dropping `head` by `p` does the same for `[head] + tail`.
   */
  lemma FilterCountsStep<T(!new)>(head: T, tail: seq<T>, rest: seq<T>, p: T -> bool)
    requires forall x {:trigger multiset(rest)[x]} :: multiset(rest)[x] == if p(x) then multiset(tail)[x] else 0
    ensures var r := if p(head) then [head] + rest else rest;
            forall x {:trigger multiset(r)[x]} :: multiset(r)[x] == if p(x) then multiset([head] + tail)[x] else 0
  {
    assert multiset([head] + tail) == multiset{head} + multiset(tail);
    assert multiset([head] + rest) == multiset{head} + multiset(rest);
  }

  /** `a` can be obtained from `s` by deleting elements, keeping the order of the rest. */
  predicate IsSubseq<T(==)>(a: seq<T>, s: seq<T>)
    decreases |s|
  {
    if |a| == 0 then true
    else if |s| == 0 then false
    else (a[0] == s[0] && IsSubseq(a[1..], s[1..])) || IsSubseq(a, s[1..])
  }

  /** Every sequence is a subsequence of itself. */
  lemma {:induction false} SubseqOfItself<T>(s: seq<T>)
    ensures IsSubseq(s, s)
    decreases |s|
  {
    if |s| > 0 {
      SubseqOfItself(s[1..]);
    }
  }

  /** A filter keeps the relative order of what it keeps. */
  lemma {:induction false} FilterIsSubseq<T(!new)>(s: seq<T>, p: T -> bool)
    ensures IsSubseq(Filter(s, p), s)
    decreases |s|
  {
    if |s| > 0 {
      FilterIsSubseq(s[1..], p);
      var tail := Filter(s[1..], p);
      if p(s[0]) {
        assert Filter(s, p) == [s[0]] + tail;
        assert ([s[0]] + tail)[1..] == tail;
      } else if |tail| > 0 {
        assert IsSubseq(tail, s[1..]);
      }
    }
  }

  /** A filter whose predicate holds everywhere returns its input. */
  lemma {:induction false} FilterKeepsAll<T(!new)>(s: seq<T>, p: T -> bool)
    requires forall i :: 0 <= i < |s| ==> p(s[i])
    ensures Filter(s, p) == s
    decreases |s|
  {
    if |s| > 0 {
      assert p(s[0]);
      FilterKeepsAll(s[1..], p);
      assert [s[0]] + s[1..] == s;
    }
  }

  /** A filter is empty exactly when no element satisfies its predicate. */
  lemma {:induction false} FilterEmptyIff<T(!new)>(s: seq<T>, p: T -> bool)
    ensures |Filter(s, p)| == 0 <==> forall i :: 0 <= i < |s| ==> !p(s[i])
    decreases |s|
  {
    if |s| > 0 {
      FilterEmptyIff(s[1..], p);
      if !p(s[0]) && !(forall i :: 0 <= i < |s| ==> !p(s[i])) {
        var k :| 0 <= k < |s| && p(s[k]);
        assert s[1..][k - 1] == s[k];
      }
    }
  }

  /** Filtering a concatenation filters each part. */
  lemma {:induction false} FilterConcat<T(!new)>(a: seq<T>, b: seq<T>, p: T -> bool)
    ensures Filter(a + b, p) == Filter(a, p) + Filter(b, p)
    decreases |a|
  {
    if |a| > 0 {
      assert (a + b)[1..] == a[1..] + b;
      FilterConcat(a[1..], b, p);
    } else {
      assert a + b == b;
    }
  }

  /** Filters with predicates that agree on the input give the same result. */
  lemma {:induction false} FilterSamePredicate<T(!new)>(s: seq<T>, p: T -> bool, q: T -> bool)
    requires forall i :: 0 <= i < |s| ==> p(s[i]) == q(s[i])
    ensures Filter(s, p) == Filter(s, q)
    decreases |s|
  {
    if |s| > 0 {
      assert p(s[0]) == q(s[0]);
      FilterSamePredicate(s[1..], p, q);
    }
  }
}
