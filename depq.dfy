/**
 * The contract both double-ended priority queues implement: a multiset of
 * integers from which the least and the greatest element can be found and
 * deleted. The comparator of the Java classes is the order on int here, and an
 * UnderflowException is the None outcome of a deletion.
 */
module DoubleEndedPriorityQueue {

  /** x is a least element of m. */
  predicate IsMin(m: multiset<int>, x: int) {
    x in m && forall y :: y in m ==> x <= y
  }

  /** x is a greatest element of m. */
  predicate IsMax(m: multiset<int>, x: int) {
    x in m && forall y :: y in m ==> y <= x
  }

  /** Nondecreasing from front to back. */
  predicate Sorted(s: seq<int>) {
    forall i, j :: 0 <= i < j < |s| ==> s[i] <= s[j]
  }

  /** The front of a nondecreasing sequence is a least element of its multiset. */
  lemma SortedFirstIsMin(s: seq<int>)
    requires Sorted(s) && s != []
    ensures IsMin(multiset(s), s[0])
  {
    forall y | y in multiset(s)
      ensures s[0] <= y
    {
      var i :| 0 <= i < |s| && s[i] == y;
    }
  }

  /** The back of a nondecreasing sequence is a greatest element of its multiset. */
  lemma SortedLastIsMax(s: seq<int>)
    requires Sorted(s) && s != []
    ensures IsMax(multiset(s), s[|s| - 1])
  {
    forall y | y in multiset(s)
      ensures y <= s[|s| - 1]
    {
      var i :| 0 <= i < |s| && s[i] == y;
    }
  }

  /** Removing one copy from the front keeps a sequence nondecreasing, as does removing one from the back. */
  lemma SortedTails(s: seq<int>)
    requires Sorted(s) && s != []
    ensures Sorted(s[1..]) && Sorted(s[..|s| - 1])
    ensures multiset(s[1..]) == multiset(s) - multiset{s[0]}
    ensures multiset(s[..|s| - 1]) == multiset(s) - multiset{s[|s| - 1]}
  {
    assert s == [s[0]] + s[1..];
    assert s == s[..|s| - 1] + [s[|s| - 1]];
  }

  /** A nondecreasing sequence is determined by its multiset. */
  lemma {:induction false} SortedUnique(a: seq<int>, b: seq<int>)
    requires Sorted(a) && Sorted(b) && multiset(a) == multiset(b)
    ensures a == b
  {
    if a != [] {
      assert b != [] by { assert a[0] in multiset(b); }
      SortedFirstIsMin(a);
      SortedFirstIsMin(b);
      assert a[0] == b[0] by {
        assert b[0] in multiset(a) && a[0] in multiset(b);
      }
      SortedTails(a);
      SortedTails(b);
      SortedUnique(a[1..], b[1..]);
      SameHeadSameRest(a, b);
    } else {
      assert |b| == |multiset(b)|;
    }
  }

  /** Sequences that agree at the front and after it are equal. */
  lemma SameHeadSameRest(a: seq<int>, b: seq<int>)
    requires a != [] && b != [] && a[0] == b[0] && a[1..] == b[1..]
    ensures a == b
  {
    assert a == [a[0]] + a[1..];
    assert b == [b[0]] + b[1..];
  }
}
