/**
 * The sign of Java's String.compareTo: lexicographic order on character
 * sequences, a proper prefix sorting before the longer sequence.
 */
module Lex {

  /** -1, 0 or 1 as `a` sorts before, equal to, or after `b`. */
  function Compare(a: seq<char>, b: seq<char>): (r: int)
    ensures -1 <= r <= 1
  {
    if a == [] && b == [] then 0
    else if a == [] then -1
    else if b == [] then 1
    else if a[0] < b[0] then -1
    else if a[0] > b[0] then 1
    else Compare(a[1..], b[1..])
  }

  predicate Le(a: seq<char>, b: seq<char>) {
    Compare(a, b) <= 0
  }

  predicate Lt(a: seq<char>, b: seq<char>) {
    Compare(a, b) < 0
  }

  predicate IsPrefix(p: seq<char>, s: seq<char>) {
    |p| <= |s| && s[..|p|] == p
  }

  lemma {:induction false} CompareZeroIffEqual(a: seq<char>, b: seq<char>)
    ensures Compare(a, b) == 0 <==> a == b
  {
    if a != [] && b != [] && a[0] == b[0] {
      CompareZeroIffEqual(a[1..], b[1..]);
      assert a == [a[0]] + a[1..] && b == [b[0]] + b[1..];
    }
  }

  lemma {:induction false} CompareAntisymmetric(a: seq<char>, b: seq<char>)
    ensures Compare(a, b) == -Compare(b, a)
  {
    if a != [] && b != [] && a[0] == b[0] {
      CompareAntisymmetric(a[1..], b[1..]);
    }
  }

  lemma {:induction false} CompareTransitive(a: seq<char>, b: seq<char>, c: seq<char>)
    requires Le(a, b) && Le(b, c)
    ensures Le(a, c)
  {
    if a != [] && b != [] && c != [] && a[0] == b[0] == c[0] {
      CompareTransitive(a[1..], b[1..], c[1..]);
    }
  }

  lemma LeLtTransitive(a: seq<char>, b: seq<char>, c: seq<char>)
    requires Le(a, b) && Lt(b, c)
    ensures Lt(a, c)
  {
    CompareTransitive(a, b, c);
    CompareZeroIffEqual(a, c);
    if a == c {
      CompareAntisymmetric(b, c);
    }
  }

  lemma LtLeTransitive(a: seq<char>, b: seq<char>, c: seq<char>)
    requires Lt(a, b) && Le(b, c)
    ensures Lt(a, c)
  {
    CompareTransitive(a, b, c);
    CompareZeroIffEqual(a, c);
    if a == c {
      CompareAntisymmetric(a, b);
    }
  }

  lemma CompareTotal(a: seq<char>, b: seq<char>)
    ensures Le(a, b) || Le(b, a)
  {
    CompareAntisymmetric(a, b);
  }

  /** After a common prefix of `k` characters the comparison is decided by what follows. */
  lemma {:induction false} CompareAfterCommonPrefix(a: seq<char>, b: seq<char>, k: nat)
    requires k <= |a| && k <= |b| && a[..k] == b[..k]
    ensures Compare(a, b) == Compare(a[k..], b[k..])
  {
    if k > 0 {
      assert a[0] == a[..k][0] == b[..k][0] == b[0];
      assert a[1..][..k - 1] == a[..k][1..] == b[..k][1..] == b[1..][..k - 1];
      CompareAfterCommonPrefix(a[1..], b[1..], k - 1);
      assert a[1..][k - 1..] == a[k..] && b[1..][k - 1..] == b[k..];
    }
  }

  /** A proper prefix sorts first. */
  lemma {:induction false} PrefixSortsFirst(p: seq<char>, s: seq<char>)
    requires IsPrefix(p, s)
    ensures Le(p, s)
    ensures |p| < |s| ==> Lt(p, s)
  {
    if p != [] {
      assert p[0] == s[0];
      assert IsPrefix(p[1..], s[1..]) by {
        assert s[1..][..|p| - 1] == s[..|p|][1..];
      }
      PrefixSortsFirst(p[1..], s[1..]);
    }
  }

  /**
   * Anything that sorts between `p` and a sequence `w` having `p` as a
   * prefix has `p` as a prefix too.
   */
  lemma {:induction false} BetweenKeepsPrefix(p: seq<char>, x: seq<char>, w: seq<char>)
    requires IsPrefix(p, w) && Le(p, x) && Le(x, w)
    ensures IsPrefix(p, x)
  {
    if p != [] {
      assert w != [] && w[0] == p[0];
      assert x != [];
      assert x[0] == p[0];
      assert IsPrefix(p[1..], w[1..]) by {
        assert w[1..][..|p| - 1] == w[..|p|][1..];
      }
      BetweenKeepsPrefix(p[1..], x[1..], w[1..]);
      assert x[..|p|] == [x[0]] + x[1..][..|p| - 1];
      assert p == [p[0]] + p[1..];
    }
  }
}

/**
 * Insertion sort standing in for java.util.Arrays.sort: the result is sorted
 * and a permutation of the input.
 */
module Sorting {

  ghost predicate IsTotalPreorder<T(!new)>(le: (T, T) -> bool) {
    && (forall a, b :: le(a, b) || le(b, a))
    && (forall a, b, c :: le(a, b) && le(b, c) ==> le(a, c))
  }

  predicate Sorted<T>(s: seq<T>, le: (T, T) -> bool) {
    forall i, j :: 0 <= i < j < |s| ==> le(s[i], s[j])
  }

  function {:induction false} InsertSorted<T(!new)>(x: T, s: seq<T>, le: (T, T) -> bool): (r: seq<T>)
    requires IsTotalPreorder(le) && Sorted(s, le)
    ensures Sorted(r, le)
    ensures multiset(r) == multiset(s) + multiset{x}
  {
    if s == [] then [x]
    else if le(x, s[0]) then [x] + s
    else
      var rest := InsertSorted(x, s[1..], le);
      assert s == [s[0]] + s[1..];
      assert forall y :: y in rest ==> le(s[0], y) by {
        forall y | y in rest ensures le(s[0], y) {
          assert y in multiset(rest);
          if y != x {
            assert y in s[1..];
          }
        }
      }
      [s[0]] + rest
  }

  function {:induction false} Sort<T(!new)>(s: seq<T>, le: (T, T) -> bool): (r: seq<T>)
    requires IsTotalPreorder(le)
    ensures Sorted(r, le)
    ensures multiset(r) == multiset(s)
  {
    if s == [] then []
    else
      assert s == [s[0]] + s[1..];
      InsertSorted(s[0], Sort(s[1..], le), le)
  }
}
