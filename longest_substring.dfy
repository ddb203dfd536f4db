/**
 * The longest phrase shared by two texts (LongestSubstring/asg1.java): the
 * two files are joined around an '@', every suffix of the joined text is
 * sorted, and the longest common prefix of neighbouring suffixes that start
 * on opposite sides of the '@' is taken.
 */
module LongestSubstring {
  import Lex
  import Sorting

  /**
   * A suffix view of `original`: the text from `beginIndex` on. `length` is
   * always the length of the whole of `original`.
   */
  datatype TheString = TheString(original: string, beginIndex: int, length: int)
  {
    /** A view the program builds: `length` is that of `original`, and the start is one of its characters. */
    predicate Valid() {
      length == |original| && 0 <= beginIndex < length
    }

    /** The suffix the view stands for. */
    function Text(): string {
      if 0 <= beginIndex <= |original| then original[beginIndex..] else []
    }

    /** The view of the same text starting at `startIndex`. */
    function Substring(startIndex: int): (t: TheString)
      ensures t.original == original && t.beginIndex == startIndex && t.length == |original|
      ensures 0 <= startIndex < |original| ==> t.Valid() && t.Text() == original[startIndex..]
    {
      TheString(original, startIndex, |original|)
    }

    /** compareTo: the sign of the lexicographic comparison of the two suffixes. */
    method CompareTo(that: TheString) returns (r: int)
      requires Valid() && that.Valid()
      ensures r == Lex.Compare(Text(), that.Text())
    {
      var a, b := Text(), that.Text();
      var thisStart := beginIndex;
      var thatStart := that.beginIndex;
      if original[thisStart] < that.original[thatStart] {
        return -1;
      } else if original[thisStart] > that.original[thatStart] {
        return 1;
      }
      while thisStart < length - 1 && thatStart < that.length - 1
            && original[thisStart] == that.original[thatStart]
        invariant beginIndex <= thisStart < length && that.beginIndex <= thatStart < that.length
        invariant thisStart - beginIndex == thatStart - that.beginIndex
        invariant a[..thisStart - beginIndex] == b[..thatStart - that.beginIndex]
      {
        assert a[..thisStart - beginIndex + 1] == a[..thisStart - beginIndex] + [original[thisStart]];
        assert b[..thatStart - that.beginIndex + 1] == b[..thatStart - that.beginIndex] + [that.original[thatStart]];
        thisStart, thatStart := thisStart + 1, thatStart + 1;
      }
      var k := thisStart - beginIndex;
      Lex.CompareAfterCommonPrefix(a, b, k);
      assert a[k..] == [original[thisStart]] + a[k + 1..];
      assert b[k..] == [that.original[thatStart]] + b[k + 1..];
      if original[thisStart] < that.original[thatStart] {
        r := -1;
      } else if original[thisStart] > that.original[thatStart] {
        return 1;
      } else if thisStart == length - 1 && thatStart == that.length - 1 {
        assert a[k + 1..] == [] && b[k + 1..] == [];
        return 0;
      } else if thisStart == length - 1 && thatStart != that.length - 1 {
        assert a[k + 1..] == [] && b[k + 1..] != [];
        return -1;
      } else {
        assert a[k + 1..] != [] && b[k + 1..] == [];
        return 1;
      }
      return r;
    }

    /** The characters longestPrefix may count: the suffix without the last character of the text. */
    function Countable(): string {
      if 0 <= beginIndex < |original| then original[beginIndex..|original| - 1] else []
    }
  }

  /** The view of the whole of `s`, as TheString's constructor builds it. */
  function Whole(s: string): (t: TheString)
    ensures t.Text() == s && (s != [] ==> t.Valid())
  {
    TheString(s, 0, |s|)
  }

  /** Whether two start indices lie on opposite sides of the separator at `fileSize`. */
  predicate Crosses(b0: int, b1: int, fileSize: int) {
    (b0 < fileSize && b1 > fileSize) || (b0 > fileSize && b1 < fileSize)
  }

  /** `c` is the length of the longest common prefix of `u` and `v`. */
  predicate IsLongestCommonPrefix(u: string, v: string, c: int) {
    0 <= c <= |u| && c <= |v| && u[..c] == v[..c] && (c == |u| || c == |v| || u[c] != v[c])
  }

  /** The count longestPrefix returns for two views and a separator index. */
  predicate IsLcp(s0: TheString, s1: TheString, fileSize: int, c: int) {
    if Crosses(s0.beginIndex, s1.beginIndex, fileSize)
    then IsLongestCommonPrefix(s0.Countable(), s1.Countable(), c)
    else c == 0
  }

  /** At most one count is the longest common prefix, so IsLcp, and with it LongestPrefix's ensures, fixes the count. */
  lemma LongestCommonPrefixUnique(u: string, v: string, c0: int, c1: int)
    requires IsLongestCommonPrefix(u, v, c0) && IsLongestCommonPrefix(u, v, c1)
    ensures c0 == c1
  {
  }

  /**
   * longestPrefix: the number of leading characters the two suffixes share,
   * never counting the last character of either text, and 0 unless the two
   * suffixes start on opposite sides of the separator.
   */
  method LongestPrefix(s0: TheString, s1: TheString, fileSize: int) returns (count: int)
    requires s0.Valid() && s1.Valid()
    ensures IsLcp(s0, s1, fileSize, count)
    ensures count <= s0.length - 1 - s0.beginIndex && count <= s1.length - 1 - s1.beginIndex
  {
    var u, v := s0.Countable(), s1.Countable();
    var s0Start := s0.beginIndex;
    var s1Start := s1.beginIndex;
    count := 0;
    while s0Start < s0.length - 1 && s1Start < s1.length - 1
          && s0.original[s0Start] == s1.original[s1Start]
          && Crosses(s0.beginIndex, s1.beginIndex, fileSize)
      invariant s0Start == s0.beginIndex + count && s1Start == s1.beginIndex + count
      invariant 0 <= count <= |u| && count <= |v|
      invariant u[..count] == v[..count]
      invariant !Crosses(s0.beginIndex, s1.beginIndex, fileSize) ==> count == 0
    {
      assert u[..count + 1] == u[..count] + [u[count]];
      assert v[..count + 1] == v[..count] + [v[count]];
      s0Start, s1Start, count := s0Start + 1, s1Start + 1, count + 1;
    }
  }

  /** Single spaces between the tokens. */
  function Join(tokens: seq<string>): string {
    if |tokens| == 0 then ""
    else if |tokens| == 1 then tokens[0]
    else Join(tokens[..|tokens| - 1]) + " " + tokens[|tokens| - 1]
  }

  /**
   * compileFiles: the tokens of the first file joined by spaces, an '@', then
   * the tokens of the second file joined by spaces; `fileOneSize` is the
   * index of the '@'. With no token in the second file the final trimming
   * takes the '@' off again.
   */
  method CompileFiles(fileOne: seq<string>, fileTwo: seq<string>) returns (str: string, fileOneSize: int)
    requires |fileOne| > 0
    ensures fileOneSize == |Join(fileOne)|
    ensures |fileTwo| > 0 ==> str == Join(fileOne) + "@" + Join(fileTwo) && str[fileOneSize] == '@'
    ensures |fileTwo| == 0 ==> str == Join(fileOne)
  {
    var sb := "";
    var i := 0;
    while i < |fileOne|
      invariant 0 <= i <= |fileOne|
      invariant sb == if i == 0 then "" else Join(fileOne[..i]) + " "
    {
      assert fileOne[..i + 1][..i] == fileOne[..i];
      sb := sb + fileOne[i] + " ";
      i := i + 1;
    }
    assert fileOne[..i] == fileOne;
    sb := sb[..|sb| - 1] + "@";
    var temp := sb;
    fileOneSize := |temp| - 1;
    var j := 0;
    while j < |fileTwo|
      invariant 0 <= j <= |fileTwo|
      invariant sb == temp + if j == 0 then "" else Join(fileTwo[..j]) + " "
    {
      assert fileTwo[..j + 1][..j] == fileTwo[..j];
      sb := sb + fileTwo[j] + " ";
      j := j + 1;
    }
    assert fileTwo[..j] == fileTwo;
    str := sb[..|sb| - 1];
  }

  /** The order Arrays.sort uses on suffix views: TheString.compareTo. */
  predicate SuffixLe(a: TheString, b: TheString) {
    Lex.Le(a.Text(), b.Text())
  }

  lemma SuffixLeIsTotalPreorder()
    ensures Sorting.IsTotalPreorder(SuffixLe)
  {
    forall a: TheString, b: TheString ensures SuffixLe(a, b) || SuffixLe(b, a) {
      Lex.CompareTotal(a.Text(), b.Text());
    }
    forall a: TheString, b: TheString, c: TheString | SuffixLe(a, b) && SuffixLe(b, c)
      ensures SuffixLe(a, c)
    {
      Lex.CompareTransitive(a.Text(), b.Text(), c.Text());
    }
  }

  /** Views of one text compare equal only when they start at the same index. */
  lemma CompareZeroIffSameStart(a: TheString, b: TheString)
    requires a.Valid() && b.Valid() && a.original == b.original
    ensures Lex.Compare(a.Text(), b.Text()) == 0 <==> a.beginIndex == b.beginIndex
    ensures Lex.Compare(a.Text(), b.Text()) == -Lex.Compare(b.Text(), a.Text())
  {
    Lex.CompareZeroIffEqual(a.Text(), b.Text());
    Lex.CompareAntisymmetric(a.Text(), b.Text());
    if a.beginIndex != b.beginIndex {
      assert |a.Text()| != |b.Text()|;
    }
  }

  /** Every suffix view of `str`, by start index. */
  function AllSuffixes(str: string): (r: seq<TheString>)
    ensures |r| == |str|
    ensures forall i :: 0 <= i < |r| ==> r[i].Valid() && r[i].original == str && r[i].beginIndex == i
  {
    seq(|str|, i requires 0 <= i < |str| => Whole(str).Substring(i))
  }

  /** The selection loop of main: the first index holding the largest value. */
  method MaxLcpIndex(lcp: seq<int>) returns (maxLCPIndex: int)
    requires |lcp| > 0
    ensures 0 <= maxLCPIndex < |lcp|
    ensures forall i :: 0 <= i < |lcp| ==> lcp[i] <= lcp[maxLCPIndex]
    ensures forall i :: 0 <= i < maxLCPIndex ==> lcp[i] < lcp[maxLCPIndex]
  {
    maxLCPIndex := 0;
    for i := 1 to |lcp|
      invariant 0 <= maxLCPIndex < i
      invariant forall j :: 0 <= j < i ==> lcp[j] <= lcp[maxLCPIndex]
      invariant forall j :: 0 <= j < maxLCPIndex ==> lcp[j] < lcp[maxLCPIndex]
    {
      if lcp[i] > lcp[maxLCPIndex] {
        maxLCPIndex := i;
      }
    }
  }

  /** The LCP loop of main: entry i compares suffix i with suffix i - 1; entry 0 stays 0. */
  method FillLcp(suffixes: seq<TheString>, fileOneSize: int) returns (lcp: seq<int>)
    requires |suffixes| > 0
    requires forall k :: 0 <= k < |suffixes| ==> suffixes[k].Valid()
    ensures |lcp| == |suffixes| && lcp[0] == 0
    ensures forall i :: 1 <= i < |lcp| ==> IsLcp(suffixes[i], suffixes[i - 1], fileOneSize, lcp[i])
  {
    var table := new int[|suffixes|](_ => 0);
    for i := 1 to |suffixes|
      invariant table[0] == 0
      invariant forall j :: 1 <= j < i ==> IsLcp(suffixes[j], suffixes[j - 1], fileOneSize, table[j])
    {
      table[i] := LongestPrefix(suffixes[i], suffixes[i - 1], fileOneSize);
    }
    lcp := table[..];
  }

  /**
   * The body of main after compileFiles: build every suffix view, sort them,
   * fill LCP from neighbouring pairs, and select the first largest LCP.
   */
  method FindLongestRepeat(str: string, fileOneSize: int)
    returns (suffixes: seq<TheString>, lcp: seq<int>, maxLCPIndex: int)
    requires |str| > 0
    ensures Sorting.Sorted(suffixes, SuffixLe)
    ensures multiset(suffixes) == multiset(AllSuffixes(str))
    ensures |lcp| == |str| == |suffixes| && lcp[0] == 0
    ensures forall i :: 1 <= i < |lcp| ==> IsLcp(suffixes[i], suffixes[i - 1], fileOneSize, lcp[i])
    ensures 0 <= maxLCPIndex < |lcp|
    ensures forall i :: 0 <= i < |lcp| ==> lcp[i] <= lcp[maxLCPIndex]
    ensures forall i :: 0 <= i < maxLCPIndex ==> lcp[i] < lcp[maxLCPIndex]
  {
    var compiledString := Whole(str);
    var views := new TheString[|str|](_ => compiledString);
    for i := 0 to views.Length
      invariant forall j :: 0 <= j < i ==> views[j] == AllSuffixes(str)[j]
    {
      views[i] := compiledString.Substring(i);
    }
    assert views[..] == AllSuffixes(str);
    SuffixLeIsTotalPreorder();
    suffixes := Sorting.Sort(views[..], SuffixLe);
    PermutedSuffixesValid(str, suffixes);
    lcp := FillLcp(suffixes, fileOneSize);
    maxLCPIndex := MaxLcpIndex(lcp);
  }

  lemma PermutedSuffixesValid(str: string, suffixes: seq<TheString>)
    requires multiset(suffixes) == multiset(AllSuffixes(str))
    ensures forall k :: 0 <= k < |suffixes| ==> suffixes[k].Valid()
  {
    forall k | 0 <= k < |suffixes| ensures suffixes[k].Valid() {
      assert suffixes[k] in multiset(AllSuffixes(str));
    }
  }

  /** No two suffix views of one text compare equal, so the sorted order is strict. */
  lemma SortedSuffixesStrictlyIncrease(str: string, suffixes: seq<TheString>, i: int, j: int)
    requires Sorting.Sorted(suffixes, SuffixLe)
    requires multiset(suffixes) == multiset(AllSuffixes(str))
    requires 0 <= i < j < |suffixes|
    ensures Lex.Lt(suffixes[i].Text(), suffixes[j].Text())
  {
    var all := AllSuffixes(str);
    var x, y := suffixes[i], suffixes[j];
    assert x in multiset(all) && y in multiset(all);
    assert x in all && y in all;
    assert x.Valid() && y.Valid() && x.original == str && y.original == str;
    if x == y {
      RepeatedElement(suffixes, i, j);
      var a :| 0 <= a < |all| && all[a] == x;
      MultiplicityOfDistinct(all, a);
      assert false;
    }
    assert x.beginIndex != y.beginIndex;
    CompareZeroIffSameStart(x, y);
    assert SuffixLe(x, y);
  }

  lemma RepeatedElement<T>(s: seq<T>, i: int, j: int)
    requires 0 <= i < j < |s| && s[i] == s[j]
    ensures multiset(s)[s[i]] >= 2
  {
    assert s == s[..j] + s[j..];
    assert s[i] in s[..j];
    assert s[j..][0] == s[j];
    assert multiset(s) == multiset(s[..j]) + multiset(s[j..]);
  }

  lemma MultiplicityOfDistinct(all: seq<TheString>, a: int)
    requires 0 <= a < |all|
    requires forall k :: 0 <= k < |all| ==> all[k].beginIndex == k
    ensures multiset(all)[all[a]] == 1
  {
    assert all == all[..a] + [all[a]] + all[a + 1..];
    assert all[a] !in all[..a];
    assert all[a] !in all[a + 1..];
  }
}
