// A Boggle solver: a rectangular board of letters, a sorted dictionary of
// words longer than two letters, and a backtracking depth-first search that
// records, for every dictionary word the board spells along a path of
// distinct neighbouring cells, one such path.

module BoggleSolver {
  import Lex
  import Sorting
  import opened Wrappers

  /** A (row, column) coordinate; two positions are equal when both agree. */
  datatype Position = Position(row: int, column: int)

  /** The 8-neighbourhood relation: a different cell at most one step away in each direction. */
  predicate Adjacent(p: Position, q: Position) {
    p != q && -1 <= p.row - q.row <= 1 && -1 <= p.column - q.column <= 1
  }

  predicate Distinct<T(==)>(s: seq<T>) {
    forall i, j :: 0 <= i < j < |s| ==> s[i] != s[j]
  }

  /** A board file is accepted when it has a line and all lines have one length. */
  predicate ValidPuzzle(puzzle: seq<string>) {
    |puzzle| > 0 && forall i :: 0 <= i < |puzzle| ==> |puzzle[i]| == |puzzle[0]|
  }

  /**
   * The shape check of the constructor: each line against the next, then the
   * empty puzzle; false is IncorrectPuzzleFormatException.
   */
  method CheckPuzzle(puzzle: seq<string>) returns (validPuzzle: bool)
    ensures validPuzzle <==> ValidPuzzle(puzzle)
  {
    var i := 0;
    while i < |puzzle| - 1
      invariant 0 <= i && (puzzle != [] ==> i < |puzzle|)
      invariant forall k :: 0 <= k <= i && k < |puzzle| ==> |puzzle[k]| == |puzzle[0]|
    {
      if |puzzle[i]| != |puzzle[i + 1]| {
        return false;
      }
      i := i + 1;
    }
    if |puzzle| == 0 {
      return false;
    }
    return true;
  }

  /** The dictionary words that are stored: those longer than two letters, in file order. */
  function LongWords(tokens: seq<string>): (r: seq<string>)
    ensures |r| <= |tokens|
  {
    if tokens == [] then []
    else if |tokens[|tokens| - 1]| > 2 then LongWords(tokens[..|tokens| - 1]) + [tokens[|tokens| - 1]]
    else LongWords(tokens[..|tokens| - 1])
  }

  /** Exactly the words longer than two letters survive the filter. */
  lemma {:induction false} LongWordsMembers(tokens: seq<string>)
    ensures forall w :: w in LongWords(tokens) <==> w in tokens && |w| > 2
  {
    if tokens != [] {
      var init := tokens[..|tokens| - 1];
      LongWordsMembers(init);
      assert tokens == init + [tokens[|tokens| - 1]];
    }
  }

  lemma LeIsTotalPreorder()
    ensures Sorting.IsTotalPreorder(Lex.Le)
  {
    forall a: string, b: string ensures Lex.Le(a, b) || Lex.Le(b, a) {
      Lex.CompareTotal(a, b);
    }
    forall a: string, b: string, c: string | Lex.Le(a, b) && Lex.Le(b, c)
      ensures Lex.Le(a, c)
    {
      Lex.CompareTransitive(a, b, c);
    }
  }

  /** The dictionary after Arrays.sort: the stored words in String.compareTo order. */
  function SortedDictionary(tokens: seq<string>): (r: seq<string>)
    ensures Sorting.Sorted(r, Lex.Le)
    ensures multiset(r) == multiset(LongWords(tokens))
  {
    LeIsTotalPreorder();
    Sorting.Sort(LongWords(tokens), Lex.Le)
  }

  /** The dictionary-reading loop: keep long words, double the array when full, trim, sort. */
  method LoadDictionary(tokens: seq<string>) returns (dictionarys: array<string>)
    ensures fresh(dictionarys)
    ensures dictionarys[..] == SortedDictionary(tokens)
  {
    var grown, words := CollectLongWords(tokens);
    dictionarys := CopyPrefix(grown, words, words);
    assert dictionarys[..] == grown[..words];
    dictionarys := SortWords(dictionarys, tokens);
  }

  /** Arrays.sort on the trimmed array: the long words in lexicographic order. */
  method SortWords(trimmed: array<string>, ghost tokens: seq<string>) returns (sorted: array<string>)
    requires trimmed[..] == LongWords(tokens)
    ensures fresh(sorted) && sorted[..] == SortedDictionary(tokens)
  {
    LeIsTotalPreorder();
    var s := Sorting.Sort(trimmed[..], Lex.Le);
    sorted := new string[|s|](k => if 0 <= k < |s| then s[k] else "");
  }

  /** The reading loop itself: the first `words` slots hold the long words read so far. */
  method CollectLongWords(tokens: seq<string>) returns (dictionarys: array<string>, words: int)
    ensures fresh(dictionarys) && 0 <= words <= dictionarys.Length
    ensures dictionarys[..words] == LongWords(tokens)
  {
    dictionarys := new string[1000](_ => "");
    words := 0;
    for t := 0 to |tokens|
      invariant 0 <= words <= dictionarys.Length && dictionarys.Length >= 1000
      invariant dictionarys[..words] == LongWords(tokens[..t])
      invariant fresh(dictionarys)
    {
      if words > dictionarys.Length - 1 {
        dictionarys := CopyPrefix(dictionarys, words, dictionarys.Length * 2);
      }
      var tempWord := tokens[t];
      LongWordsStep(tokens, t);
      if |tempWord| > 2 {
        Store(dictionarys, words, tempWord);
        words := words + 1;
      }
    }
    assert tokens[..|tokens|] == tokens;
  }

  lemma LongWordsStep(tokens: seq<string>, t: int)
    requires 0 <= t < |tokens|
    ensures LongWords(tokens[..t + 1]) ==
      if |tokens[t]| > 2 then LongWords(tokens[..t]) + [tokens[t]] else LongWords(tokens[..t])
  {
    assert tokens[..t + 1][..t] == tokens[..t];
  }

  /** dictionarys[words] = tempWord: the kept words gain one at the end. */
  method Store(a: array<string>, n: int, w: string)
    requires 0 <= n < a.Length
    modifies a
    ensures a[..n + 1] == old(a[..n]) + [w]
  {
    a[n] := w;
  }

  /** System.arraycopy of the first n entries into a new array of length len. */
  method CopyPrefix(src: array<string>, n: int, len: int) returns (dst: array<string>)
    requires 0 <= n <= src.Length && n <= len
    ensures fresh(dst) && dst.Length == len
    ensures dst[..n] == src[..n]
  {
    dst := new string[len](_ => "");
    forall k | 0 <= k < n {
      dst[k] := src[k];
    }
  }

  /**
   * Arrays.binarySearch on a sorted array of strings: an index holding the key
   * when there is one, otherwise -(insertion point) - 1.
   */
  method BinarySearch(a: seq<string>, key: string) returns (r: int)
    requires Sorting.Sorted(a, Lex.Le)
    ensures 0 <= r ==> r < |a| && a[r] == key
    ensures r < 0 ==> -r - 1 <= |a|
    ensures r < 0 ==> forall k :: 0 <= k < -r - 1 ==> Lex.Lt(a[k], key)
    ensures r < 0 ==> forall k :: -r - 1 <= k < |a| ==> Lex.Lt(key, a[k])
  {
    var low, high := 0, |a| - 1;
    while low <= high
      invariant 0 <= low <= high + 1 <= |a|
      invariant forall k :: 0 <= k < low ==> Lex.Lt(a[k], key)
      invariant forall k :: high < k < |a| ==> Lex.Lt(key, a[k])
      decreases high - low
    {
      var mid := (low + high) / 2;
      var cmp := Lex.Compare(a[mid], key);
      if cmp < 0 {
        forall k | 0 <= k <= mid ensures Lex.Lt(a[k], key) {
          if k < mid {
            Lex.LeLtTransitive(a[k], a[mid], key);
          }
        }
        low := mid + 1;
      } else if cmp > 0 {
        Lex.CompareAntisymmetric(a[mid], key);
        forall k | mid <= k < |a| ensures Lex.Lt(key, a[k]) {
          if mid < k {
            Lex.LtLeTransitive(key, a[mid], a[k]);
          }
        }
        high := mid - 1;
      } else {
        Lex.CompareZeroIffEqual(a[mid], key);
        return mid;
      }
    }
    r := -(low + 1);
  }

  /**
   * The insertion-point probe decides prefix-ness exactly: when the key is not
   * in the sorted dictionary, the word at its insertion point starts with the
   * key if and only if some dictionary word does.
   */
  lemma InsertionPointDecidesPrefix(a: seq<string>, key: string, ip: int)
    requires Sorting.Sorted(a, Lex.Le)
    requires 0 <= ip <= |a|
    requires forall k :: 0 <= k < ip ==> Lex.Lt(a[k], key)
    requires forall k :: ip <= k < |a| ==> Lex.Lt(key, a[k])
    ensures (ip < |a| && Lex.IsPrefix(key, a[ip])) <==> exists w :: w in a && Lex.IsPrefix(key, w)
  {
    if w :| w in a && Lex.IsPrefix(key, w) {
      var m :| 0 <= m < |a| && a[m] == w;
      Lex.PrefixSortsFirst(key, w);
      if m < ip {
        Lex.CompareAntisymmetric(a[m], key);
      }
      assert ip <= m;
      Lex.CompareZeroIffEqual(key, a[ip]);
      Lex.CompareZeroIffEqual(w, w);
      Lex.BetweenKeepsPrefix(key, a[ip], w);
    }
  }

  /** Letter points for one word, by its length. */
  function IndividualPoints(key: string): (pts: nat)
    ensures pts == 0 <==> |key| < 3
    ensures pts == 15 <==> |key| >= 9
  {
    if |key| >= 9 then 15
    else if |key| >= 8 then 10
    else if |key| >= 7 then 6
    else if |key| >= 6 then 4
    else if |key| >= 5 then 3
    else if |key| >= 4 then 2
    else if |key| >= 3 then 1
    else 0
  }

  /** The official scoring table, indexed by word length (capped at 9). */
  const PointsByLength: seq<nat> := [0, 0, 0, 1, 2, 3, 4, 6, 10, 15]

  lemma PointsFollowTable(key: string)
    ensures IndividualPoints(key) == PointsByLength[if |key| < 9 then |key| else 9]
  {
  }

  lemma PointsMonotone(a: string, b: string)
    requires |a| <= |b|
    ensures IndividualPoints(a) <= IndividualPoints(b)
  {
  }

  ghost function Pick(s: set<string>): string
    requires s != {}
  {
    var x :| x in s; x
  }

  /** The total score of a set of words: each word's points, summed once. */
  ghost function SumPoints(s: set<string>): nat
    decreases |s|
  {
    if s == {} then 0 else IndividualPoints(Pick(s)) + SumPoints(s - {Pick(s)})
  }

  lemma {:induction false} SumPointsRemove(s: set<string>, k: string)
    requires k in s
    ensures SumPoints(s) == IndividualPoints(k) + SumPoints(s - {k})
    decreases |s|
  {
    var x := Pick(s);
    if x != k {
      SumPointsRemove(s - {x}, k);
      SumPointsRemove(s - {k}, x);
      assert s - {x} - {k} == s - {k} - {x};
    }
  }

  /** calculateTotalPoints: the points of every key of the answer map, added up. */
  method TotalPoints(answers: map<string, seq<Position>>) returns (total: int)
    ensures total == SumPoints(answers.Keys)
  {
    total := 0;
    var rest := answers.Keys;
    while rest != {}
      invariant total + SumPoints(rest) == SumPoints(answers.Keys)
      decreases |rest|
    {
      var key :| key in rest;
      SumPointsRemove(rest, key);
      total := total + IndividualPoints(key);
      rest := rest - {key};
    }
  }

  /**
   * new Boggle(file): the shape check, then the board and the dictionary;
   * None is the IncorrectPuzzleFormatException the constructor throws.
   */
  method Load(puzzle: seq<string>, tokens: seq<string>) returns (game: Option<Boggle>)
    ensures game.None? <==> !ValidPuzzle(puzzle)
    ensures game.Some? ==> fresh(game.value) && game.value.Valid()
    ensures game.Some? ==> game.value.numOfRows == |puzzle| && game.value.numOfCols == |puzzle[0]|
    ensures game.Some? ==> forall i, j :: 0 <= i < |puzzle| && 0 <= j < |puzzle[0]| ==> game.value.board[i, j] == puzzle[i][j]
    ensures game.Some? ==> game.value.dictionarys[..] == SortedDictionary(tokens)
  {
    var validPuzzle := CheckPuzzle(puzzle);
    if !validPuzzle {
      return None;
    }
    var b := new Boggle(puzzle, tokens);
    return Some(b);
  }

  /** The shared state of one search: the current path and the answers found so far. */
  class SearchState {
    var path: seq<Position>
    var results: map<string, seq<Position>>

    constructor()
      ensures path == [] && results == map[]
    {
      path := [];
      results := map[];
    }
  }

  class Boggle {
    const numOfRows: int
    const numOfCols: int
    const board: array2<char>
    const dictionarys: array<string>

    ghost predicate Valid()
      reads this, dictionarys
    {
      && board.Length0 == numOfRows
      && board.Length1 == numOfCols
      && Sorting.Sorted(dictionarys[..], Lex.Le)
    }

    /** Builds the board from accepted puzzle lines and the dictionary from its tokens. */
    constructor(puzzle: seq<string>, tokens: seq<string>)
      requires ValidPuzzle(puzzle)
      ensures Valid()
      ensures numOfRows == |puzzle| && numOfCols == |puzzle[0]|
      ensures forall i, j :: 0 <= i < numOfRows && 0 <= j < numOfCols ==> board[i, j] == puzzle[i][j]
      ensures dictionarys[..] == SortedDictionary(tokens)
      ensures fresh(board) && fresh(dictionarys)
    {
      var rows := |puzzle|;
      var cols := |puzzle[0]|;
      var b := new char[rows, cols];
      for i := 0 to rows
        invariant forall i', j :: 0 <= i' < i && 0 <= j < cols ==> b[i', j] == puzzle[i'][j]
      {
        var line := puzzle[i];
        for j := 0 to cols
          invariant forall i', j' :: 0 <= i' < i && 0 <= j' < cols ==> b[i', j'] == puzzle[i'][j']
          invariant forall j' :: 0 <= j' < j ==> b[i, j'] == line[j']
        {
          b[i, j] := line[j];
        }
      }
      var d := LoadDictionary(tokens);
      numOfRows := rows;
      numOfCols := cols;
      board := b;
      dictionarys := d;
    }

    predicate InBounds(p: Position) {
      0 <= p.row < numOfRows && 0 <= p.column < numOfCols
    }

    ghost function Cells(): set<Position> {
      set r, c | 0 <= r < numOfRows && 0 <= c < numOfCols :: Position(r, c)
    }

    /** The letters read along a path of in-bounds positions. */
    function Spell(p: seq<Position>): string
      requires Valid()
      requires forall k :: 0 <= k < |p| ==> InBounds(p[k])
      reads this, dictionarys, board
    {
      if p == [] then []
      else
        var last := p[|p| - 1];
        assert InBounds(last);
        Spell(p[..|p| - 1]) + [board[last.row, last.column]]
    }

    /** A path of distinct in-bounds cells, each a neighbour of the one before. */
    predicate IsPath(p: seq<Position>) {
      && (forall k :: 0 <= k < |p| ==> InBounds(p[k]))
      && Distinct(p)
      && (forall k :: 0 < k < |p| ==> Adjacent(p[k - 1], p[k]))
    }

    /** Every answer is a dictionary word spelled along a path on the board. */
    ghost predicate AnswersValid(results: map<string, seq<Position>>)
      requires Valid()
      reads this, dictionarys, board
    {
      forall w :: w in results ==>
        && w in dictionarys[..]
        && IsPath(results[w])
        && Spell(results[w]) == w
    }

    /** aPosition.getNeighbors: the in-bounds 8-neighbourhood, scanned row by row. */
    method GetNeighbors(pos: Position) returns (neighbors: seq<Position>)
      requires InBounds(pos)
      ensures forall q :: q in neighbors <==> InBounds(q) && Adjacent(pos, q)
      ensures Distinct(neighbors)
    {
      var top := if pos.row == 0 then 0 else pos.row - 1;
      var bottom := if pos.row == numOfRows - 1 then pos.row else pos.row + 1;
      var right := if pos.column == numOfCols - 1 then pos.column else pos.column + 1;
      var left := if pos.column == 0 then 0 else pos.column - 1;
      neighbors := [];
      var r := top;
      while r <= bottom
        invariant top <= r <= bottom + 1
        invariant Distinct(neighbors)
        invariant forall q :: q in neighbors ==> q.row < r
        invariant forall q :: q in neighbors <==> InBounds(q) && Adjacent(pos, q) && q.row < r
      {
        var c := left;
        ghost var before := neighbors;
        while c <= right
          invariant left <= c <= right + 1
          invariant Distinct(neighbors)
          invariant forall q :: q in neighbors ==> q.row < r || (q.row == r && q.column < c)
          invariant forall q :: q in neighbors <==>
            q in before || (q.row == r && left <= q.column < c && q != pos)
        {
          if r != pos.row || c != pos.column {
            neighbors := neighbors + [Position(r, c)];
          }
          c := c + 1;
        }
        r := r + 1;
      }
    }

    /** The top-level solve: a search from every cell, with an empty path and no answers. */
    method Solve() returns (answers: map<string, seq<Position>>)
      requires Valid()
      ensures AnswersValid(answers)
    {
      var st := new SearchState();
      for i := 0 to numOfRows
        invariant st.path == []
        invariant AnswersValid(st.results)
      {
        for j := 0 to numOfCols
          invariant st.path == []
          invariant AnswersValid(st.results)
        {
          SolveFrom(Position(i, j), "", st);
        }
      }
      answers := st.results;
    }

    /**
     * The recursive solve: extend the current path by thisPos when the letters
     * so far are a word or the prefix of one, record words, recurse into the
     * neighbours, and take thisPos off the path again.
     */
    method SolveFrom(thisPos: Position, charSequence: string, st: SearchState)
      requires Valid() && InBounds(thisPos)
      requires IsPath(st.path) && Spell(st.path) == charSequence
      requires st.path != [] ==> Adjacent(st.path[|st.path| - 1], thisPos)
      requires AnswersValid(st.results)
      modifies st
      ensures st.path == old(st.path)
      ensures AnswersValid(st.results)
      ensures old(st.results).Keys <= st.results.Keys
      decreases Remaining(st.path), 1
    {
      var temporary := charSequence + [board[thisPos.row, thisPos.column]];
      var found := BinarySearch(dictionarys[..], temporary);
      if thisPos in st.path {
        return;
      }
      if found < 0 {
        var inverse := -found - 1;
        if inverse == dictionarys.Length {
          return;
        }
        var wordPrefix := dictionarys[inverse];
        if Lex.IsPrefix(temporary, wordPrefix) {
          Visit(thisPos, charSequence, false, st);
        } else {
          return;
        }
      }
      if found >= 0 {
        Visit(thisPos, charSequence, true, st);
      }
      st.path := st.path[..|st.path| - 1];
    }

    /**
     * The body shared by both branches of solve: add thisPos to the path,
     * record the word when the letters spell one, and recurse into every neighbour.
     */
    method Visit(thisPos: Position, charSequence: string, isWord: bool, st: SearchState)
      requires Valid() && InBounds(thisPos) && thisPos !in st.path
      requires IsPath(st.path) && Spell(st.path) == charSequence
      requires st.path != [] ==> Adjacent(st.path[|st.path| - 1], thisPos)
      requires isWord ==> charSequence + [board[thisPos.row, thisPos.column]] in dictionarys[..]
      requires AnswersValid(st.results)
      modifies st
      ensures st.path == old(st.path) + [thisPos]
      ensures AnswersValid(st.results)
      ensures old(st.results).Keys <= st.results.Keys
      decreases Remaining(st.path), 0
    {
      var temporary := Enter(thisPos, charSequence, isWord, st);
      SolveAll(thisPos, temporary, st);
    }

    /** path.add(thisPos), then results.put when the letters spell a word. */
    method Enter(thisPos: Position, charSequence: string, isWord: bool, st: SearchState) returns (temporary: string)
      requires Valid() && InBounds(thisPos) && thisPos !in st.path
      requires IsPath(st.path) && Spell(st.path) == charSequence
      requires st.path != [] ==> Adjacent(st.path[|st.path| - 1], thisPos)
      requires isWord ==> charSequence + [board[thisPos.row, thisPos.column]] in dictionarys[..]
      requires AnswersValid(st.results)
      modifies st
      ensures temporary == charSequence + [board[thisPos.row, thisPos.column]]
      ensures st.path == old(st.path) + [thisPos] && IsPath(st.path) && Spell(st.path) == temporary
      ensures Remaining(st.path) < Remaining(old(st.path))
      ensures st.results == if isWord then old(st.results)[temporary := st.path] else old(st.results)
      ensures AnswersValid(st.results)
    {
      temporary := charSequence + [board[thisPos.row, thisPos.column]];
      Extend(thisPos, charSequence, st);
      ShorterPathLeavesFewerCells(old(st.path), thisPos);
      if isWord {
        Record(temporary, st);
      }
    }

    /** The cells a search may still add to the path. */
    ghost function Remaining(path: seq<Position>): set<Position> {
      Cells() - (set q | q in path)
    }

    lemma ShorterPathLeavesFewerCells(path: seq<Position>, p: Position)
      requires InBounds(p) && p !in path
      ensures Remaining(path + [p]) < Remaining(path)
    {
      assert p in Cells() - (set q | q in path);
      assert p !in Cells() - (set q | q in path + [p]);
    }

    /** path.add(thisPos): the longer path stays a path and spells one more letter. */
    method Extend(thisPos: Position, charSequence: string, st: SearchState)
      requires Valid() && InBounds(thisPos) && thisPos !in st.path
      requires IsPath(st.path) && Spell(st.path) == charSequence
      requires st.path != [] ==> Adjacent(st.path[|st.path| - 1], thisPos)
      requires AnswersValid(st.results)
      modifies st
      ensures st.path == old(st.path) + [thisPos] && st.results == old(st.results)
      ensures AnswersValid(st.results)
      ensures IsPath(st.path)
      ensures Spell(st.path) == charSequence + [board[thisPos.row, thisPos.column]]
    {
      PathSnoc(st.path, thisPos);
      st.path := st.path + [thisPos];
    }

    /** A path extended by an unused neighbour of its last cell is a path spelling one more letter. */
    lemma PathSnoc(path: seq<Position>, p: Position)
      requires Valid() && InBounds(p) && p !in path && IsPath(path)
      requires path != [] ==> Adjacent(path[|path| - 1], p)
      ensures IsPath(path + [p])
      ensures Spell(path + [p]) == Spell(path) + [board[p.row, p.column]]
    {
      assert (path + [p])[..|path|] == path;
    }

    /** results.put(charSequence, copy of path): the path spells a dictionary word. */
    method Record(word: string, st: SearchState)
      requires Valid() && word in dictionarys[..]
      requires IsPath(st.path) && Spell(st.path) == word
      requires AnswersValid(st.results)
      modifies st
      ensures st.path == old(st.path) && st.results == old(st.results)[word := st.path]
      ensures AnswersValid(st.results)
    {
      st.results := st.results[word := st.path];
    }

    /** The loop over the neighbours of the cell just added to the path. */
    method SolveAll(thisPos: Position, charSequence: string, st: SearchState)
      requires Valid() && InBounds(thisPos)
      requires IsPath(st.path) && st.path != [] && st.path[|st.path| - 1] == thisPos
      requires Spell(st.path) == charSequence
      requires AnswersValid(st.results)
      modifies st
      ensures st.path == old(st.path)
      ensures AnswersValid(st.results)
      ensures old(st.results).Keys <= st.results.Keys
      decreases Remaining(st.path), 2
    {
      var neighbors := GetNeighbors(thisPos);
      for i := 0 to |neighbors|
        invariant st.path == old(st.path)
        invariant AnswersValid(st.results)
        invariant old(st.results).Keys <= st.results.Keys
      {
        SolveFrom(neighbors[i], charSequence, st);
      }
    }
  }
}
