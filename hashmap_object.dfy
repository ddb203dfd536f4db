/**
 * The hash map object of MyHashMap.java: a bucket array of chains that put,
 * rehash and remove update in place, and its iterator. Each method is proved
 * against the table function of the same name in TwoChoiceHashMap.
 */
module HashMapObject {
  import opened Wrappers
  import opened TwoChoiceHashMap

  // ------------------------------------------------------------ the class

  /** The hash map object: the bucket array and the node count. */
  class MyHashMap<K(==), V> {
    const hash1: K -> int
    const hash2: K -> int
    var arr: array<Chain<K, V>>
    var theSize: int

    ghost predicate Valid()
      reads this, arr
    {
      && TwoChoiceHashMap.Valid(arr[..], hash1, hash2)
      && theSize == NodeCount(arr[..])
      && theSize <= arr.Length + 1
    }

    function Chains(): Table<K, V>
      reads this, arr
    {
      arr[..]
    }

    /** The constructor stores both hash functions and starts empty, as doClear does. */
    constructor(h1: K -> int, h2: K -> int)
      ensures Valid() && fresh(arr)
      ensures hash1 == h1 && hash2 == h2
      ensures Chains() == EmptyTable(DefaultArraySize) && theSize == 0
    {
      hash1 := h1;
      hash2 := h2;
      theSize := 0;
      arr := new Chain<K, V>[DefaultArraySize](_ => []);
      new;
      EmptyTableValid<K, V>(DefaultArraySize, h1, h2);
      assert arr[..] == EmptyTable(DefaultArraySize);
    }

    method Clear()
      modifies this
      ensures Valid() && fresh(arr)
      ensures Chains() == EmptyTable(DefaultArraySize) && theSize == 0
    {
      DoClear();
    }

    method DoClear()
      modifies this
      ensures Valid() && fresh(arr)
      ensures Chains() == EmptyTable(DefaultArraySize) && theSize == 0
    {
      theSize := 0;
      arr := new Chain<K, V>[DefaultArraySize](_ => []);
      EmptyTableValid<K, V>(DefaultArraySize, hash1, hash2);
      assert arr[..] == EmptyTable(DefaultArraySize);
    }

    function Size(): int
      reads this
    {
      theSize
    }

    function MyHash1(k: K): (index: nat)
      reads this
      requires arr.Length > 0
      ensures index < arr.Length
    {
      Bucket(hash1(k), arr.Length)
    }

    function MyHash2(k: K): (index: nat)
      reads this
      requires arr.Length > 0
      ensures index < arr.Length
    {
      Bucket(hash2(k), arr.Length)
    }

    /** listContains: walk the chain at index until a node holds k. */
    method ListContains(k: K, index: nat) returns (contains: Option<nat>)
      requires index < arr.Length
      ensures contains == Find(arr[index], k)
    {
      var chain := arr[index];
      var current := 0;
      while current < |chain|
        invariant 0 <= current <= |chain|
        invariant forall q :: 0 <= q < current ==> chain[q].0 != k
      {
        if chain[current].0 == k {
          return Some(current);
        }
        current := current + 1;
      }
      return None;
    }

    /** indexSize: count the nodes of the chain at index. */
    method IndexSize(index: nat) returns (countNodes: nat)
      requires index < arr.Length
      ensures countNodes == |arr[index]|
    {
      var chain := arr[index];
      countNodes := 0;
      while countNodes < |chain|
        invariant countNodes <= |chain|
      {
        countNodes := countNodes + 1;
      }
    }

    /** put: rehash when too full, then overwrite k's node or prepend one to the shorter chain. */
    method Put(k: K, v: V) returns (previous: Option<V>)
      requires Valid()
      modifies this, arr
      ensures Valid()
      ensures (Chains(), previous) == TwoChoiceHashMap.Put(old(Chains()), old(theSize), hash1, hash2, k, v)
      ensures theSize == old(theSize) + (if previous.None? then 1 else 0)
      ensures if old(theSize) > old(arr.Length) then fresh(arr) else arr == old(arr)
      decreases if theSize > arr.Length then 1 else 0, 1
    {
      if theSize > arr.Length {
        Rehash();
      }
      ghost var before := arr[..];
      var hash1Result := MyHash1(k);
      var hash2Result := MyHash2(k);
      var contains1 := ListContains(k, hash1Result);
      var contains2 := ListContains(k, hash2Result);
      ghost var r := TwoChoiceHashMap.Insert(before, hash1, hash2, k, v);
      InsertKeepsValid(before, hash1, hash2, k, v);
      if contains1.None? && contains2.None? {
        theSize := theSize + 1;
        var size1 := IndexSize(hash1Result);
        var size2 := IndexSize(hash2Result);
        if size1 <= size2 {
          assert r == (before[hash1Result := [(k, v)] + before[hash1Result]], None);
          arr[hash1Result] := [(k, v)] + arr[hash1Result];
        } else {
          assert r == (before[hash2Result := [(k, v)] + before[hash2Result]], None);
          arr[hash2Result] := [(k, v)] + arr[hash2Result];
        }
        previous := None;
      } else if contains1.Some? && contains2.None? {
        var p := contains1.value;
        assert r == (before[hash1Result := before[hash1Result][p := (k, v)]], Some(before[hash1Result][p].1));
        previous := Some(arr[hash1Result][p].1);
        arr[hash1Result] := arr[hash1Result][p := (k, v)];
      } else {
        var p := contains2.value;
        assert r == (before[hash2Result := before[hash2Result][p := (k, v)]], Some(before[hash2Result][p].1));
        previous := Some(arr[hash2Result][p].1);
        arr[hash2Result] := arr[hash2Result][p := (k, v)];
      }
      assert arr[..] == r.0;
    }

    /** rehash: put every node, bucket by bucket, into a map four times as long. */
    method Rehash()
      requires Valid()
      modifies this
      ensures Valid() && fresh(arr)
      ensures Chains() == TwoChoiceHashMap.Rehash(old(Chains()), hash1, hash2) && theSize == old(theSize)
      decreases 1, 0
    {
      ghost var t := arr[..];
      var tempHash := new MyHashMap(hash1, hash2);
      tempHash.arr := new Chain<K, V>[arr.Length * 4](_ => []);
      ghost var empty := EmptyTable<K, V>(4 * arr.Length);
      assert tempHash.arr[..] == empty;
      EmptyTableValid<K, V>(4 * arr.Length, hash1, hash2);
      var index := 0;
      while index < arr.Length
        invariant 0 <= index <= arr.Length
        invariant arr == old(arr) && theSize == old(theSize) && arr[..] == t
        invariant fresh(tempHash) && fresh(tempHash.arr)
        invariant tempHash.hash1 == hash1 && tempHash.hash2 == hash2
        invariant tempHash.arr.Length == 4 * arr.Length
        invariant tempHash.Valid()
        invariant tempHash.Chains() == ReinsertAll(empty, hash1, hash2, Flatten(t[..index]))
        invariant tempHash.theSize <= |Flatten(t[..index])|
      {
        FlattenNextBucket(t, index);
        tempHash.PutNodes(arr[index], empty, Flatten(t[..index]));
        index := index + 1;
      }
      assert t[..index] == t;
      RehashValid(t, hash1, hash2);
      arr := tempHash.arr;
    }

    /**
     * The inner loop of rehash, run on the new map: put the nodes of one old
     * chain, head first. The map never grows past its array here, so none of
     * these puts rehashes.
     */
    method PutNodes(chain: Chain<K, V>, ghost empty: Table<K, V>, ghost prefix: seq<(K, V)>)
      requires Valid() && 0 < |empty|
      requires Chains() == ReinsertAll(empty, hash1, hash2, prefix)
      requires theSize + |chain| <= arr.Length
      modifies this, arr
      ensures Valid() && arr == old(arr)
      ensures Chains() == ReinsertAll(empty, hash1, hash2, prefix + chain)
      ensures theSize <= old(theSize) + |chain|
      decreases 0, 2
    {
      var j := 0;
      assert prefix + chain[..0] == prefix;
      while j < |chain|
        invariant 0 <= j <= |chain|
        invariant Valid() && arr == old(arr)
        invariant Chains() == ReinsertAll(empty, hash1, hash2, prefix + chain[..j])
        invariant theSize <= old(theSize) + j
      {
        ghost var next := ReinsertAll(empty, hash1, hash2, prefix + chain[..j + 1]);
        ReinsertNext(empty, hash1, hash2, prefix, chain, j, Chains(), next);
        var _ := Put(chain[j].0, chain[j].1);
        j := j + 1;
      }
      assert chain[..j] == chain;
    }

    /** remove: unlink k's node from the candidate chain that holds it. */
    method Remove(k: K) returns (removed: bool)
      requires Valid()
      modifies this, arr
      ensures Valid()
      ensures (Chains(), removed) == TwoChoiceHashMap.Remove(old(Chains()), hash1, hash2, k)
      ensures theSize == old(theSize) - (if removed then 1 else 0)
    {
      ghost var before := arr[..];
      ghost var r := TwoChoiceHashMap.Remove(before, hash1, hash2, k);
      RemoveKeepsValid(before, hash1, hash2, k);
      var hash1Code := MyHash1(k);
      var hash2Code := MyHash2(k);
      var contains1 := ListContains(k, hash1Code);
      var contains2 := ListContains(k, hash2Code);
      if contains1.None? && contains2.None? {
        return false;
      }
      var code := if contains1.Some? && contains2.None? then hash1Code else hash2Code;
      var target := if contains1.Some? && contains2.None? then contains1.value else contains2.value;
      assert r == (before[code := RemoveAt(before[code], target)], true);
      theSize := theSize - 1;
      var chain := arr[code];
      if target == 0 {
        assert chain[1..] == RemoveAt(chain, 0);
        arr[code] := chain[1..];
      } else {
        // the predecessor of the node to unlink
        var current := 0;
        while current + 1 < target
          invariant 0 <= current < target
        {
          current := current + 1;
        }
        arr[code] := chain[..current + 1] + chain[target + 1..];
      }
      assert arr[..] == r.0;
      removed := true;
    }

    /** findMinHashCode: the candidate whose chain is shorter, the first on a tie. */
    method FindMinHashCode(k: K) returns (min: nat)
      requires arr.Length > 0
      ensures min == MinBucket(Chains(), hash1, hash2, k)
    {
      var hash1Result := MyHash1(k);
      var hash2Result := MyHash2(k);
      var list1Size := IndexSize(hash1Result);
      var list2Size := IndexSize(hash2Result);
      if list1Size <= list2Size {
        min := hash1Result;
      } else {
        min := hash2Result;
      }
    }

    /** get: search only the shorter candidate chain. */
    method Get(k: K) returns (value: Option<V>)
      requires arr.Length > 0
      ensures value == TwoChoiceHashMap.Get(Chains(), hash1, hash2, k)
    {
      var min := FindMinHashCode(k);
      var contains := ListContains(k, min);
      if contains.Some? {
        value := Some(arr[min][contains.value].1);
      } else {
        value := None;
      }
    }

    /** getLengths: how many chains have each length below 20. */
    method GetLengths() returns (count: array<int>)
      requires forall b :: 0 <= b < arr.Length ==> |arr[b]| < LengthsSize
      ensures fresh(count) && count.Length == LengthsSize
      ensures forall s :: 0 <= s < LengthsSize ==> count[s] == ChainsOfLength(Chains(), s)
    {
      count := new int[LengthsSize](_ => 0);
      for i := 0 to arr.Length
        invariant forall s :: 0 <= s < LengthsSize ==> count[s] == ChainsOfLength(arr[..i], s)
      {
        var s := IndexSize(i);
        assert arr[..i + 1][..i] == arr[..i];
        count[s] := count[s] + 1;
      }
      assert arr[..arr.Length] == arr[..];
    }
  }

  /**
   * The iterator: nodes chain by chain, each chain from its head. The cursor is
   * the chain number and the position of the current node in it.
   */
  class MapIterator<K, V> {
    const table: array<Chain<K, V>>
    var listNum: nat
    var offset: nat

    ghost predicate Valid()
      reads this, table
    {
      listNum <= table.Length && (listNum < table.Length ==> offset < |table[listNum]|)
    }

    /** How many nodes have been returned so far. */
    ghost function Consumed(): nat
      reads this, table
      requires Valid()
    {
      if listNum < table.Length then |Flatten(table[..listNum])| + offset else |Flatten(table[..])|
    }

    constructor(arr: array<Chain<K, V>>)
      ensures table == arr && Valid() && Consumed() == 0
    {
      table := arr;
      listNum := 0;
      offset := 0;
      new;
      assert Flatten(table[..0]) == [];
      AdvanceToNewList();
    }

    /** advanceToNewList: skip empty chains; the current node is the head of the next non-empty one. */
    method AdvanceToNewList()
      requires listNum <= table.Length && offset == 0
      modifies this
      ensures Valid() && old(listNum) <= listNum
      ensures Consumed() == |Flatten(table[..old(listNum)])|
    {
      ghost var start := listNum;
      while listNum < table.Length && table[listNum] == []
        invariant start <= listNum <= table.Length && offset == 0
        invariant Flatten(table[..listNum]) == Flatten(table[..start])
      {
        FlattenSkipsEmpty(table[..], listNum);
        assert table[..][..listNum + 1] == table[..listNum + 1];
        assert table[..][..listNum] == table[..listNum];
        listNum := listNum + 1;
      }
      if listNum == table.Length {
        assert table[..] == table[..listNum];
      }
    }

    method HasNext() returns (r: bool)
      requires Valid()
      ensures r <==> Consumed() < |Flatten(table[..])|
    {
      r := listNum < table.Length;
      if r {
        FlattenPrefixAt(table[..], listNum, offset);
        assert table[..][..listNum] == table[..listNum];
      }
    }

    /** next: return the current node, then step to its successor or to the next chain. */
    method Next() returns (entry: (K, V))
      requires Valid() && Consumed() < |Flatten(table[..])|
      modifies this
      ensures Valid() && Consumed() == old(Consumed()) + 1
      ensures entry == Flatten(table[..])[old(Consumed())]
    {
      FlattenPrefixAt(table[..], listNum, offset);
      assert table[..][..listNum] == table[..listNum];
      entry := table[listNum][offset];
      offset := offset + 1;
      if offset == |table[listNum]| {
        assert table[..listNum + 1][..listNum] == table[..listNum];
        listNum := listNum + 1;
        offset := 0;
        AdvanceToNewList();
      }
    }
  }
}
