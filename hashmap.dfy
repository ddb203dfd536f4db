/**
 * MyHashMap: an array of singly linked chains with two hash functions. A new
 * key goes to the head of the shorter of its two candidate chains; the array
 * grows fourfold when the size passes its length.
 *
 * A chain is a sequence of (key, value) pairs, head first; the table is the
 * sequence of chains. The two hash functions are function values. The pure
 * layer below states what each operation does to the table; the class
 * `MyHashMap` performs it on an array of chains.
 */
module TwoChoiceHashMap {
  import opened Wrappers

  type Chain<K, V> = seq<(K, V)>
  type Table<K, V> = seq<Chain<K, V>>

  /** The number of chains after construction and after clear. */
  const DefaultArraySize: nat := 11

  /** The length of the distribution array of getLengths. */
  const LengthsSize: nat := 20

  /** myHash1/myHash2: Math.abs(h % length), with Java's truncating remainder. */
  function Bucket(hashCode: int, length: nat): (index: nat)
    requires length > 0
    ensures index < length
    ensures index == (if hashCode < 0 then -hashCode else hashCode) % length
  {
    var remainder := if hashCode >= 0 then hashCode % length else -((-hashCode) % length);
    if remainder < 0 then -remainder else remainder
  }

  function EmptyTable<K, V>(length: nat): (t: Table<K, V>)
    ensures |t| == length && forall b :: 0 <= b < length ==> t[b] == []
  {
    seq(length, _ => [])
  }

  predicate HasKey<K(==), V>(chain: Chain<K, V>, k: K) {
    exists q :: 0 <= q < |chain| && chain[q].0 == k
  }

  /** listContains: the position of the first node holding k, if any. */
  function Find<K(==), V>(chain: Chain<K, V>, k: K): (r: Option<nat>)
    ensures r.Some? ==> r.value < |chain| && chain[r.value].0 == k
    ensures r.Some? ==> forall q :: 0 <= q < r.value ==> chain[q].0 != k
    ensures r.None? <==> !HasKey(chain, k)
  {
    if chain == [] then None
    else if chain[0].0 == k then Some(0)
    else match Find(chain[1..], k)
      case None => assert forall q :: 1 <= q < |chain| ==> chain[q] == chain[1..][q - 1]; None
      case Some(p) => Some(p + 1)
  }

  /** All nodes, chain by chain, each chain head first: the iterator's order. */
  function Flatten<K, V>(t: Table<K, V>): seq<(K, V)> {
    if t == [] then [] else Flatten(t[..|t| - 1]) + t[|t| - 1]
  }

  /** The number of nodes in the table. */
  function NodeCount<K, V>(t: Table<K, V>): nat {
    |Flatten(t)|
  }

  // ------------------------------------------------------------ invariant

  predicate UniqueKeys<K(==), V>(chain: Chain<K, V>) {
    forall p, q :: 0 <= p < q < |chain| ==> chain[p].0 != chain[q].0
  }

  /**
   * k sits in bucket b legitimately: b is one of its two candidates, and the
   * other candidate, when different, does not hold k.
   */
  predicate Home<K(==), V>(t: Table<K, V>, h1: K -> int, h2: K -> int, k: K, b: nat)
    requires 0 < |t|
  {
    var i1 := Bucket(h1(k), |t|);
    var i2 := Bucket(h2(k), |t|);
    (b == i1 || b == i2) && (i1 != b ==> !HasKey(t[i1], k)) && (i2 != b ==> !HasKey(t[i2], k))
  }

  /** Every key appears once, in one of its candidate buckets. */
  ghost predicate Valid<K, V>(t: Table<K, V>, h1: K -> int, h2: K -> int) {
    && 0 < |t|
    && (forall b :: 0 <= b < |t| ==> UniqueKeys(t[b]))
    && (forall b, p :: 0 <= b < |t| && 0 <= p < |t[b]| ==> Home(t, h1, h2, t[b][p].0, b))
  }

  predicate DistinctKeys<K(==), V>(entries: seq<(K, V)>) {
    forall i, j :: 0 <= i < j < |entries| ==> entries[i].0 != entries[j].0
  }

  // ------------------------------------------------------------ operations

  /** put after the size check: overwrite k's node, or prepend a node to the shorter chain. */
  function Insert<K(==), V>(t: Table<K, V>, h1: K -> int, h2: K -> int, k: K, v: V): (r: (Table<K, V>, Option<V>))
    requires 0 < |t|
    ensures |r.0| == |t|
    ensures r.1.None? <==> !HasKey(t[Bucket(h1(k), |t|)], k) && !HasKey(t[Bucket(h2(k), |t|)], k)
  {
    var i1 := Bucket(h1(k), |t|);
    var i2 := Bucket(h2(k), |t|);
    var contains1 := Find(t[i1], k);
    var contains2 := Find(t[i2], k);
    if contains1.None? && contains2.None? then
      if |t[i1]| <= |t[i2]| then (t[i1 := [(k, v)] + t[i1]], None)
      else (t[i2 := [(k, v)] + t[i2]], None)
    else if contains1.Some? && contains2.None? then
      (t[i1 := t[i1][contains1.value := (k, v)]], Some(t[i1][contains1.value].1))
    else
      (t[i2 := t[i2][contains2.value := (k, v)]], Some(t[i2][contains2.value].1))
  }

  /** tempHash.put of every node, bucket by bucket, into an empty table. */
  function ReinsertAll<K(==), V>(acc: Table<K, V>, h1: K -> int, h2: K -> int, entries: seq<(K, V)>): (t: Table<K, V>)
    requires 0 < |acc|
    ensures |t| == |acc|
    decreases |entries|, 1
  {
    if entries == [] then acc else ReinsertLastOf(acc, h1, h2, entries)
  }

  /** The put of the last node, after all the ones before it. */
  function ReinsertLastOf<K(==), V>(acc: Table<K, V>, h1: K -> int, h2: K -> int, entries: seq<(K, V)>): (t: Table<K, V>)
    requires 0 < |acc| && entries != []
    ensures |t| == |acc|
    decreases |entries|, 0
  {
    var last := entries[|entries| - 1];
    Insert(ReinsertAll(acc, h1, h2, entries[..|entries| - 1]), h1, h2, last.0, last.1).0
  }

  /** rehash: the same nodes in an array four times as long. */
  function Rehash<K(==), V>(t: Table<K, V>, h1: K -> int, h2: K -> int): (r: Table<K, V>)
    requires 0 < |t|
    ensures |r| == 4 * |t|
  {
    ReinsertAll(EmptyTable(4 * |t|), h1, h2, Flatten(t))
  }

  /** put: rehash first when the size exceeds the array length. */
  function Put<K(==), V>(t: Table<K, V>, size: int, h1: K -> int, h2: K -> int, k: K, v: V): (r: (Table<K, V>, Option<V>))
    requires 0 < |t|
    ensures |r.0| == if size > |t| then 4 * |t| else |t|
  {
    var grown := if size > |t| then Rehash(t, h1, h2) else t;
    Insert(grown, h1, h2, k, v)
  }

  function RemoveAt<K, V>(chain: Chain<K, V>, p: nat): (r: Chain<K, V>)
    requires p < |chain|
    ensures |r| == |chain| - 1
  {
    chain[..p] + chain[p + 1..]
  }

  /** remove: unlink k's node from whichever candidate chain holds it. */
  function Remove<K(==), V>(t: Table<K, V>, h1: K -> int, h2: K -> int, k: K): (r: (Table<K, V>, bool))
    requires 0 < |t|
    ensures |r.0| == |t|
    ensures !r.1 <==> !HasKey(t[Bucket(h1(k), |t|)], k) && !HasKey(t[Bucket(h2(k), |t|)], k)
    ensures !r.1 ==> r.0 == t
  {
    var i1 := Bucket(h1(k), |t|);
    var i2 := Bucket(h2(k), |t|);
    var contains1 := Find(t[i1], k);
    var contains2 := Find(t[i2], k);
    if contains1.None? && contains2.None? then (t, false)
    else if contains1.Some? && contains2.None? then (t[i1 := RemoveAt(t[i1], contains1.value)], true)
    else (t[i2 := RemoveAt(t[i2], contains2.value)], true)
  }

  /** findMinHashCode: the candidate whose chain is shorter, the first on a tie. */
  function MinBucket<K, V>(t: Table<K, V>, h1: K -> int, h2: K -> int, k: K): (b: nat)
    requires 0 < |t|
    ensures b < |t|
    ensures b == Bucket(h1(k), |t|) || b == Bucket(h2(k), |t|)
    ensures |t[b]| <= |t[Bucket(h1(k), |t|)]| && |t[b]| <= |t[Bucket(h2(k), |t|)]|
  {
    var i1 := Bucket(h1(k), |t|);
    var i2 := Bucket(h2(k), |t|);
    if |t[i1]| <= |t[i2]| then i1 else i2
  }

  /** get: look k up in the shorter candidate chain only. */
  function Get<K(==), V>(t: Table<K, V>, h1: K -> int, h2: K -> int, k: K): (r: Option<V>)
    requires 0 < |t|
    ensures r.Some? <==> HasKey(t[MinBucket(t, h1, h2, k)], k)
    ensures r.Some? ==> (k, r.value) in t[MinBucket(t, h1, h2, k)]
  {
    var chain := t[MinBucket(t, h1, h2, k)];
    match Find(chain, k)
    case None => None
    case Some(p) => Some(chain[p].1)
  }

  /** The number of chains of exactly `length` nodes. */
  function ChainsOfLength<K, V>(t: Table<K, V>, length: nat): nat {
    if t == [] then 0
    else ChainsOfLength(t[..|t| - 1], length) + (if |t[|t| - 1]| == length then 1 else 0)
  }

  /** The sum of ChainsOfLength(t, s) over s < n. */
  function SumOfCounts<K, V>(t: Table<K, V>, n: nat): nat {
    if n == 0 then 0 else SumOfCounts(t, n - 1) + ChainsOfLength(t, n - 1)
  }

  // ------------------------------------------------------------ the node multiset

  lemma {:induction false} FlattenUpdate<K, V>(t: Table<K, V>, b: nat, c: Chain<K, V>)
    requires b < |t|
    ensures multiset(Flatten(t[b := c])) == multiset(Flatten(t)) - multiset(t[b]) + multiset(c)
    ensures |Flatten(t[b := c])| == |Flatten(t)| - |t[b]| + |c|
  {
    var n := |t| - 1;
    var u := t[b := c];
    assert Flatten(u) == Flatten(u[..n]) + u[n];
    assert Flatten(t) == Flatten(t[..n]) + t[n];
    if b == n {
      assert u[..n] == t[..n];
    } else {
      assert u[..n] == t[..n][b := c];
      FlattenUpdate(t[..n], b, c);
      assert t[..n][b] == t[b];
      FlattenHoldsChain(t[..n], b);
      SwapPart(multiset(Flatten(t[..n])), multiset(t[b]), multiset(c), multiset(t[n]));
    }
  }

  lemma {:induction false} FlattenHoldsChain<K, V>(t: Table<K, V>, b: nat)
    requires b < |t|
    ensures multiset(t[b]) <= multiset(Flatten(t))
  {
    var n := |t| - 1;
    if b < n {
      FlattenHoldsChain(t[..n], b);
    }
  }

  lemma InFlatten<K, V>(t: Table<K, V>, b: nat, p: nat)
    requires b < |t| && p < |t[b]|
    ensures t[b][p] in multiset(Flatten(t))
  {
    FlattenHoldsChain(t, b);
    assert t[b][p] in multiset(t[b]);
  }

  /** The chain and position that position i of the flattened table comes from. */
  function FromPosition<K, V>(t: Table<K, V>, i: nat): (r: (nat, nat))
    requires i < |Flatten(t)|
    ensures r.0 < |t| && r.1 < |t[r.0]| && Flatten(t)[i] == t[r.0][r.1]
  {
    var n := |t| - 1;
    var front := Flatten(t[..n]);
    if i < |front| then FromPosition(t[..n], i) else (n, i - |front|)
  }

  /** Different positions of the flattened table come from different nodes. */
  lemma {:induction false} FromPositionInjective<K, V>(t: Table<K, V>, i: nat, j: nat)
    requires i < j < |Flatten(t)|
    ensures FromPosition(t, i) != FromPosition(t, j)
  {
    var n := |t| - 1;
    var front := Flatten(t[..n]);
    if j < |front| {
      FromPositionInjective(t[..n], i, j);
    }
  }

  /** The multiset of nodes of an empty table is empty. */
  lemma {:induction false} FlattenEmpty<K, V>(length: nat)
    ensures Flatten(EmptyTable<K, V>(length)) == []
  {
    if length > 0 {
      assert EmptyTable<K, V>(length)[..length - 1] == EmptyTable<K, V>(length - 1);
      FlattenEmpty<K, V>(length - 1);
    }
  }

  // ------------------------------------------------------------ invariant lemmas

  lemma EmptyTableValid<K, V>(length: nat, h1: K -> int, h2: K -> int)
    requires 0 < length
    ensures Valid(EmptyTable<K, V>(length), h1, h2) && NodeCount(EmptyTable<K, V>(length)) == 0
  {
    FlattenEmpty<K, V>(length);
  }

  /** Under the invariant, a key held by a chain is held by no other chain. */
  lemma OnlyOneBucket<K, V>(t: Table<K, V>, h1: K -> int, h2: K -> int, b: nat, p: nat, b': nat, p': nat)
    requires Valid(t, h1, h2)
    requires b < |t| && p < |t[b]| && b' < |t| && p' < |t[b']| && t[b][p].0 == t[b'][p'].0
    ensures b == b' && p == p'
  {
    var k := t[b][p].0;
    assert Home(t, h1, h2, k, b) && Home(t, h1, h2, k, b');
    assert HasKey(t[b'], k);
  }

  /** The flattened table lists every key once. */
  lemma ValidDistinct<K, V>(t: Table<K, V>, h1: K -> int, h2: K -> int)
    requires Valid(t, h1, h2)
    ensures DistinctKeys(Flatten(t))
  {
    var f := Flatten(t);
    forall i, j | 0 <= i < j < |f|
      ensures f[i].0 != f[j].0
    {
      var (b, p) := FromPosition(t, i);
      var (b', p') := FromPosition(t, j);
      FromPositionInjective(t, i, j);
      if f[i].0 == f[j].0 {
        OnlyOneBucket(t, h1, h2, b, p, b', p');
      }
    }
  }

  // ------------------------------------------------------------ chain edits

  lemma PrependHasKey<K, V>(c: Chain<K, V>, e: (K, V), k: K)
    ensures HasKey([e] + c, k) <==> e.0 == k || HasKey(c, k)
  {
    var c' := [e] + c;
    assert c'[0] == e;
    if HasKey(c, k) {
      var q :| 0 <= q < |c| && c[q].0 == k;
      assert c'[q + 1] == c[q];
    }
    if HasKey(c', k) && e.0 != k {
      var q :| 0 <= q < |c'| && c'[q].0 == k;
      assert q != 0;
      assert c[q - 1] == c'[q];
    }
  }

  lemma UpdateHasKey<K, V>(c: Chain<K, V>, p: nat, v: V, k: K)
    requires p < |c|
    ensures HasKey(c[p := (c[p].0, v)], k) <==> HasKey(c, k)
  {
    var c' := c[p := (c[p].0, v)];
    if HasKey(c, k) {
      var q :| 0 <= q < |c| && c[q].0 == k;
      assert c'[q].0 == k;
    }
    if HasKey(c', k) {
      var q :| 0 <= q < |c'| && c'[q].0 == k;
      assert c[q].0 == k;
    }
  }

  lemma RemoveAtHasKey<K, V>(c: Chain<K, V>, p: nat, k: K)
    requires p < |c| && UniqueKeys(c)
    ensures HasKey(RemoveAt(c, p), k) <==> HasKey(c, k) && k != c[p].0
    ensures UniqueKeys(RemoveAt(c, p))
  {
    var r := RemoveAt(c, p);
    assert forall q :: 0 <= q < |r| ==> r[q] == c[if q < p then q else q + 1];
    if HasKey(c, k) && k != c[p].0 {
      var q :| 0 <= q < |c| && c[q].0 == k;
      assert r[if q < p then q else q - 1].0 == k;
    }
  }

  /** A key missing from both candidate chains is missing from the whole table. */
  lemma AbsentEverywhere<K, V>(t: Table<K, V>, h1: K -> int, h2: K -> int, k: K)
    requires Valid(t, h1, h2)
    requires !HasKey(t[Bucket(h1(k), |t|)], k) && !HasKey(t[Bucket(h2(k), |t|)], k)
    ensures forall b, p :: 0 <= b < |t| && 0 <= p < |t[b]| ==> t[b][p].0 != k
  {
    forall b, p | 0 <= b < |t| && 0 <= p < |t[b]| && t[b][p].0 == k
      ensures false
    {
      assert Home(t, h1, h2, k, b);
      assert HasKey(t[b], k);
    }
  }

  /** Replacing chains by ones that hold the same keys keeps the invariant. */
  lemma SameKeysValid<K, V>(t: Table<K, V>, t': Table<K, V>, h1: K -> int, h2: K -> int)
    requires Valid(t, h1, h2) && |t'| == |t|
    requires forall b :: 0 <= b < |t| ==> |t'[b]| == |t[b]|
    requires forall b, p :: 0 <= b < |t| && 0 <= p < |t[b]| ==> t'[b][p].0 == t[b][p].0
    ensures Valid(t', h1, h2)
  {
    forall b, k | 0 <= b < |t|
      ensures HasKey(t'[b], k) <==> HasKey(t[b], k)
    {
      if HasKey(t[b], k) {
        var q :| 0 <= q < |t[b]| && t[b][q].0 == k;
        assert t'[b][q].0 == k;
      }
      if HasKey(t'[b], k) {
        var q :| 0 <= q < |t'[b]| && t'[b][q].0 == k;
        assert t[b][q].0 == k;
      }
    }
    forall b, p | 0 <= b < |t'| && 0 <= p < |t'[b]|
      ensures Home(t', h1, h2, t'[b][p].0, b)
    {
      assert Home(t, h1, h2, t[b][p].0, b);
    }
    forall b | 0 <= b < |t'|
      ensures UniqueKeys(t'[b])
    {
      assert UniqueKeys(t[b]);
    }
  }

  // ------------------------------------------------------------ put

  /** A fresh key prepended to one of its candidate chains keeps the invariant. */
  lemma PrependValid<K, V>(t: Table<K, V>, h1: K -> int, h2: K -> int, k: K, v: V, i: nat)
    requires Valid(t, h1, h2)
    requires !HasKey(t[Bucket(h1(k), |t|)], k) && !HasKey(t[Bucket(h2(k), |t|)], k)
    requires i == Bucket(h1(k), |t|) || i == Bucket(h2(k), |t|)
    ensures Valid(t[i := [(k, v)] + t[i]], h1, h2)
  {
    var t' := t[i := [(k, v)] + t[i]];
    AbsentEverywhere(t, h1, h2, k);
    forall x, k' | 0 <= x < |t| && k' != k
      ensures HasKey(t'[x], k') <==> HasKey(t[x], k')
    {
      if x == i {
        PrependHasKey(t[i], (k, v), k');
      }
    }
    forall b, p | 0 <= b < |t'| && 0 <= p < |t'[b]|
      ensures Home(t', h1, h2, t'[b][p].0, b)
    {
      if b == i && p == 0 {
        var i1 := Bucket(h1(k), |t|);
        var i2 := Bucket(h2(k), |t|);
        assert i1 != i ==> t'[i1] == t[i1];
        assert i2 != i ==> t'[i2] == t[i2];
      } else {
        var q := if b == i then p - 1 else p;
        assert t'[b][p] == t[b][q];
        assert Home(t, h1, h2, t[b][q].0, b);
      }
    }
    forall b | 0 <= b < |t'|
      ensures UniqueKeys(t'[b])
    {
      if b == i {
        assert UniqueKeys(t[i]);
        forall p, q | 0 <= p < q < |t'[i]|
          ensures t'[i][p].0 != t'[i][q].0
        {
          assert t'[i][q] == t[i][q - 1];
          if p > 0 {
            assert t'[i][p] == t[i][p - 1];
          }
        }
      } else {
        assert UniqueKeys(t[b]);
      }
    }
  }

  /** A value overwritten in place keeps the invariant. */
  lemma UpdateValid<K, V>(t: Table<K, V>, h1: K -> int, h2: K -> int, i: nat, p: nat, v: V)
    requires Valid(t, h1, h2) && i < |t| && p < |t[i]|
    ensures Valid(t[i := t[i][p := (t[i][p].0, v)]], h1, h2)
  {
    SameKeysValid(t, t[i := t[i][p := (t[i][p].0, v)]], h1, h2);
  }

  lemma PrependNodes<K, V>(t: Table<K, V>, i: nat, e: (K, V))
    requires i < |t|
    ensures multiset(Flatten(t[i := [e] + t[i]])) == multiset(Flatten(t)) + multiset{e}
    ensures NodeCount(t[i := [e] + t[i]]) == NodeCount(t) + 1
  {
    FlattenUpdate(t, i, [e] + t[i]);
    assert multiset([e] + t[i]) == multiset{e} + multiset(t[i]);
  }

  lemma UpdateNodes<K, V>(t: Table<K, V>, i: nat, p: nat, e: (K, V))
    requires i < |t| && p < |t[i]|
    ensures t[i][p] in multiset(Flatten(t))
    ensures multiset(Flatten(t[i := t[i][p := e]])) == multiset(Flatten(t)) - multiset{t[i][p]} + multiset{e}
    ensures NodeCount(t[i := t[i][p := e]]) == NodeCount(t)
  {
    FlattenUpdate(t, i, t[i][p := e]);
    InFlatten(t, i, p);
    UpdateMultiset(t[i], p, e);
  }

  lemma UpdateMultiset<T>(c: seq<T>, p: nat, e: T)
    requires p < |c|
    ensures multiset(c[p := e]) == multiset(c) - multiset{c[p]} + multiset{e}
  {
    assert c == c[..p] + [c[p]] + c[p + 1..];
    assert c[p := e] == c[..p] + [e] + c[p + 1..];
  }

  /**
   * put after the size check keeps every key once in a candidate chain. A key
   * absent from both candidates is added as a new node, and the node count
   * grows by one. A present key has its node's value replaced, the old value is
   * returned, and the count stays.
   */
  lemma InsertValid<K, V>(t: Table<K, V>, h1: K -> int, h2: K -> int, k: K, v: V)
    requires Valid(t, h1, h2)
    ensures var (t', previous) := Insert(t, h1, h2, k, v);
      && Valid(t', h1, h2)
      && (previous.None? ==> multiset(Flatten(t')) == multiset(Flatten(t)) + multiset{(k, v)})
      && (previous.None? ==> NodeCount(t') == NodeCount(t) + 1)
      && (previous.Some? ==> (k, previous.value) in multiset(Flatten(t)))
      && (previous.Some? ==>
            multiset(Flatten(t')) == multiset(Flatten(t)) - multiset{(k, previous.value)} + multiset{(k, v)})
      && (previous.Some? ==> NodeCount(t') == NodeCount(t))
  {
    var i1 := Bucket(h1(k), |t|);
    var i2 := Bucket(h2(k), |t|);
    var contains1 := Find(t[i1], k);
    var contains2 := Find(t[i2], k);
    if contains1.None? && contains2.None? {
      var i := if |t[i1]| <= |t[i2]| then i1 else i2;
      assert Insert(t, h1, h2, k, v) == (t[i := [(k, v)] + t[i]], None);
      PrependValid(t, h1, h2, k, v, i);
      PrependNodes(t, i, (k, v));
    } else {
      var i := if contains1.Some? && contains2.None? then i1 else i2;
      var p := if contains1.Some? && contains2.None? then contains1.value else contains2.value;
      assert t[i][p].0 == k;
      assert t[i][p] == (k, t[i][p].1);
      assert Insert(t, h1, h2, k, v) == (t[i := t[i][p := (k, v)]], Some(t[i][p].1));
      UpdateValid(t, h1, h2, i, p, v);
      UpdateNodes(t, i, p, (k, v));
    }
  }

  /** The invariant and node count after put, without the multiset detail. */
  lemma InsertKeepsValid<K, V>(t: Table<K, V>, h1: K -> int, h2: K -> int, k: K, v: V)
    requires Valid(t, h1, h2)
    ensures Valid(Insert(t, h1, h2, k, v).0, h1, h2)
    ensures NodeCount(Insert(t, h1, h2, k, v).0) == NodeCount(t) + (if Insert(t, h1, h2, k, v).1.None? then 1 else 0)
  {
    InsertValid(t, h1, h2, k, v);
  }

  // ------------------------------------------------------------ remove

  /** Unlinking one node keeps the invariant, and its key is then nowhere. */
  lemma RemoveAtValid<K, V>(t: Table<K, V>, h1: K -> int, h2: K -> int, i: nat, p: nat)
    requires Valid(t, h1, h2) && i < |t| && p < |t[i]|
    ensures Valid(t[i := RemoveAt(t[i], p)], h1, h2)
    ensures var t' := t[i := RemoveAt(t[i], p)];
      forall b, q :: 0 <= b < |t'| && 0 <= q < |t'[b]| ==> t'[b][q].0 != t[i][p].0
  {
    var k := t[i][p].0;
    var t' := t[i := RemoveAt(t[i], p)];
    assert UniqueKeys(t[i]);
    RemoveAtHasKey(t[i], p, k);
    forall x, k' | 0 <= x < |t|
      ensures HasKey(t'[x], k') ==> HasKey(t[x], k')
    {
      if x == i {
        RemoveAtHasKey(t[i], p, k');
      }
    }
    forall b, q | 0 <= b < |t'| && 0 <= q < |t'[b]|
      ensures Home(t', h1, h2, t'[b][q].0, b) && t'[b][q].0 != k
    {
      var q0 := if b == i && q >= p then q + 1 else q;
      assert t'[b][q] == t[b][q0];
      assert Home(t, h1, h2, t[b][q0].0, b);
      if b != i && t[b][q0].0 == k {
        OnlyOneBucket(t, h1, h2, i, p, b, q0);
      }
    }
  }

  lemma RemoveNodes<K, V>(t: Table<K, V>, i: nat, p: nat)
    requires i < |t| && p < |t[i]|
    ensures t[i][p] in multiset(Flatten(t))
    ensures multiset(Flatten(t[i := RemoveAt(t[i], p)])) == multiset(Flatten(t)) - multiset{t[i][p]}
    ensures NodeCount(t[i := RemoveAt(t[i], p)]) == NodeCount(t) - 1
  {
    var c := RemoveAt(t[i], p);
    FlattenUpdate(t, i, c);
    InFlatten(t, i, p);
    FlattenHoldsChain(t, i);
    RemoveAtMultiset(t[i], p);
    SwapOut(multiset(Flatten(t)), multiset(t[i]), t[i][p]);
  }

  /** Unlinking the node at p takes one copy of it out of the chain. */
  lemma RemoveAtMultiset<K, V>(chain: Chain<K, V>, p: nat)
    requires p < |chain|
    ensures chain[p] in multiset(chain)
    ensures multiset(RemoveAt(chain, p)) == multiset(chain) - multiset{chain[p]}
  {
    assert chain == chain[..p] + [chain[p]] + chain[p + 1..];
  }

  /** Replacing a part x of a by c, then adding y, is adding y first. */
  lemma SwapPart<T>(a: multiset<T>, x: multiset<T>, c: multiset<T>, y: multiset<T>)
    requires x <= a
    ensures a - x + c + y == a + y - x + c
  {
  }

  /** Replacing a part c of m by c less one x takes that x out of m. */
  lemma SwapOut<T>(m: multiset<T>, c: multiset<T>, x: T)
    requires c <= m && x in c
    ensures m - c + (c - multiset{x}) == m - multiset{x}
  {
  }

  /**
   * remove of a key held by neither candidate changes nothing, and then the key
   * is nowhere in the table. Otherwise exactly one node with that key goes, and
   * the invariant holds of what is left.
   */
  lemma RemoveValid<K, V>(t: Table<K, V>, h1: K -> int, h2: K -> int, k: K)
    requires Valid(t, h1, h2)
    ensures var (t', removed) := Remove(t, h1, h2, k);
      && Valid(t', h1, h2)
      && (!removed ==> t' == t)
      && (removed ==> exists v :: (k, v) in multiset(Flatten(t))
                             && multiset(Flatten(t')) == multiset(Flatten(t)) - multiset{(k, v)})
      && (removed ==> NodeCount(t') == NodeCount(t) - 1)
      && forall b, p :: 0 <= b < |t'| && 0 <= p < |t'[b]| ==> t'[b][p].0 != k
  {
    var i1 := Bucket(h1(k), |t|);
    var i2 := Bucket(h2(k), |t|);
    var contains1 := Find(t[i1], k);
    var contains2 := Find(t[i2], k);
    if contains1.None? && contains2.None? {
      AbsentEverywhere(t, h1, h2, k);
    } else {
      var i := if contains1.Some? && contains2.None? then i1 else i2;
      var p := if contains1.Some? && contains2.None? then contains1.value else contains2.value;
      assert t[i][p] == (k, t[i][p].1);
      assert Remove(t, h1, h2, k) == (t[i := RemoveAt(t[i], p)], true);
      RemoveAtValid(t, h1, h2, i, p);
      RemoveNodes(t, i, p);
    }
  }

  /** The invariant and node count after remove, without the multiset detail. */
  lemma RemoveKeepsValid<K, V>(t: Table<K, V>, h1: K -> int, h2: K -> int, k: K)
    requires Valid(t, h1, h2)
    ensures Valid(Remove(t, h1, h2, k).0, h1, h2)
    ensures NodeCount(Remove(t, h1, h2, k).0) == NodeCount(t) - (if Remove(t, h1, h2, k).1 then 1 else 0)
  {
    RemoveValid(t, h1, h2, k);
  }

  // ------------------------------------------------------------ rehash

  /** The keys of a node sequence. */
  predicate KeyIn<K(==), V>(entries: seq<(K, V)>, k: K) {
    exists j :: 0 <= j < |entries| && entries[j].0 == k
  }

  /** A key that no node of the multiset carries is in no chain. */
  lemma KeyNotInTable<K, V>(t: Table<K, V>, k: K)
    requires forall e :: e in multiset(Flatten(t)) ==> e.0 != k
    ensures forall b, p :: 0 <= b < |t| && 0 <= p < |t[b]| ==> t[b][p].0 != k
  {
    forall b, p | 0 <= b < |t| && 0 <= p < |t[b]|
      ensures t[b][p].0 != k
    {
      InFlatten(t, b, p);
    }
  }

  lemma KeyNotInFlatten<K, V>(t: Table<K, V>, k: K)
    requires forall b, p :: 0 <= b < |t| && 0 <= p < |t[b]| ==> t[b][p].0 != k
    ensures forall e :: e in multiset(Flatten(t)) ==> e.0 != k
  {
    forall e | e in multiset(Flatten(t))
      ensures e.0 != k
    {
      var i :| 0 <= i < |Flatten(t)| && Flatten(t)[i] == e;
      var (b, p) := FromPosition(t, i);
    }
  }

  /** tempHash.put of a key no node carries adds exactly that node. */
  lemma InsertFresh<K, V>(t: Table<K, V>, h1: K -> int, h2: K -> int, e: (K, V), t': Table<K, V>)
    requires Valid(t, h1, h2)
    requires forall e' :: e' in multiset(Flatten(t)) ==> e'.0 != e.0
    requires t' == Insert(t, h1, h2, e.0, e.1).0
    ensures Valid(t', h1, h2)
    ensures multiset(Flatten(t')) == multiset(Flatten(t)) + multiset{e}
  {
    KeyNotInTable(t, e.0);
    assert !HasKey(t[Bucket(h1(e.0), |t|)], e.0) && !HasKey(t[Bucket(h2(e.0), |t|)], e.0);
    InsertValid(t, h1, h2, e.0, e.1);
    assert (e.0, e.1) == e;
  }

  /** The last node to reinsert carries a key no node placed before it carries. */
  lemma LastIsFresh<K, V>(acc: Table<K, V>, t: Table<K, V>, entries: seq<(K, V)>)
    requires entries != [] && DistinctKeys(entries)
    requires forall e, j :: e in multiset(Flatten(acc)) && 0 <= j < |entries| ==> e.0 != entries[j].0
    requires multiset(Flatten(t)) == multiset(Flatten(acc)) + multiset(entries[..|entries| - 1])
    ensures forall e :: e in multiset(Flatten(t)) ==> e.0 != entries[|entries| - 1].0
  {
    var n := |entries| - 1;
    forall e | e in multiset(Flatten(t))
      ensures e.0 != entries[n].0
    {
      if e !in multiset(Flatten(acc)) {
        assert e in multiset(entries[..n]);
        var j :| 0 <= j < n && entries[..n][j] == e;
        assert entries[j] == e;
      }
    }
  }

  /** The last reinsertion, of a fresh key, adds exactly its node. */
  lemma ReinsertLast<K, V>(acc: Table<K, V>, h1: K -> int, h2: K -> int, entries: seq<(K, V)>, t: Table<K, V>, t': Table<K, V>)
    requires 0 < |acc| && entries != []
    requires t == ReinsertAll(acc, h1, h2, entries[..|entries| - 1]) && t' == ReinsertAll(acc, h1, h2, entries)
    requires Valid(t, h1, h2)
    requires forall e :: e in multiset(Flatten(t)) ==> e.0 != entries[|entries| - 1].0
    ensures Valid(t', h1, h2)
    ensures multiset(Flatten(t')) == multiset(Flatten(t)) + multiset{entries[|entries| - 1]}
  {
    var last := entries[|entries| - 1];
    assert t' == Insert(t, h1, h2, last.0, last.1).0;
    InsertFresh(t, h1, h2, last, t');
  }

  /** Reinserting one more node of the current chain is one more put. */
  lemma ReinsertNext<K, V>(acc: Table<K, V>, h1: K -> int, h2: K -> int, prefix: seq<(K, V)>, chain: Chain<K, V>, j: nat,
                           t: Table<K, V>, t': Table<K, V>)
    requires 0 < |acc| && j < |chain|
    requires t == ReinsertAll(acc, h1, h2, prefix + chain[..j])
    requires t' == ReinsertAll(acc, h1, h2, prefix + chain[..j + 1])
    ensures t' == Insert(t, h1, h2, chain[j].0, chain[j].1).0
  {
    SnocSlice(prefix, chain, j);
    ReinsertSnoc(acc, h1, h2, prefix + chain[..j], chain[j]);
  }

  /** Taking one more element of the chain appends it. */
  lemma SnocSlice<T>(prefix: seq<T>, chain: seq<T>, j: nat)
    requires j < |chain|
    ensures prefix + chain[..j + 1] == (prefix + chain[..j]) + [chain[j]]
  {
    assert chain[..j + 1] == chain[..j] + [chain[j]];
  }

  /** Reinserting entries and then one more is one more put. */
  lemma ReinsertSnoc<K, V>(acc: Table<K, V>, h1: K -> int, h2: K -> int, entries: seq<(K, V)>, e: (K, V))
    requires 0 < |acc|
    ensures ReinsertAll(acc, h1, h2, entries + [e]) == Insert(ReinsertAll(acc, h1, h2, entries), h1, h2, e.0, e.1).0
  {
    assert (entries + [e])[..|entries|] == entries;
  }

  /** One more bucket of the old table: its chain follows what came before. */
  lemma FlattenNextBucket<K, V>(t: Table<K, V>, index: nat)
    requires index < |t|
    ensures Flatten(t[..index + 1]) == Flatten(t[..index]) + t[index]
    ensures |Flatten(t[..index + 1])| <= NodeCount(t)
  {
    assert t[..index + 1][..index] == t[..index];
    FlattenGrows(t, index + 1, |t|);
    assert t[..|t|] == t;
  }

  lemma MultisetOfLast<T>(s: seq<T>)
    requires s != []
    ensures multiset(s) == multiset(s[..|s| - 1]) + multiset{s[|s| - 1]}
  {
    assert s == s[..|s| - 1] + [s[|s| - 1]];
  }

  /** Reinserting nodes with distinct fresh keys adds exactly those nodes. */
  lemma {:induction false} ReinsertAllValid<K, V>(acc: Table<K, V>, h1: K -> int, h2: K -> int, entries: seq<(K, V)>, t': Table<K, V>)
    requires Valid(acc, h1, h2) && DistinctKeys(entries)
    requires forall e, j :: e in multiset(Flatten(acc)) && 0 <= j < |entries| ==> e.0 != entries[j].0
    requires t' == ReinsertAll(acc, h1, h2, entries)
    ensures Valid(t', h1, h2)
    ensures multiset(Flatten(t')) == multiset(Flatten(acc)) + multiset(entries)
  {
    if entries != [] {
      var n := |entries| - 1;
      var front := entries[..n];
      assert forall j :: 0 <= j < n ==> front[j] == entries[j];
      var t: Table<K, V> := ReinsertAll(acc, h1, h2, front);
      ReinsertAllValid(acc, h1, h2, front, t);
      LastIsFresh(acc, t, entries);
      ReinsertLast(acc, h1, h2, entries, t, t');
      MultisetOfLast(entries);
    }
  }

  /**
   * rehash keeps every node, and only those, in an array four times as long,
   * with every key once in one of its candidates for that new length.
   */
  lemma RehashValid<K, V>(t: Table<K, V>, h1: K -> int, h2: K -> int)
    requires Valid(t, h1, h2)
    ensures Valid(Rehash(t, h1, h2), h1, h2)
    ensures multiset(Flatten(Rehash(t, h1, h2))) == multiset(Flatten(t))
    ensures NodeCount(Rehash(t, h1, h2)) == NodeCount(t)
  {
    var empty := EmptyTable<K, V>(4 * |t|);
    EmptyTableValid<K, V>(4 * |t|, h1, h2);
    ValidDistinct(t, h1, h2);
    ReinsertAllValid(empty, h1, h2, Flatten(t), Rehash(t, h1, h2));
    FlattenEmpty<K, V>(4 * |t|);
    assert multiset(Flatten(Rehash(t, h1, h2))) == multiset(Flatten(t));
    assert |Flatten(Rehash(t, h1, h2))| == |multiset(Flatten(Rehash(t, h1, h2)))|;
  }

  // ------------------------------------------------------------ get, getLengths

  /** What get returns is the value of a node of the table. */
  lemma GetSound<K, V>(t: Table<K, V>, h1: K -> int, h2: K -> int, k: K)
    requires 0 < |t| && Get(t, h1, h2, k).Some?
    ensures (k, Get(t, h1, h2, k).value) in multiset(Flatten(t))
  {
    var b := MinBucket(t, h1, h2, k);
    var p :| 0 <= p < |t[b]| && t[b][p] == (k, Get(t, h1, h2, k).value);
    InFlatten(t, b, p);
  }

  /** A hash function sending every key to chain 0. */
  function ToFirstChain(k: int): int { 0 }

  /** A hash function sending every key to chain 1. */
  function ToSecondChain(k: int): int { 1 }

  /**
   * get can miss a stored key: with every key hashed to chain 0 first and chain 1
   * second, a put into an empty map lands in chain 0, after which chain 1 is the
   * shorter one and the lookup searches only there.
   */
  lemma GetMissesFreshlyPutKey()
    ensures var (t', previous) := Put(EmptyTable<int, int>(DefaultArraySize), 0, ToFirstChain, ToSecondChain, 7, 42);
      && previous.None?
      && (7, 42) in multiset(Flatten(t'))
      && Get(t', ToFirstChain, ToSecondChain, 7).None?
  {
    var t := EmptyTable<int, int>(DefaultArraySize);
    assert Bucket(ToFirstChain(7), |t|) == 0 && Bucket(ToSecondChain(7), |t|) == 1;
    assert !HasKey(t[0], 7) && !HasKey(t[1], 7);
    var t' := t[0 := [(7, 42)] + t[0]];
    assert Put(t, 0, ToFirstChain, ToSecondChain, 7, 42) == (t', None);
    InFlatten(t', 0, 0);
    assert MinBucket(t', ToFirstChain, ToSecondChain, 7) == 1;
    assert !HasKey(t'[1], 7);
  }

  /** One more chain adds one to the count of its own length only. */
  lemma {:induction false} SumOfCountsOfLast<K, V>(t: Table<K, V>, n: nat)
    requires t != []
    ensures SumOfCounts(t, n) == SumOfCounts(t[..|t| - 1], n) + (if |t[|t| - 1]| < n then 1 else 0)
  {
    if n > 0 {
      SumOfCountsOfLast(t, n - 1);
    }
  }

  /** When every chain is shorter than n, the counts of lengths below n add up to the number of chains. */
  lemma {:induction false} CountsCoverAllChains<K, V>(t: Table<K, V>, n: nat)
    requires forall b :: 0 <= b < |t| ==> |t[b]| < n
    ensures SumOfCounts(t, n) == |t|
  {
    if t == [] {
      ZeroCounts<K, V>(n);
    } else {
      CountsCoverAllChains(t[..|t| - 1], n);
      SumOfCountsOfLast(t, n);
    }
  }

  lemma {:induction false} ZeroCounts<K, V>(n: nat)
    ensures SumOfCounts<K, V>([], n) == 0
  {
    if n > 0 {
      ZeroCounts<K, V>(n - 1);
    }
  }

  // ------------------------------------------------------------ iteration order

  lemma {:induction false} FlattenPrefixAt<K, V>(t: Table<K, V>, b: nat, o: nat)
    requires b < |t| && o < |t[b]|
    ensures |Flatten(t[..b])| + o < |Flatten(t)|
    ensures Flatten(t)[|Flatten(t[..b])| + o] == t[b][o]
  {
    var n := |t| - 1;
    assert t[..n + 1] == t;
    FlattenGrows(t, b + 1, n + 1);
    assert t[..b + 1][..b] == t[..b];
    assert Flatten(t[..b + 1]) == Flatten(t[..b]) + t[b];
  }

  /** The flattening of a longer prefix extends that of a shorter one. */
  lemma {:induction false} FlattenGrows<K, V>(t: Table<K, V>, i: nat, j: nat)
    requires i <= j <= |t|
    ensures Flatten(t[..i]) <= Flatten(t[..j])
  {
    if i < j {
      FlattenGrows(t, i, j - 1);
      assert t[..j][..j - 1] == t[..j - 1];
    }
  }

  /** Empty chains add nothing to the flattening. */
  lemma FlattenSkipsEmpty<K, V>(t: Table<K, V>, b: nat)
    requires b < |t| && t[b] == []
    ensures Flatten(t[..b + 1]) == Flatten(t[..b])
  {
    assert t[..b + 1][..b] == t[..b];
  }
}
