/**
 * ListDoubleEndedPriorityQueue.java: a doubly linked list kept in
 * nondecreasing order, so that the least element is at `first` and the
 * greatest at `last`.
 */
module ListDepq {
  import opened Wrappers
  import opened DoubleEndedPriorityQueue

  /** Where add puts x: before the first element that is at least x, or at the end. */
  function InsertPoint(s: seq<int>, x: int): (i: nat)
    ensures i <= |s|
    ensures forall q :: 0 <= q < i ==> s[q] < x
    ensures i < |s| ==> x <= s[i]
  {
    if s == [] || x <= s[0] then 0 else 1 + InsertPoint(s[1..], x)
  }

  /** The insertion point is the only position with those two properties. */
  lemma {:induction false} InsertPointUnique(s: seq<int>, x: int, i: nat)
    requires i <= |s|
    requires forall q :: 0 <= q < i ==> s[q] < x
    requires i < |s| ==> x <= s[i]
    ensures InsertPoint(s, x) == i
  {
    if i == 0 {
      if s != [] {
        assert x <= s[0];
      }
    } else {
      assert s[0] < x;
      InsertPointUnique(s[1..], x, i - 1);
    }
  }

  /** The list after add(x). */
  function Inserted(s: seq<int>, x: int): (r: seq<int>)
    ensures |r| == |s| + 1
  {
    var i := InsertPoint(s, x);
    s[..i] + [x] + s[i..]
  }

  /** add keeps the list nondecreasing. */
  lemma InsertedIsSorted(s: seq<int>, x: int)
    requires Sorted(s)
    ensures Sorted(Inserted(s, x))
  {
    var i := InsertPoint(s, x);
    var r := Inserted(s, x);
    forall a, b | 0 <= a < b < |r|
      ensures r[a] <= r[b]
    {
      if a < i && b == i {
        assert r[a] == s[a] && s[a] < x;
      } else if a == i && i < b {
        assert r[b] == s[b - 1] && x <= s[i] <= s[b - 1];
      }
    }
  }

  /** add adds exactly one x to the multiset of elements. */
  lemma InsertedAddsOne(s: seq<int>, x: int)
    ensures multiset(Inserted(s, x)) == multiset(s) + multiset{x}
  {
    var i := InsertPoint(s, x);
    assert s == s[..i] + s[i..];
  }

  /**
   * The contract of the double-ended priority queue, for the list: deleteMin
   * returns a least element and takes one copy of it away, deleteMax a
   * greatest, and add puts one x in, keeping the order.
   */
  lemma ListMeetsContract(s: seq<int>, x: int)
    requires Sorted(s)
    ensures s != [] ==> IsMin(multiset(s), s[0]) && multiset(s[1..]) == multiset(s) - multiset{s[0]}
    ensures s != [] ==> IsMax(multiset(s), s[|s| - 1]) && multiset(s[..|s| - 1]) == multiset(s) - multiset{s[|s| - 1]}
    ensures Sorted(Inserted(s, x)) && multiset(Inserted(s, x)) == multiset(s) + multiset{x}
  {
    if s != [] {
      SortedFirstIsMin(s);
      SortedLastIsMax(s);
      SortedTails(s);
    }
    InsertedIsSorted(s, x);
    InsertedAddsOne(s, x);
  }

  /** No element occurs twice. */
  predicate Distinct<T(==)>(s: seq<T>) {
    forall i, j :: 0 <= i < j < |s| ==> s[i] != s[j]
  }

  /** Putting a new element in keeps a sequence free of repetitions. */
  lemma DistinctSplice<T>(s: seq<T>, x: T, p: nat)
    requires Distinct(s) && x !in s && p <= |s|
    ensures Distinct(s[..p] + [x] + s[p..])
  {
    var r := s[..p] + [x] + s[p..];
    forall i, j | 0 <= i < j < |r|
      ensures r[i] != r[j]
    {
      if i != p && j != p {
        var oi := if i < p then i else i - 1;
        var oj := if j < p then j else j - 1;
        assert r[i] == s[oi] && r[j] == s[oj] && oi < oj;
      } else if i == p {
        assert r[j] == s[j - 1];
      } else {
        assert r[i] == s[i];
      }
    }
  }

  /** Putting x in at position p adds x and nothing else. */
  lemma SpliceMembers<T>(s: seq<T>, x: T, p: nat)
    requires p <= |s|
    ensures forall n :: n in s[..p] + [x] + s[p..] ==> n in s || n == x
  {
    assert s == s[..p] + s[p..];
  }

  /** Consecutive nodes point at each other both ways, and no node occurs twice. */
  ghost predicate Chained(ns: seq<Node>)
    reads ns
  {
    && (forall i {:trigger ns[i].next} :: 0 <= i < |ns| - 1 ==> ns[i].next == ns[i + 1])
    && (forall i {:trigger ns[i].prev} :: 0 < i < |ns| ==> ns[i].prev == ns[i - 1])
    && Distinct(ns)
  }

  /** The i-th node holds the i-th element. */
  ghost predicate Holds(ns: seq<Node>, cs: seq<int>)
    reads ns
  {
    |ns| == |cs| && forall i {:trigger ns[i].data} :: 0 <= i < |ns| ==> ns[i].data == cs[i]
  }

  /**
   * Linking temp in between the k-th and the (k+1)-th node of a well-chained
   * sequence, leaving every other node's links alone, chains the longer sequence.
   */
  twostate lemma SpliceChained(on: seq<Node>, new temp: Node, new k: nat)
    requires k + 1 < |on| && old(Chained(on)) && temp !in on
    requires forall i {:trigger on[i]} :: 0 <= i < |on| && i != k && i != k + 1 ==> on[i].next == old(on[i].next) && on[i].prev == old(on[i].prev)
    requires on[k].next == temp && temp.prev == on[k] && on[k + 1].prev == temp && temp.next == on[k + 1]
    requires on[k].prev == old(on[k].prev) && on[k + 1].next == old(on[k + 1].next)
    ensures Chained(on[..k + 1] + [temp] + on[k + 1..])
  {
    DistinctSplice(on, temp, k + 1);
    SpliceForward(on, temp, k);
    SpliceBackward(on, temp, k);
  }

  /** The next links of the splice. */
  twostate lemma SpliceForward(on: seq<Node>, new temp: Node, new k: nat)
    requires k + 1 < |on| && old(Chained(on))
    requires forall i {:trigger on[i]} :: 0 <= i < |on| && i != k && i != k + 1 ==> on[i].next == old(on[i].next)
    requires on[k].next == temp && temp.next == on[k + 1] && on[k + 1].next == old(on[k + 1].next)
    ensures var ns := on[..k + 1] + [temp] + on[k + 1..];
      forall i {:trigger ns[i].next} :: 0 <= i < |ns| - 1 ==> ns[i].next == ns[i + 1]
  {
    var ns := on[..k + 1] + [temp] + on[k + 1..];
    forall i | 0 <= i < |ns| - 1
      ensures ns[i].next == ns[i + 1]
    {
      if i < k {
        assert ns[i] == on[i] && ns[i + 1] == on[i + 1];
      } else if k + 1 < i {
        assert ns[i] == on[i - 1] && ns[i + 1] == on[i];
      }
    }
  }

  /** The prev links of the splice. */
  twostate lemma SpliceBackward(on: seq<Node>, new temp: Node, new k: nat)
    requires k + 1 < |on| && old(Chained(on))
    requires forall i {:trigger on[i]} :: 0 <= i < |on| && i != k && i != k + 1 ==> on[i].prev == old(on[i].prev)
    requires temp.prev == on[k] && on[k + 1].prev == temp && on[k].prev == old(on[k].prev)
    ensures var ns := on[..k + 1] + [temp] + on[k + 1..];
      forall i {:trigger ns[i].prev} :: 0 < i < |ns| ==> ns[i].prev == ns[i - 1]
  {
    var ns := on[..k + 1] + [temp] + on[k + 1..];
    forall i | 0 < i < |ns|
      ensures ns[i].prev == ns[i - 1]
    {
      if i <= k {
        assert ns[i] == on[i] && ns[i - 1] == on[i - 1];
      } else if k + 2 < i {
        assert ns[i] == on[i - 1] && ns[i - 1] == on[i - 2];
      }
    }
  }

  /** The same splice, for the data: every old node keeps its element. */
  twostate lemma SpliceHolds(on: seq<Node>, new cs: seq<int>, new temp: Node, new k: nat)
    requires k + 1 < |on| && old(Holds(on, cs))
    requires forall i {:trigger on[i]} :: 0 <= i < |on| ==> on[i].data == old(on[i].data)
    ensures Holds(on[..k + 1] + [temp] + on[k + 1..], cs[..k + 1] + [temp.data] + cs[k + 1..])
  {
    var ns := on[..k + 1] + [temp] + on[k + 1..];
    var ds := cs[..k + 1] + [temp.data] + cs[k + 1..];
    forall i | 0 <= i < |ns|
      ensures ns[i].data == ds[i]
    {
      if i <= k {
        assert ns[i] == on[i] && ds[i] == cs[i];
      } else if k + 1 < i {
        assert ns[i] == on[i - 1] && ds[i] == cs[i - 1];
      }
    }
  }

  class Node {
    var data: int
    var prev: Node?
    var next: Node?

    constructor(d: int, p: Node?, n: Node?)
      ensures data == d && prev == p && next == n
    {
      data := d;
      prev := p;
      next := n;
    }
  }

  class ListDoubleEndedPriorityQueue {
    var first: Node?
    var last: Node?
    /** The nodes from first to last. */
    ghost var nodes: seq<Node>
    /** Their data, in the same order. */
    ghost var contents: seq<int>

    /**
     * The nodes are distinct and linked both ways, first.prev and last.next are
     * null, first and last are null together, and each node holds its element.
     */
    ghost predicate Linked()
      reads this, nodes
    {
      && (nodes == [] ==> first == null && last == null)
      && (nodes != [] ==> first == nodes[0] && last == nodes[|nodes| - 1])
      && (nodes != [] ==> nodes[0].prev == null && nodes[|nodes| - 1].next == null)
      && Chained(nodes)
      && Holds(nodes, contents)
    }

    /** The list invariant: well linked, and nondecreasing from first to last. */
    ghost predicate Valid()
      reads this, nodes
    {
      Linked() && Sorted(contents)
    }

    ghost function Elements(): multiset<int>
      reads this
    {
      multiset(contents)
    }

    constructor()
      ensures Valid() && contents == []
    {
      first := null;
      last := null;
      nodes := [];
      contents := [];
    }

    method MakeEmpty()
      modifies this
      ensures Valid() && contents == []
    {
      first := null;
      last := null;
      nodes := [];
      contents := [];
    }

    /** add: link a new node in before the first node whose data is at least x. */
    method Add(x: int)
      requires Valid()
      modifies this, nodes
      ensures Valid()
      ensures contents == Inserted(old(contents), x)
      ensures forall n :: n in nodes ==> n in old(nodes) || fresh(n)
    {
      InsertedIsSorted(contents, x);
      ghost var want := Inserted(contents, x);
      var temp := new Node(x, null, null);
      if last == null && first == null {
        first := temp;
        last := temp;
        nodes := [temp];
        contents := [x];
        return;
      }
      if x <= first.data {
        InsertPointUnique(contents, x, 0);
        assert want == [x] + contents;
        Prepend(temp);
        return;
      }
      AddAfterFirst(temp);
    }

    /** The case of add past the first node: search, then splice temp in or append a new node. */
    method AddAfterFirst(temp: Node)
      requires Valid() && nodes != [] && contents[0] < temp.data
      requires temp !in nodes && temp.prev == null && temp.next == null
      modifies this, nodes, temp
      ensures Valid()
      ensures contents == Inserted(old(contents), old(temp.data))
      ensures forall n :: n in nodes ==> n in old(nodes) || fresh(n) || n == temp
    {
      var x := temp.data;
      InsertedIsSorted(contents, x);
      ghost var want := Inserted(contents, x);
      var head, k := Locate(x);
      var current := head.next;
      if current != null {
        InsertPointUnique(contents, x, k + 1);
        Splice(head, temp, current, k);
      } else {
        InsertPointUnique(contents, x, |contents|);
        assert want == contents + [x];
        Append(x);
      }
    }

    /** The front case of add: temp becomes first. */
    method Prepend(temp: Node)
      requires Linked() && nodes != [] && temp !in nodes && temp.prev == null && temp.next == null
      modifies this, temp, first
      ensures nodes == [temp] + old(nodes) && contents == [old(temp.data)] + old(contents)
      ensures Linked()
      ensures forall n :: n in nodes ==> n in old(nodes) || n == temp
    {
      ghost var on := nodes;
      temp.next := first;
      first.prev := temp;
      first := temp;
      nodes := [temp] + nodes;
      contents := [temp.data] + contents;
      assert forall i {:trigger on[i]} :: 0 < i < |on| ==> on[i] != on[0];
    }

    /**
     * The search loop of add, which moves head along while the data after it
     * is less than x. It stops at the last node, or before a node whose data
     * is at least x.
     */
    method Locate(x: int) returns (head: Node, ghost k: nat)
      requires Linked() && nodes != [] && contents[0] < x
      ensures k < |nodes| && head == nodes[k]
      ensures forall q :: 0 <= q <= k ==> contents[q] < x
      ensures head.next == null <==> k == |nodes| - 1
      ensures k + 1 < |nodes| ==> x <= contents[k + 1]
    {
      head := first;
      k := 0;
      while head.next != null && head.next.data < x
        invariant k < |nodes| && head == nodes[k]
        invariant forall q :: 0 <= q <= k ==> contents[q] < x
        decreases |nodes| - k
      {
        head := head.next;
        k := k + 1;
      }
    }

    /** The middle case of add: link temp in between the k-th node head and its successor. */
    method Splice(head: Node, temp: Node, current: Node, ghost k: nat)
      requires Linked() && k + 1 < |nodes| && head == nodes[k] && current == nodes[k + 1]
      requires temp !in nodes && temp.prev == null && temp.next == null
      modifies head, temp, current, this
      ensures nodes == old(nodes[..k + 1] + [temp] + nodes[k + 1..])
      ensures contents == old(contents[..k + 1] + [temp.data] + contents[k + 1..])
      ensures Linked()
      ensures forall n :: n in nodes ==> n in old(nodes) || n == temp
    {
      ghost var on := nodes;
      ghost var oc := contents;
      Link(head, temp, current);
      nodes := on[..k + 1] + [temp] + on[k + 1..];
      contents := oc[..k + 1] + [temp.data] + oc[k + 1..];
      SpliceLinked(on, oc, temp, k);
      SpliceMembers(on, temp, k + 1);
    }

    /** Linking temp in after the k-th node keeps the list well linked. */
    twostate lemma SpliceLinked(on: seq<Node>, new oc: seq<int>, new temp: Node, new k: nat)
      requires old(Linked()) && on == old(nodes) && oc == old(contents) && k + 1 < |on| && temp !in on
      requires nodes == on[..k + 1] + [temp] + on[k + 1..] && contents == oc[..k + 1] + [temp.data] + oc[k + 1..]
      requires first == old(first) && last == old(last)
      requires forall i :: 0 <= i < |on| && on[i] != on[k] && on[i] != on[k + 1] ==> on[i].next == old(on[i].next) && on[i].prev == old(on[i].prev) && on[i].data == old(on[i].data)
      requires on[k].next == temp && temp.prev == on[k] && on[k + 1].prev == temp && temp.next == on[k + 1]
      requires on[k].prev == old(on[k].prev) && on[k + 1].next == old(on[k + 1].next)
      requires on[k].data == old(on[k].data) && on[k + 1].data == old(on[k + 1].data)
      ensures Linked()
    {
      forall i | 0 <= i < |on| && i != k && i != k + 1
        ensures on[i].next == old(on[i].next) && on[i].prev == old(on[i].prev) && on[i].data == old(on[i].data)
      {
        assert on[i] != on[k] && on[i] != on[k + 1];
      }
      SpliceChained(on, temp, k);
      SpliceHolds(on, oc, temp, k);
      assert nodes[0] == on[0] && nodes[|nodes| - 1] == on[|on| - 1];
    }

    /** The four link updates of the middle case of add. */
    static method Link(head: Node, temp: Node, current: Node)
      requires head != temp && temp != current && head != current
      modifies head, temp, current
      ensures head.next == temp && temp.prev == head && current.prev == temp && temp.next == current
      ensures head.prev == old(head.prev) && current.next == old(current.next)
      ensures head.data == old(head.data) && temp.data == old(temp.data) && current.data == old(current.data)
    {
      head.next := temp;
      temp.prev := head;
      current.prev := temp;
      temp.next := current;
    }

    /** The last case of add: a new node after last. */
    method Append(x: int)
      requires Valid() && nodes != []
      modifies this, last
      ensures |nodes| == |old(nodes)| + 1
      ensures nodes[..|nodes| - 1] == old(nodes) && fresh(nodes[|nodes| - 1])
      ensures contents == old(contents) + [x]
      ensures Sorted(contents) ==> Valid()
      ensures forall n :: n in nodes ==> n in old(nodes) || fresh(n)
    {
      var tail := new Node(x, last, null);
      last.next := tail;
      last := tail;
      nodes := nodes + [tail];
      contents := contents + [x];
    }

    /** deleteMin: unlink first; None is the UnderflowException of an empty list. */
    method DeleteMin() returns (r: Option<int>)
      requires Valid()
      modifies this, nodes
      ensures Valid()
      ensures old(contents) == [] ==> r.None? && contents == []
      ensures old(contents) != [] ==> r == Some(old(contents)[0]) && contents == old(contents)[1..]
      ensures nodes <= old(nodes) || nodes == old(nodes)[1..]
    {
      if first == null || last == null {
        return None;
      }
      var data := first.data;
      if first.next != null {
        assert first.next == nodes[1];
        first := first.next;
        first.prev := null;
      } else {
        first := null;
        last := null;
      }
      nodes := nodes[1..];
      contents := contents[1..];
      return Some(data);
    }

    /** deleteMax: unlink last; None is the UnderflowException of an empty list. */
    method DeleteMax() returns (r: Option<int>)
      requires Valid()
      modifies this, nodes
      ensures Valid()
      ensures old(contents) == [] ==> r.None? && contents == []
      ensures old(contents) != [] ==> r == Some(old(contents)[|old(contents)| - 1]) && contents == old(contents)[..|old(contents)| - 1]
      ensures nodes <= old(nodes)
    {
      if first == null && last == null {
        return None;
      }
      var data := last.data;
      if last.prev != null {
        assert last.prev == nodes[|nodes| - 2];
        last := last.prev;
        last.next := null;
      } else {
        last := null;
        first := null;
      }
      nodes := nodes[..|nodes| - 1];
      contents := contents[..|contents| - 1];
      return Some(data);
    }

    /** findMin: the data of first; unlike deleteMin, the Java code checks no underflow and dereferences a null first. */
    method FindMin() returns (x: int)
      requires Valid() && contents != []
      ensures x == contents[0] && IsMin(Elements(), x)
    {
      SortedFirstIsMin(contents);
      x := first.data;
    }

    /** findMax: the data of last; unlike deleteMax, the Java code checks no underflow and dereferences a null last. */
    method FindMax() returns (x: int)
      requires Valid() && contents != []
      ensures x == contents[|contents| - 1] && IsMax(Elements(), x)
    {
      SortedLastIsMax(contents);
      x := last.data;
    }

    method IsEmpty() returns (empty: bool)
      requires Valid()
      ensures empty <==> Elements() == multiset{}
    {
      empty := first == null && last == null;
      if !empty {
        assert contents[0] in Elements();
      }
    }

    /** The elements in the order toString lists them: from first along next. */
    method ToSequence() returns (s: seq<int>)
      requires Valid()
      ensures s == contents && Sorted(s)
    {
      s := [];
      var head := first;
      ghost var k := 0;
      while head != null
        invariant 0 <= k <= |nodes| && s == contents[..k]
        invariant if k < |nodes| then head == nodes[k] else head == null
        decreases |nodes| - k
      {
        s := s + [head.data];
        head := head.next;
        k := k + 1;
      }
    }
  }
}
