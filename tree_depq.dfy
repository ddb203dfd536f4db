/**
 * TreeDoubleEndedPriorityQueue.java: a binary search tree whose nodes each
 * hold a list of equal items, so that the least element is the head item of
 * the leftmost node and the greatest that of the rightmost node.
 */
module TreeDepq {
  import opened Wrappers
  import opened DoubleEndedPriorityQueue

  /** A node's list of duplicates, head first; a node is created with one item. */
  type Items = s: seq<int> | s != [] witness [0]

  datatype Tree = Leaf | Node(left: Tree, items: Items, right: Tree)

  /** Every item stored in t, duplicates counted. */
  function Elements(t: Tree): multiset<int> {
    match t
    case Leaf => multiset{}
    case Node(l, items, r) => Elements(l) + multiset(items) + Elements(r)
  }

  /**
   * The search tree invariant: every node holds at least one item, its items
   * are all equal, the left subtree holds only smaller values and the right
   * subtree only greater ones.
   */
  predicate Bst(t: Tree) {
    match t
    case Leaf => true
    case Node(l, items, r) =>
      && AllEqual(items)
      && AllBelow(Elements(l), items[0])
      && AllAbove(Elements(r), items[0])
      && Bst(l) && Bst(r)
  }

  /** Every element of m is less than k. */
  predicate AllBelow(m: multiset<int>, k: int) {
    forall y :: y in m ==> y < k
  }

  /** Every element of m is greater than k. */
  predicate AllAbove(m: multiset<int>, k: int) {
    forall y :: y in m ==> k < y
  }

  /** Every item of a node's list is equal to its head. */
  predicate AllEqual(items: Items) {
    forall i :: 0 <= i < |items| ==> items[i] == items[0]
  }

  /** The search tree invariant at one node, given that it holds in both subtrees. */
  lemma BuildBst(l: Tree, items: Items, r: Tree)
    requires AllEqual(items) && AllBelow(Elements(l), items[0]) && AllAbove(Elements(r), items[0])
    requires Bst(l) && Bst(r)
    ensures Bst(Node(l, items, r))
  {
  }

  /** A part of a multiset below k is below k. */
  lemma BelowOfPart(m: multiset<int>, big: multiset<int>, k: int)
    requires m <= big && AllBelow(big, k)
    ensures AllBelow(m, k)
  {
  }

  /** A part of a multiset above k is above k. */
  lemma AboveOfPart(m: multiset<int>, big: multiset<int>, k: int)
    requires m <= big && AllAbove(big, k)
    ensures AllAbove(m, k)
  {
  }

  /** The head of a list of items and the rest make up its multiset. */
  lemma HeadAndRest(s: Items)
    ensures multiset(s) == multiset{s[0]} + multiset(s[1..])
  {
    assert s == [s[0]] + s[1..];
  }

  /** Dropping the head of a list of equal items leaves a list of equal items with the same head. */
  lemma RestOfEqualItems(items: Items)
    requires |items| > 1 && AllEqual(items)
    ensures AllEqual(items[1..]) && items[1..][0] == items[0]
  {
    assert items[1..][0] == items[1];
  }

  /** add(src, t): an equal value goes to the front of the node's items. */
  function Insert(t: Tree, x: int): (r: Tree)
    ensures r.Node?
  {
    match t
    case Leaf => Node(Leaf, [x], Leaf)
    case Node(l, items, rt) =>
      if x < items[0] then Node(Insert(l, x), items, rt)
      else if x > items[0] then Node(l, items, Insert(rt, x))
      else Node(l, [x] + items, rt)
  }

  /** add grows the multiset of elements by exactly one x. */
  lemma {:induction false} InsertElements(t: Tree, x: int)
    ensures Elements(Insert(t, x)) == Elements(t) + multiset{x}
  {
    match t
    case Leaf =>
    case Node(l, items, r) =>
      if x < items[0] {
        InsertElements(l, x);
        assert Insert(t, x) == Node(Insert(l, x), items, r);
      } else if x > items[0] {
        InsertElements(r, x);
        assert Insert(t, x) == Node(l, items, Insert(r, x));
      } else {
        assert multiset([x] + items) == multiset{x} + multiset(items);
        assert Insert(t, x) == Node(l, [x] + items, r);
      }
  }

  /** add keeps the search tree invariant. */
  lemma {:induction false} InsertKeepsBst(t: Tree, x: int)
    requires Bst(t)
    ensures Bst(Insert(t, x))
  {
    if t.Node? {
      if x < t.items[0] {
        InsertKeepsBst(t.left, x);
        InsertLeftKeepsBst(t, x);
      } else if x > t.items[0] {
        InsertKeepsBst(t.right, x);
        InsertRightKeepsBst(t, x);
      } else {
        InsertEqualKeepsBst(t, x);
      }
    }
  }

  /** The step of InsertKeepsBst where x goes into the left subtree. */
  lemma InsertLeftKeepsBst(t: Tree, x: int)
    requires Bst(t) && t.Node? && x < t.items[0] && Bst(Insert(t.left, x))
    ensures Bst(Insert(t, x))
  {
    InsertElements(t.left, x);
    BuildBst(Insert(t.left, x), t.items, t.right);
    assert Insert(t, x) == Node(Insert(t.left, x), t.items, t.right);
  }

  /** The step of InsertKeepsBst where x goes into the right subtree. */
  lemma InsertRightKeepsBst(t: Tree, x: int)
    requires Bst(t) && t.Node? && x > t.items[0] && Bst(Insert(t.right, x))
    ensures Bst(Insert(t, x))
  {
    InsertElements(t.right, x);
    BuildBst(t.left, t.items, Insert(t.right, x));
    assert Insert(t, x) == Node(t.left, t.items, Insert(t.right, x));
  }

  /** The step of InsertKeepsBst where x joins the node's items. */
  lemma InsertEqualKeepsBst(t: Tree, x: int)
    requires Bst(t) && t.Node? && x == t.items[0]
    ensures Bst(Insert(t, x))
  {
    var s: Items := [x] + t.items;
    assert AllEqual(s) by {
      forall i | 0 < i < |s|
        ensures s[i] == s[0]
      {
        assert s[i] == t.items[i - 1];
      }
    }
    BuildBst(t.left, s, t.right);
    assert Insert(t, x) == Node(t.left, s, t.right);
  }

  /** The number of nodes of t. */
  function NodeCount(t: Tree): nat {
    match t
    case Leaf => 0
    case Node(l, _, r) => NodeCount(l) + 1 + NodeCount(r)
  }

  /**
   * The items of the node whose head is x, found along the search path that
   * add follows, or [] when the path ends at a leaf.
   */
  function ItemsOf(t: Tree, x: int): (r: seq<int>)
    ensures r == [] || r[0] == x
  {
    match t
    case Leaf => []
    case Node(l, items, rt) =>
      if x < items[0] then ItemsOf(l, x)
      else if x > items[0] then ItemsOf(rt, x)
      else items
  }

  /**
   * add pushes x onto the front of the node whose head is x, wherever it sits,
   * and leaves the items found for every other value as they were.
   */
  lemma {:induction false} InsertPushesFront(t: Tree, x: int, y: int)
    ensures ItemsOf(Insert(t, x), x) == [x] + ItemsOf(t, x)
    ensures y != x ==> ItemsOf(Insert(t, x), y) == ItemsOf(t, y)
  {
    match t
    case Leaf =>
    case Node(l, items, rt) =>
      if x < items[0] {
        InsertPushesFront(l, x, y);
      } else if x > items[0] {
        InsertPushesFront(rt, x, y);
      }
  }

  /** add makes a new node exactly when no node has x as its head. */
  lemma {:induction false} InsertNodeCount(t: Tree, x: int)
    ensures NodeCount(Insert(t, x)) == NodeCount(t) + (if ItemsOf(t, x) == [] then 1 else 0)
  {
    match t
    case Leaf =>
    case Node(l, items, rt) =>
      if x < items[0] {
        InsertNodeCount(l, x);
      } else if x > items[0] {
        InsertNodeCount(rt, x);
      }
  }

  /** A sequence of copies of v holds |s| copies of v. */
  lemma {:induction false} CopiesCount(s: seq<int>, v: int)
    requires forall i :: 0 <= i < |s| ==> s[i] == v
    ensures multiset(s)[v] == |s|
  {
    if s != [] {
      CopiesCount(s[1..], v);
      assert s == [s[0]] + s[1..];
    }
  }

  /** In a search tree the node found for x holds every copy of x, and no other value. */
  lemma {:induction false} ItemsOfHoldsAllCopies(t: Tree, x: int)
    requires Bst(t)
    ensures |ItemsOf(t, x)| == Elements(t)[x]
    ensures forall i :: 0 <= i < |ItemsOf(t, x)| ==> ItemsOf(t, x)[i] == x
  {
    match t
    case Leaf =>
    case Node(l, items, rt) =>
      var h := items[0];
      if x != h {
        if x < h {
          ItemsOfHoldsAllCopies(l, x);
          assert x !in Elements(rt);
        } else {
          ItemsOfHoldsAllCopies(rt, x);
          assert x !in Elements(l);
        }
      } else {
        CopiesCount(items, x);
        assert x !in Elements(l) && x !in Elements(rt);
      }
  }

  /** Adding a value the tree already holds makes no new node; it joins that value's node. */
  lemma InsertPresentKeepsNodeCount(t: Tree, x: int)
    requires Bst(t) && x in Elements(t)
    ensures NodeCount(Insert(t, x)) == NodeCount(t)
    ensures ItemsOf(Insert(t, x), x) == [x] + ItemsOf(t, x) && ItemsOf(t, x) != []
  {
    ItemsOfHoldsAllCopies(t, x);
    InsertNodeCount(t, x);
    InsertPushesFront(t, x, x);
  }

  /** The head item of the leftmost node. */
  function MinOf(t: Tree): int
    requires t.Node?
  {
    if t.left.Leaf? then t.items[0] else MinOf(t.left)
  }

  /** The head item of the rightmost node. */
  function MaxOf(t: Tree): int
    requires t.Node?
  {
    if t.right.Leaf? then t.items[0] else MaxOf(t.right)
  }

  /** The leftmost head item is a least element of a search tree. */
  lemma {:induction false} MinOfIsMin(t: Tree)
    requires Bst(t) && t.Node?
    ensures IsMin(Elements(t), MinOf(t))
  {
    var Node(l, items, r) := t;
    if l.Node? {
      MinOfIsMin(l);
      assert MinOf(l) < items[0];
    }
    forall y | y in Elements(t)
      ensures MinOf(t) <= y
    {
      if y in multiset(items) {
        var i :| 0 <= i < |items| && items[i] == y;
      }
    }
  }

  /** The rightmost head item is a greatest element of a search tree. */
  lemma {:induction false} MaxOfIsMax(t: Tree)
    requires Bst(t) && t.Node?
    ensures IsMax(Elements(t), MaxOf(t))
  {
    var Node(l, items, r) := t;
    if r.Node? {
      MaxOfIsMax(r);
      assert items[0] < MaxOf(r);
    }
    forall y | y in Elements(t)
      ensures y <= MaxOf(t)
    {
      if y in multiset(items) {
        var i :| 0 <= i < |items| && items[i] == y;
      }
    }
  }

  /**
   * The private deleteMin(src), for a node with a left child: unhook one copy
   * of the leftmost node below, which is replaced by its right subtree once
   * its last copy goes.
   */
  function RemoveMinBelow(t: Tree): (r: (Tree, int))
    requires t.Node? && t.left.Node?
    ensures r.1 == MinOf(t)
  {
    var Node(l, items, rt) := t;
    if l.left.Node? then
      var (l', m) := RemoveMinBelow(l);
      (Node(l', items, rt), m)
    else if |l.items| == 1 then
      (Node(l.right, items, rt), l.items[0])
    else
      (Node(Node(l.left, l.items[1..], l.right), items, rt), l.items[0])
  }

  /** The public deleteMin on a non-empty tree: the root itself when it has no left child. */
  function RemoveMin(t: Tree): (r: (Tree, int))
    requires t.Node?
    ensures r.1 == MinOf(t)
  {
    if t.left.Node? then RemoveMinBelow(t)
    else if |t.items| == 1 then (t.right, t.items[0])
    else (Node(t.left, t.items[1..], t.right), t.items[0])
  }

  /** The mirror image of RemoveMinBelow, the private deleteMax(src). */
  function RemoveMaxBelow(t: Tree): (r: (Tree, int))
    requires t.Node? && t.right.Node?
    ensures r.1 == MaxOf(t)
  {
    var Node(l, items, rt) := t;
    if rt.right.Node? then
      var (rt', m) := RemoveMaxBelow(rt);
      (Node(l, items, rt'), m)
    else if |rt.items| == 1 then
      (Node(l, items, rt.left), rt.items[0])
    else
      (Node(l, items, Node(rt.left, rt.items[1..], rt.right)), rt.items[0])
  }

  /** The public deleteMax on a non-empty tree. */
  function RemoveMax(t: Tree): (r: (Tree, int))
    requires t.Node?
    ensures r.1 == MaxOf(t)
  {
    if t.right.Node? then RemoveMaxBelow(t)
    else if |t.items| == 1 then (t.left, t.items[0])
    else (Node(t.left, t.items[1..], t.right), t.items[0])
  }

  /** Taking the head item off a node that holds several takes one copy away and keeps the invariant. */
  lemma DropHead(n: Tree)
    requires n.Node? && |n.items| > 1
    ensures Elements(Node(n.left, n.items[1..], n.right)) + multiset{n.items[0]} == Elements(n)
    ensures Bst(n) ==> Bst(Node(n.left, n.items[1..], n.right))
  {
    HeadAndRest(n.items);
    if Bst(n) {
      RestOfEqualItems(n.items);
      var rest: Items := n.items[1..];
      BuildBst(n.left, rest, n.right);
    }
  }

  /** A left subtree that lost one copy of m makes a tree that lost one copy of m. */
  lemma ReplaceLeft(t: Tree, l': Tree, m: int)
    requires t.Node? && Elements(l') + multiset{m} == Elements(t.left)
    ensures Elements(Node(l', t.items, t.right)) + multiset{m} == Elements(t)
  {
  }

  /** The same for a right subtree. */
  lemma ReplaceRight(t: Tree, rt': Tree, m: int)
    requires t.Node? && Elements(rt') + multiset{m} == Elements(t.right)
    ensures Elements(Node(t.left, t.items, rt')) + multiset{m} == Elements(t)
  {
  }

  /** The private deleteMin takes exactly one copy of what it returns away. */
  lemma {:induction false} RemoveMinBelowElements(t: Tree)
    requires t.Node? && t.left.Node?
    ensures Elements(RemoveMinBelow(t).0) + multiset{RemoveMinBelow(t).1} == Elements(t)
  {
    var l := t.left;
    if l.left.Node? {
      RemoveMinBelowElements(l);
      var (l', m) := RemoveMinBelow(l);
      assert RemoveMinBelow(t) == (Node(l', t.items, t.right), m);
      ReplaceLeft(t, l', m);
    } else if |l.items| == 1 {
      assert RemoveMinBelow(t) == (Node(l.right, t.items, t.right), l.items[0]);
      assert multiset(l.items) == multiset{l.items[0]};
      assert Elements(l) == multiset(l.items) + Elements(l.right);
      ReplaceLeft(t, l.right, l.items[0]);
    } else {
      DropHead(l);
      assert RemoveMinBelow(t) == (Node(Node(l.left, l.items[1..], l.right), t.items, t.right), l.items[0]);
      ReplaceLeft(t, Node(l.left, l.items[1..], l.right), l.items[0]);
    }
  }

  /** The private deleteMax takes exactly one copy of what it returns away. */
  lemma {:induction false} RemoveMaxBelowElements(t: Tree)
    requires t.Node? && t.right.Node?
    ensures Elements(RemoveMaxBelow(t).0) + multiset{RemoveMaxBelow(t).1} == Elements(t)
  {
    var rt := t.right;
    if rt.right.Node? {
      RemoveMaxBelowElements(rt);
      var (rt', m) := RemoveMaxBelow(rt);
      assert RemoveMaxBelow(t) == (Node(t.left, t.items, rt'), m);
      ReplaceRight(t, rt', m);
    } else if |rt.items| == 1 {
      assert RemoveMaxBelow(t) == (Node(t.left, t.items, rt.left), rt.items[0]);
      assert multiset(rt.items) == multiset{rt.items[0]};
      assert Elements(rt) == Elements(rt.left) + multiset(rt.items);
      ReplaceRight(t, rt.left, rt.items[0]);
    } else {
      DropHead(rt);
      assert RemoveMaxBelow(t) == (Node(t.left, t.items, Node(rt.left, rt.items[1..], rt.right)), rt.items[0]);
      ReplaceRight(t, Node(rt.left, rt.items[1..], rt.right), rt.items[0]);
    }
  }

  /** The private deleteMin keeps the search tree invariant. */
  lemma {:induction false} RemoveMinBelowKeepsBst(t: Tree)
    requires Bst(t) && t.Node? && t.left.Node?
    ensures Bst(RemoveMinBelow(t).0)
  {
    var Node(l, items, rt) := t;
    if l.left.Node? {
      RemoveMinBelowKeepsBst(l);
      RemoveMinBelowElements(l);
      var l' := RemoveMinBelow(l).0;
      BelowOfPart(Elements(l'), Elements(l), items[0]);
      BuildBst(l', items, rt);
    } else if |l.items| == 1 {
      BelowOfPart(Elements(l.right), Elements(l), items[0]);
      BuildBst(l.right, items, rt);
    } else {
      DropHead(l);
      var rest: Items := l.items[1..];
      BelowOfPart(Elements(Node(l.left, rest, l.right)), Elements(l), items[0]);
      BuildBst(Node(l.left, rest, l.right), items, rt);
    }
  }

  /** The private deleteMax keeps the search tree invariant. */
  lemma {:induction false} RemoveMaxBelowKeepsBst(t: Tree)
    requires Bst(t) && t.Node? && t.right.Node?
    ensures Bst(RemoveMaxBelow(t).0)
  {
    var Node(l, items, rt) := t;
    if rt.right.Node? {
      RemoveMaxBelowKeepsBst(rt);
      RemoveMaxBelowElements(rt);
      var rt' := RemoveMaxBelow(rt).0;
      AboveOfPart(Elements(rt'), Elements(rt), items[0]);
      BuildBst(l, items, rt');
    } else if |rt.items| == 1 {
      AboveOfPart(Elements(rt.left), Elements(rt), items[0]);
      BuildBst(l, items, rt.left);
    } else {
      DropHead(rt);
      var rest: Items := rt.items[1..];
      AboveOfPart(Elements(Node(rt.left, rest, rt.right)), Elements(rt), items[0]);
      BuildBst(l, items, Node(rt.left, rest, rt.right));
    }
  }

  /** Adding one copy of m and then taking it away gives back what was there. */
  lemma TakeAwayOne(a: multiset<int>, m: int, e: multiset<int>)
    requires a + multiset{m} == e
    ensures a == e - multiset{m}
  {
  }

  /** deleteMin at a root with no left child: one copy of the root's items goes. */
  lemma RemoveMinAtRoot(t: Tree)
    requires Bst(t) && t.Node? && t.left.Leaf?
    ensures Elements(RemoveMin(t).0) + multiset{RemoveMin(t).1} == Elements(t)
    ensures Bst(RemoveMin(t).0)
  {
    if |t.items| == 1 {
      assert RemoveMin(t) == (t.right, t.items[0]);
      assert multiset(t.items) == multiset{t.items[0]};
      assert Elements(t) == multiset(t.items) + Elements(t.right);
    } else {
      DropHead(t);
      assert RemoveMin(t) == (Node(t.left, t.items[1..], t.right), t.items[0]);
    }
  }

  /** deleteMax at a root with no right child: one copy of the root's items goes. */
  lemma RemoveMaxAtRoot(t: Tree)
    requires Bst(t) && t.Node? && t.right.Leaf?
    ensures Elements(RemoveMax(t).0) + multiset{RemoveMax(t).1} == Elements(t)
    ensures Bst(RemoveMax(t).0)
  {
    if |t.items| == 1 {
      assert RemoveMax(t) == (t.left, t.items[0]);
      assert multiset(t.items) == multiset{t.items[0]};
      assert Elements(t) == multiset(t.items) + Elements(t.left);
    } else {
      DropHead(t);
      assert RemoveMax(t) == (Node(t.left, t.items[1..], t.right), t.items[0]);
    }
  }

  /**
   * deleteMin returns a least element, takes exactly one copy of it away and
   * keeps the search tree invariant.
   */
  lemma DeleteMinMeetsContract(t: Tree)
    requires Bst(t) && t.Node?
    ensures IsMin(Elements(t), RemoveMin(t).1)
    ensures Elements(RemoveMin(t).0) == Elements(t) - multiset{RemoveMin(t).1}
    ensures Bst(RemoveMin(t).0)
  {
    MinOfIsMin(t);
    if t.left.Node? {
      RemoveMinBelowKeepsBst(t);
      RemoveMinBelowElements(t);
    } else {
      RemoveMinAtRoot(t);
    }
    TakeAwayOne(Elements(RemoveMin(t).0), RemoveMin(t).1, Elements(t));
  }

  /**
   * deleteMax returns a greatest element, takes exactly one copy of it away
   * and keeps the search tree invariant.
   */
  lemma DeleteMaxMeetsContract(t: Tree)
    requires Bst(t) && t.Node?
    ensures IsMax(Elements(t), RemoveMax(t).1)
    ensures Elements(RemoveMax(t).0) == Elements(t) - multiset{RemoveMax(t).1}
    ensures Bst(RemoveMax(t).0)
  {
    MaxOfIsMax(t);
    if t.right.Node? {
      RemoveMaxBelowKeepsBst(t);
      RemoveMaxBelowElements(t);
    } else {
      RemoveMaxAtRoot(t);
    }
    TakeAwayOne(Elements(RemoveMax(t).0), RemoveMax(t).1, Elements(t));
  }

  /** The order toString lists the items in: left subtree, the node's list, right subtree. */
  function InOrder(t: Tree): seq<int> {
    match t
    case Leaf => []
    case Node(l, items, r) => InOrder(l) + items + InOrder(r)
  }

  /** The in-order listing holds exactly the tree's elements. */
  lemma {:induction false} InOrderElements(t: Tree)
    ensures multiset(InOrder(t)) == Elements(t)
  {
    match t
    case Leaf =>
    case Node(l, items, r) =>
      InOrderElements(l);
      InOrderElements(r);
  }

  /** The in-order listing of a search tree is nondecreasing. */
  lemma {:induction false} InOrderSorted(t: Tree)
    requires Bst(t)
    ensures Sorted(InOrder(t))
  {
    if t.Node? {
      InOrderSorted(t.left);
      InOrderSorted(t.right);
      InOrderSortedStep(t);
    }
  }

  /** The step of InOrderSorted: a node joins two sorted listings in order. */
  lemma InOrderSortedStep(t: Tree)
    requires Bst(t) && t.Node? && Sorted(InOrder(t.left)) && Sorted(InOrder(t.right))
    ensures Sorted(InOrder(t))
  {
    InOrderElements(t.left);
    InOrderElements(t.right);
    SortedJoin(InOrder(t.left), t.items, InOrder(t.right));
    assert InOrder(t) == InOrder(t.left) + t.items + InOrder(t.right);
  }

  /** Sorted runs below and above a list of equal items join into a sorted run. */
  lemma SortedJoin(a: seq<int>, items: Items, b: seq<int>)
    requires Sorted(a) && Sorted(b) && AllEqual(items)
    requires AllBelow(multiset(a), items[0]) && AllAbove(multiset(b), items[0])
    ensures Sorted(a + items + b)
  {
    var s := a + items + b;
    forall i, j | 0 <= i < j < |s|
      ensures s[i] <= s[j]
    {
      if i < |a| {
        assert s[i] in multiset(a) by { assert s[i] == a[i]; }
      }
      if |a| + |items| <= j {
        assert s[j] in multiset(b) by { assert s[j] == b[j - |a| - |items|]; }
      }
    }
  }

  class TreeDoubleEndedPriorityQueue {
    var root: Tree

    ghost predicate Valid()
      reads this
    {
      Bst(root)
    }

    ghost function Contents(): multiset<int>
      reads this
    {
      Elements(root)
    }

    constructor()
      ensures Valid() && root == Leaf
    {
      root := Leaf;
    }

    method MakeEmpty()
      modifies this
      ensures Valid() && Contents() == multiset{}
    {
      root := Leaf;
    }

    /** add: a new one-item node at the root of an empty tree, otherwise the recursive add. */
    method Add(x: int)
      requires Valid()
      modifies this
      ensures Valid()
      ensures root == Insert(old(root), x)
      ensures Contents() == old(Contents()) + multiset{x}
    {
      InsertKeepsBst(root, x);
      InsertElements(root, x);
      root := Insert(root, x);
    }

    /** deleteMin; None is the UnderflowException of an empty tree. */
    method DeleteMin() returns (r: Option<int>)
      requires Valid()
      modifies this
      ensures Valid()
      ensures old(root).Leaf? ==> r.None? && root == old(root)
      ensures old(root).Node? ==> r == Some(RemoveMin(old(root)).1) && root == RemoveMin(old(root)).0
    {
      if root.Leaf? {
        return None;
      }
      DeleteMinMeetsContract(root);
      var (t, m) := RemoveMin(root);
      root := t;
      return Some(m);
    }

    /** deleteMax; None is the UnderflowException of an empty tree. */
    method DeleteMax() returns (r: Option<int>)
      requires Valid()
      modifies this
      ensures Valid()
      ensures old(root).Leaf? ==> r.None? && root == old(root)
      ensures old(root).Node? ==> r == Some(RemoveMax(old(root)).1) && root == RemoveMax(old(root)).0
    {
      if root.Leaf? {
        return None;
      }
      DeleteMaxMeetsContract(root);
      var (t, m) := RemoveMax(root);
      root := t;
      return Some(m);
    }

    /** findMin: walk left from the root; None is the UnderflowException of an empty tree. */
    method FindMin() returns (r: Option<int>)
      requires Valid()
      ensures root.Leaf? ==> r.None?
      ensures root.Node? ==> r == Some(MinOf(root)) && IsMin(Contents(), r.value)
    {
      var temp := root;
      if temp.Leaf? {
        return None;
      }
      MinOfIsMin(root);
      while temp.left.Node?
        invariant temp.Node? && MinOf(temp) == MinOf(root)
        decreases temp
      {
        temp := temp.left;
      }
      return Some(temp.items[0]);
    }

    /** findMax: walk right from the root; unlike deleteMax, the Java code checks no underflow and dereferences a null root. */
    method FindMax() returns (x: int)
      requires Valid() && root.Node?
      ensures x == MaxOf(root) && IsMax(Contents(), x)
    {
      MaxOfIsMax(root);
      var temp := root;
      while temp.right.Node?
        invariant temp.Node? && MaxOf(temp) == MaxOf(root)
        decreases temp
      {
        temp := temp.right;
      }
      x := temp.items[0];
    }

    method IsEmpty() returns (empty: bool)
      requires Valid()
      ensures empty <==> Contents() == multiset{}
    {
      empty := root.Leaf?;
      if !empty {
        MinOfIsMin(root);
      }
    }

    /** The items in the order toString lists them, which is nondecreasing. */
    method ToSequence() returns (s: seq<int>)
      requires Valid()
      ensures s == InOrder(root) && Sorted(s) && multiset(s) == Contents()
    {
      InOrderSorted(root);
      InOrderElements(root);
      s := AppendInOrder(root, []);
    }

    /** The private toString(t, sb): left subtree, then the node's list from its head, then right subtree. */
    static method AppendInOrder(t: Tree, acc: seq<int>) returns (s: seq<int>)
      ensures s == acc + InOrder(t)
      decreases t
    {
      if t.Leaf? {
        return acc;
      }
      s := AppendInOrder(t.left, acc);
      var i := 0;
      while i < |t.items|
        invariant 0 <= i <= |t.items|
        invariant s == acc + InOrder(t.left) + t.items[..i]
      {
        s := s + [t.items[i]];
        i := i + 1;
      }
      s := AppendInOrder(t.right, s);
    }
  }
}
