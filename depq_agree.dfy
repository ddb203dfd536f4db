/**
 * The two double-ended priority queues implement the same contract: a search
 * tree and a sorted list that hold the same multiset list the same sequence,
 * and every operation keeps them in step.
 */
module QueuesAgree {
  import opened DoubleEndedPriorityQueue
  import ListDepq
  import TreeDepq

  /** A tree and a list stand for the same queue. */
  predicate Same(t: TreeDepq.Tree, s: seq<int>) {
    TreeDepq.Bst(t) && Sorted(s) && TreeDepq.Elements(t) == multiset(s)
  }

  /** toString lists the same elements, in the same order, for both. */
  lemma SameListing(t: TreeDepq.Tree, s: seq<int>)
    requires Same(t, s)
    ensures TreeDepq.InOrder(t) == s
  {
    TreeDepq.InOrderSorted(t);
    TreeDepq.InOrderElements(t);
    SortedUnique(TreeDepq.InOrder(t), s);
  }

  /** add(x) on both keeps them the same queue. */
  lemma AddAgrees(t: TreeDepq.Tree, s: seq<int>, x: int)
    requires Same(t, s)
    ensures Same(TreeDepq.Insert(t, x), ListDepq.Inserted(s, x))
  {
    TreeDepq.InsertKeepsBst(t, x);
    TreeDepq.InsertElements(t, x);
    ListDepq.InsertedIsSorted(s, x);
    ListDepq.InsertedAddsOne(s, x);
  }

  /** deleteMin on both returns the same element and keeps them the same queue. */
  lemma DeleteMinAgrees(t: TreeDepq.Tree, s: seq<int>)
    requires Same(t, s) && t.Node?
    ensures s != [] && TreeDepq.RemoveMin(t).1 == s[0]
    ensures Same(TreeDepq.RemoveMin(t).0, s[1..])
  {
    TreeDepq.DeleteMinMeetsContract(t);
    var m := TreeDepq.RemoveMin(t).1;
    assert s != [] by { assert m in multiset(s); }
    SortedFirstIsMin(s);
    SortedTails(s);
    assert m <= s[0] && s[0] <= m by {
      assert s[0] in TreeDepq.Elements(t) && m in multiset(s);
    }
  }

  /** deleteMax on both returns the same element and keeps them the same queue. */
  lemma DeleteMaxAgrees(t: TreeDepq.Tree, s: seq<int>)
    requires Same(t, s) && t.Node?
    ensures s != [] && TreeDepq.RemoveMax(t).1 == s[|s| - 1]
    ensures Same(TreeDepq.RemoveMax(t).0, s[..|s| - 1])
  {
    TreeDepq.DeleteMaxMeetsContract(t);
    var m := TreeDepq.RemoveMax(t).1;
    assert s != [] by { assert m in multiset(s); }
    SortedLastIsMax(s);
    SortedTails(s);
    assert m <= s[|s| - 1] && s[|s| - 1] <= m by {
      assert s[|s| - 1] in TreeDepq.Elements(t) && m in multiset(s);
    }
  }

  /** An empty tree and an empty list are the same queue, and emptiness agrees. */
  lemma EmptyAgrees(t: TreeDepq.Tree, s: seq<int>)
    requires Same(t, s)
    ensures t.Leaf? <==> s == []
  {
    if t.Node? {
      TreeDepq.MinOfIsMin(t);
      assert TreeDepq.MinOf(t) in multiset(s);
    } else {
      assert |s| == |multiset(s)|;
    }
  }
}
