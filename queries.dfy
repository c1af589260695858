/**
 * The structural queries of the BST engine: the node count in its two modes,
 * the height, and the `bigger` helper the height uses. They are expression-only
 * recursions, so they are functions over the abstract tree.
 */
module Queries {
  import opened Trees

  /** The two values of get_node_count's `mode` argument (the NodeCountOption enumeration). */
  const TERMINAL_NODE: int := 0
  const ALL_NODE: int := 1

  /** The larger of two integers. */
  function Bigger(a: int, b: int): (m: int)
    ensures m >= a && m >= b
    ensures m == a || m == b
  {
    if a > b then a else b
  }

  /**
   * get_node_count: 0 for the empty tree, 1 for a leaf, and `mode` plus the
   * counts of both subtrees for any other node.  Mode ALL_NODE gives the number
   * of nodes, mode TERMINAL_NODE the number of leaves.
   */
  function NodeCount(t: Tree, mode: int): (n: int)
    ensures mode == ALL_NODE ==> n == Size(t)
    ensures mode == TERMINAL_NODE ==> n == Leaves(t)
  {
    if t.Nil? then 0
    else if t.right.Nil? && t.left.Nil? then 1
    else mode + NodeCount(t.left, mode) + NodeCount(t.right, mode)
  }

  /** For any mode, each leaf counts once and each inner node counts `mode` times. */
  lemma {:induction false} NodeCountByMode(t: Tree, mode: int)
    ensures NodeCount(t, mode) == Leaves(t) + mode * (Size(t) - Leaves(t))
  {
    match t
    case Nil =>
    case Node(l, _, r) =>
      if !IsLeaf(t) {
        NodeCountByMode(l, mode);
        NodeCountByMode(r, mode);
        var a, b := Size(l) - Leaves(l), Size(r) - Leaves(r);
        assert Size(t) - Leaves(t) == 1 + a + b;
        assert mode * (1 + a + b) == mode + mode * a + mode * b;
      }
  }

  /** get_tree_height: the number of nodes on the longest path from the root down. */
  function TreeHeight(t: Tree): (h: nat)
    ensures h == 0 <==> t.Nil?
    ensures h <= Size(t)
  {
    if t.Nil? then 0
    else if t.left.Nil? && t.right.Nil? then 1
    else 1 + Bigger(TreeHeight(t.left), TreeHeight(t.right))
  }

  /** Following `path` from the root (false: left link, true: right link) ends on a node. */
  predicate Reaches(t: Tree, path: seq<bool>)
  {
    t.Node? && (path == [] || Reaches(if path[0] then t.right else t.left, path[1..]))
  }

  /** Every path from the root passes through fewer links than the height. */
  lemma {:induction false} PathShorterThanHeight(t: Tree, path: seq<bool>)
    requires Reaches(t, path)
    ensures |path| < TreeHeight(t)
  {
    if path != [] {
      PathShorterThanHeight(if path[0] then t.right else t.left, path[1..]);
    }
  }

  /** Some path from the root of a non-empty tree has exactly height-many nodes. */
  lemma {:induction false} DeepestPath(t: Tree)
    requires t.Node?
    ensures exists path :: Reaches(t, path) && |path| + 1 == TreeHeight(t)
  {
    if IsLeaf(t) {
      assert Reaches(t, []);
    } else {
      var goRight := TreeHeight(t.right) > TreeHeight(t.left);
      var child := if goRight then t.right else t.left;
      DeepestPath(child);
      var p :| Reaches(child, p) && |p| + 1 == TreeHeight(child);
      assert ([goRight] + p)[1..] == p;
      assert Reaches(t, [goRight] + p);
    }
  }

  /** A tree whose every node has an empty left link: a chain hanging to the right. */
  predicate IsRightChain(t: Tree)
  {
    t.Nil? || (t.left.Nil? && IsRightChain(t.right))
  }

  lemma {:induction false} InsertAboveChain(t: Tree, v: int)
    requires IsRightChain(t)
    requires forall k :: k in Keys(t) ==> k < v
    ensures IsRightChain(Insert(t, v))
    ensures TreeHeight(Insert(t, v)) == TreeHeight(t) + 1
    ensures Size(Insert(t, v)) == Size(t) + 1
    ensures Leaves(Insert(t, v)) == 1
  {
    match t
    case Nil =>
    case Node(l, k, r) =>
      assert k in Keys(t);
      InsertAboveChain(r, v);
  }

  /** Strictly ascending input degenerates into a right chain as tall as the input is long. */
  lemma {:induction false} AscendingBuildHeight(xs: seq<int>)
    requires StrictlyAscending(xs)
    ensures IsRightChain(BuildTree(xs))
    ensures TreeHeight(BuildTree(xs)) == |xs|
    ensures Size(BuildTree(xs)) == |xs|
    ensures Leaves(BuildTree(xs)) == if xs == [] then 0 else 1
  {
    if xs != [] {
      var front, last := xs[..|xs| - 1], xs[|xs| - 1];
      assert StrictlyAscending(front);
      AscendingBuildHeight(front);
      forall k | k in Keys(BuildTree(front)) ensures k < last {
        var i :| 0 <= i < |front| && front[i] == k;
        assert xs[i] == k;
      }
      InsertAboveChain(BuildTree(front), last);
    }
  }

  /** The tree that inserting 5, 3, 8, 3, 1 into the empty tree builds. */
  function ExampleTree(): Tree
  {
    Node(Node(Node(Nil, 1, Nil), 3, Nil), 5, Node(Nil, 8, Nil))
  }

  lemma ExampleInsertions()
    ensures Insert(Insert(Insert(Insert(Insert(Nil, 5), 3), 8), 3), 1) == ExampleTree()
  {
  }

  lemma ExampleShape()
    ensures InOrder(ExampleTree()) == [1, 3, 5, 8]
    ensures TreeHeight(ExampleTree()) == 3 && NodeCount(ExampleTree(), TERMINAL_NODE) == 2
  {
  }

  /**
   * Inserting 5, 3, 8, 3, 1 into the empty tree drops the second 3: four
   * nodes listed as 1, 3, 5, 8, height 3, and two leaves (1 and 8).
   */
  lemma DuplicateDroppedExample()
    ensures var t := Insert(Insert(Insert(Insert(Insert(Nil, 5), 3), 8), 3), 1);
      Size(t) == 4 && InOrder(t) == [1, 3, 5, 8] &&
      TreeHeight(t) == 3 && NodeCount(t, TERMINAL_NODE) == 2
  {
    ExampleInsertions();
    ExampleShape();
    assert |InOrder(ExampleTree())| == 4;
  }
}
