/**
 * The abstract binary tree denoted by a chain of TreeNode records, and the
 * properties the BST engine relies on: the key set, the search-tree order,
 * the in-order key sequence, the node and leaf counts, and the reference
 * insertion that both insertion algorithms of the engine implement.
 */
module Trees {

  datatype Tree = Nil | Node(left: Tree, key: int, right: Tree)

  function Keys(t: Tree): set<int>
  {
    match t
    case Nil => {}
    case Node(l, k, r) => Keys(l) + {k} + Keys(r)
  }

  /** Every key of a left subtree is below its node's key, every key of a right subtree above. */
  predicate IsBST(t: Tree)
  {
    match t
    case Nil => true
    case Node(l, k, r) =>
      IsBST(l) && IsBST(r) &&
      (forall x :: x in Keys(l) ==> x < k) &&
      (forall x :: x in Keys(r) ==> k < x)
  }

  function Size(t: Tree): nat
  {
    match t
    case Nil => 0
    case Node(l, _, r) => Size(l) + 1 + Size(r)
  }

  predicate IsLeaf(t: Tree)
  {
    t.Node? && t.left.Nil? && t.right.Nil?
  }

  /** The number of nodes without children; a non-empty tree has at least one. */
  function Leaves(t: Tree): (n: nat)
    ensures n <= Size(t)
    ensures n == 0 <==> t.Nil?
  {
    match t
    case Nil => 0
    case Node(l, _, r) => (if IsLeaf(t) then 1 else 0) + Leaves(l) + Leaves(r)
  }

  /** Keys in left / node / right order: one entry per node, drawn from the key set. */
  function InOrder(t: Tree): (s: seq<int>)
    ensures |s| == Size(t)
    ensures forall x :: x in s <==> x in Keys(t)
  {
    match t
    case Nil => []
    case Node(l, k, r) => InOrder(l) + [k] + InOrder(r)
  }

  predicate StrictlyAscending(s: seq<int>)
  {
    forall i, j :: 0 <= i < j < |s| ==> s[i] < s[j]
  }

  /**
   * Reference insertion: go left while the node's key is above v, right while
   * it is below, hang a new leaf at the empty link reached, and give the tree
   * back unchanged when a node with key v is met on the way.
   */
  function Insert(t: Tree, v: int): (r: Tree)
    ensures Keys(r) == Keys(t) + {v}
    ensures r.Node?
  {
    match t
    case Nil => Node(Nil, v, Nil)
    case Node(l, k, rt) =>
      if k > v then Node(Insert(l, v), k, rt)
      else if k < v then Node(l, k, Insert(rt, v))
      else t
  }

  /** The tree that inserting xs one key at a time, first to last, builds from empty. */
  function BuildTree(xs: seq<int>): (t: Tree)
    ensures Keys(t) == set x | x in xs
  {
    if xs == [] then Nil
    else
      var front := xs[..|xs| - 1];
      assert xs == front + [xs[|xs| - 1]];
      Insert(BuildTree(front), xs[|xs| - 1])
  }

  lemma {:induction false} InsertKeepsBST(t: Tree, v: int)
    requires IsBST(t)
    ensures IsBST(Insert(t, v))
  {
    match t
    case Nil =>
    case Node(l, k, r) =>
      if k > v {
        InsertKeepsBST(l, v);
      } else if k < v {
        InsertKeepsBST(r, v);
      }
  }

  /** A key already present leaves the tree as it was; a new key adds exactly one node. */
  lemma {:induction false} InsertSize(t: Tree, v: int)
    requires IsBST(t)
    ensures v in Keys(t) ==> Insert(t, v) == t
    ensures v !in Keys(t) ==> Size(Insert(t, v)) == Size(t) + 1
  {
    match t
    case Nil =>
    case Node(l, k, r) =>
      if k > v {
        assert forall x :: x in Keys(r) ==> k < x;
        assert v !in Keys(r);
        InsertSize(l, v);
      } else if k < v {
        assert forall x :: x in Keys(l) ==> x < k;
        assert v !in Keys(l);
        InsertSize(r, v);
      }
  }

  lemma {:induction false} BuildTreeIsBST(xs: seq<int>)
    ensures IsBST(BuildTree(xs))
  {
    if xs != [] {
      BuildTreeIsBST(xs[..|xs| - 1]);
      InsertKeepsBST(BuildTree(xs[..|xs| - 1]), xs[|xs| - 1]);
    }
  }

  /** A search tree lists its keys in strictly ascending order. */
  lemma {:induction false} InOrderAscending(t: Tree)
    requires IsBST(t)
    ensures StrictlyAscending(InOrder(t))
  {
    match t
    case Nil =>
    case Node(l, k, r) =>
      InOrderAscending(l);
      InOrderAscending(r);
      var a, b := InOrder(l), InOrder(r);
      var s := a + [k] + b;
      forall i, j | 0 <= i < j < |s| ensures s[i] < s[j] {
        if j < |a| {
          assert s[i] == a[i] && s[j] == a[j];
        } else if i < |a| {
          assert s[i] == a[i] && s[i] in Keys(l);
          if j > |a| { assert s[j] == b[j - |a| - 1] && s[j] in Keys(r); }
        } else if i == |a| {
          assert s[j] == b[j - |a| - 1] && s[j] in Keys(r);
        } else {
          assert s[i] == b[i - |a| - 1] && s[j] == b[j - |a| - 1];
        }
      }
  }

  /** Conversely, a tree whose in-order key sequence strictly ascends is a search tree. */
  lemma {:induction false} AscendingInOrderIsBST(t: Tree)
    requires StrictlyAscending(InOrder(t))
    ensures IsBST(t)
  {
    match t
    case Nil =>
    case Node(l, k, r) =>
      var a, b := InOrder(l), InOrder(r);
      var s := a + [k] + b;
      assert s == InOrder(t);
      forall i, j | 0 <= i < j < |a| ensures a[i] < a[j] {
        assert s[i] == a[i] && s[j] == a[j];
      }
      forall i, j | 0 <= i < j < |b| ensures b[i] < b[j] {
        assert s[|a| + 1 + i] == b[i] && s[|a| + 1 + j] == b[j];
      }
      AscendingInOrderIsBST(l);
      AscendingInOrderIsBST(r);
      forall x | x in Keys(l) ensures x < k {
        var i :| 0 <= i < |a| && a[i] == x;
        assert s[i] == x && s[|a|] == k;
      }
      forall x | x in Keys(r) ensures k < x {
        var i :| 0 <= i < |b| && b[i] == x;
        assert s[|a| + 1 + i] == x && s[|a|] == k;
      }
  }

  /** Inserting any sequence of keys yields a tree that lists exactly those keys, ascending, each once. */
  lemma BuiltTreeListsAscending(xs: seq<int>)
    ensures StrictlyAscending(InOrder(BuildTree(xs)))
    ensures forall x :: x in InOrder(BuildTree(xs)) <==> x in xs
  {
    BuildTreeIsBST(xs);
    InOrderAscending(BuildTree(xs));
  }
}
