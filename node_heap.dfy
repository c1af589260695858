/**
 * The pointer-level BST engine.  Heap memory is a sequence of TreeNode
 * records: a pointer is a slot number, NULL is -1, and `addNode`'s malloc
 * takes the next free slot.  TreeAt reads the abstract Tree that a pointer
 * denotes, so the pointer algorithms can be compared with the reference
 * functions of module Trees and with each other.
 */
module NodeHeap {
  import opened Trees
  import opened Queries

  /** A pointer to a TreeNode: a heap slot, or NULL. */
  type Ptr = int

  const NULL: Ptr := -1

  /** One TreeNode record: its key and its two child links. */
  datatype TreeNode = TreeNode(data: int, left: Ptr, right: Ptr)

  type Memory = seq<TreeNode>

  predicate IsPtr(mem: Memory, p: Ptr)
  {
    p == NULL || 0 <= p < |mem|
  }

  /**
   * Every non-null link leads to a slot allocated after the node holding it:
   * a node is always created before it is hung below an existing one.  This
   * rules out cycles and gives every descent a measure.
   */
  predicate WellLinked(mem: Memory)
  {
    forall i :: 0 <= i < |mem| ==>
      (mem[i].left == NULL || i < mem[i].left < |mem|) &&
      (mem[i].right == NULL || i < mem[i].right < |mem|)
  }

  /** Termination measure of a descent: shrinks from a node to each of its children. */
  function Rank(mem: Memory, p: Ptr): nat
    requires IsPtr(mem, p)
  {
    if p == NULL then 0 else |mem| - p
  }

  /** The abstract tree whose root p points to. */
  ghost function TreeAt(mem: Memory, p: Ptr): Tree
    requires WellLinked(mem) && IsPtr(mem, p)
    decreases Rank(mem, p)
  {
    if p == NULL then Nil
    else Node(TreeAt(mem, mem[p].left), mem[p].data, TreeAt(mem, mem[p].right))
  }

  /** The slots of the nodes reachable from p: p itself and slots allocated after it. */
  ghost function Nodes(mem: Memory, p: Ptr): (s: set<Ptr>)
    requires WellLinked(mem) && IsPtr(mem, p)
    ensures forall i :: i in s ==> p <= i < |mem|
    ensures p != NULL ==> p in s
    decreases Rank(mem, p)
  {
    if p == NULL then {}
    else {p} + Nodes(mem, mem[p].left) + Nodes(mem, mem[p].right)
  }

  /** Each node reachable from p contributes its key to the tree at p. */
  lemma {:induction false} NodesHoldKeys(mem: Memory, p: Ptr)
    requires WellLinked(mem) && IsPtr(mem, p)
    ensures forall i :: i in Nodes(mem, p) ==> mem[i].data in Keys(TreeAt(mem, p))
    decreases Rank(mem, p)
  {
    if p != NULL {
      NodesHoldKeys(mem, mem[p].left);
      NodesHoldKeys(mem, mem[p].right);
    }
  }

  /** In a search tree the two subtrees of a node share no node and do not reach back to it. */
  lemma ChildrenDisjoint(mem: Memory, p: Ptr)
    requires WellLinked(mem) && 0 <= p < |mem| && IsBST(TreeAt(mem, p))
    ensures Nodes(mem, mem[p].left) !! Nodes(mem, mem[p].right)
    ensures p !in Nodes(mem, mem[p].left) + Nodes(mem, mem[p].right)
  {
    var l, r := mem[p].left, mem[p].right;
    NodesHoldKeys(mem, l);
    NodesHoldKeys(mem, r);
    assert forall x :: x in Keys(TreeAt(mem, l)) ==> x < mem[p].data;
    assert forall x :: x in Keys(TreeAt(mem, r)) ==> mem[p].data < x;
  }

  /** The tree at p reads only the nodes reachable from p; another heap that agrees on them gives the same tree. */
  lemma {:induction false} TreeAtFrame(mem: Memory, mem': Memory, p: Ptr)
    requires WellLinked(mem) && WellLinked(mem') && IsPtr(mem, p) && |mem| <= |mem'|
    requires forall i :: i in Nodes(mem, p) ==> mem'[i] == mem[i]
    ensures TreeAt(mem', p) == TreeAt(mem, p)
    decreases Rank(mem, p)
  {
    if p != NULL {
      TreeAtFrame(mem, mem', mem[p].left);
      TreeAtFrame(mem, mem', mem[p].right);
    }
  }

  // ---------------------------------------------------------------------------
  // Search path shared by both insertions
  // ---------------------------------------------------------------------------

  /** The child the search for v moves to from node c; NULL when c holds v. */
  function Next(mem: Memory, c: Ptr, v: int): Ptr
    requires 0 <= c < |mem|
  {
    if mem[c].data > v then mem[c].left
    else if mem[c].data < v then mem[c].right
    else NULL
  }

  /**
   * The last node the search for v visits from p: the node that holds v, or
   * the node whose empty link the search reaches; NULL for an empty tree.
   */
  ghost function SearchEnd(mem: Memory, p: Ptr, v: int): (e: Ptr)
    requires WellLinked(mem) && IsPtr(mem, p)
    ensures e == NULL <==> p == NULL
    ensures e != NULL ==> e in Nodes(mem, p)
    decreases Rank(mem, p)
  {
    if p == NULL then NULL
    else if Next(mem, p, v) == NULL then p
    else SearchEnd(mem, Next(mem, p, v), v)
  }

  /** The search for v from p meets a node that holds v. */
  ghost predicate Contains(mem: Memory, p: Ptr, v: int)
    requires WellLinked(mem) && IsPtr(mem, p)
  {
    p != NULL && mem[SearchEnd(mem, p, v)].data == v
  }

  /** In a search tree, the search finds v exactly when v is one of its keys. */
  lemma {:induction false} ContainsIffKey(mem: Memory, p: Ptr, v: int)
    requires WellLinked(mem) && IsPtr(mem, p) && IsBST(TreeAt(mem, p))
    ensures Contains(mem, p, v) <==> v in Keys(TreeAt(mem, p))
    decreases Rank(mem, p)
  {
    if p != NULL {
      var l, r := mem[p].left, mem[p].right;
      assert forall x :: x in Keys(TreeAt(mem, l)) ==> x < mem[p].data;
      assert forall x :: x in Keys(TreeAt(mem, r)) ==> mem[p].data < x;
      if Next(mem, p, v) != NULL {
        ContainsIffKey(mem, Next(mem, p, v), v);
      }
    }
  }

  /**
   * The heap after a new leaf holding v takes the next free slot and, unless
   * parent is NULL, is hung from parent's link on v's side.
   */
  ghost function Link(mem: Memory, parent: Ptr, v: int): (m: Memory)
    requires IsPtr(mem, parent)
  {
    var grown := mem + [TreeNode(v, NULL, NULL)];
    if parent == NULL then grown
    else if mem[parent].data > v then grown[parent := mem[parent].(left := |mem|)]
    else grown[parent := mem[parent].(right := |mem|)]
  }

  /**
   * The heap after inserting v into the tree at root: unchanged when the
   * search meets v, otherwise a new leaf hung below the last node visited.
   */
  ghost function Attach(mem: Memory, root: Ptr, v: int): Memory
    requires WellLinked(mem) && IsPtr(mem, root)
  {
    if Contains(mem, root, v) then mem else Link(mem, SearchEnd(mem, root, v), v)
  }

  /** The root after an insertion: the new node when the tree was empty. */
  function NewRoot(mem: Memory, root: Ptr): Ptr
  {
    if root == NULL then |mem| else root
  }

  lemma LinkWellLinked(mem: Memory, parent: Ptr, v: int)
    requires WellLinked(mem) && IsPtr(mem, parent)
    ensures WellLinked(Link(mem, parent, v))
    ensures |Link(mem, parent, v)| == |mem| + 1
    ensures Link(mem, parent, v)[|mem|] == TreeNode(v, NULL, NULL)
  {
  }

  /** Hanging the new leaf below the search's last node performs the reference insertion. */
  lemma {:induction false} LinkIsInsert(mem: Memory, j: Ptr, v: int)
    requires WellLinked(mem) && 0 <= j < |mem| && IsBST(TreeAt(mem, j))
    requires !Contains(mem, j, v)
    ensures WellLinked(Link(mem, SearchEnd(mem, j, v), v))
    ensures TreeAt(Link(mem, SearchEnd(mem, j, v), v), j) == Insert(TreeAt(mem, j), v)
    decreases Rank(mem, j)
  {
    var p := SearchEnd(mem, j, v);
    var m := Link(mem, p, v);
    LinkWellLinked(mem, p, v);
    var next := Next(mem, j, v);
    var goLeft := mem[j].data > v;
    var other := if goLeft then mem[j].right else mem[j].left;
    ChildrenDisjoint(mem, j);
    assert TreeAt(m, |mem|) == Node(Nil, v, Nil);
    if next == NULL {
      assert p == j;
      TreeAtFrame(mem, m, other);
    } else {
      assert p == SearchEnd(mem, next, v);
      LinkIsInsert(mem, next, v);
      assert m[j] == mem[j];
      assert p !in Nodes(mem, other);
      TreeAtFrame(mem, m, other);
    }
  }

  /**
   * Refinement: in a search tree, the heap Attach leaves behind holds, at the
   * returned root, exactly the reference insertion of v into the old tree.
   */
  lemma AttachIsInsert(mem: Memory, root: Ptr, v: int)
    requires WellLinked(mem) && IsPtr(mem, root) && IsBST(TreeAt(mem, root))
    ensures WellLinked(Attach(mem, root, v))
    ensures IsPtr(Attach(mem, root, v), NewRoot(mem, root))
    ensures TreeAt(Attach(mem, root, v), NewRoot(mem, root)) == Insert(TreeAt(mem, root), v)
  {
    if Contains(mem, root, v) {
      ContainsIffKey(mem, root, v);
      InsertSize(TreeAt(mem, root), v);
    } else if root == NULL {
      LinkWellLinked(mem, NULL, v);
    } else {
      LinkIsInsert(mem, root, v);
    }
  }

  /** The state of node_insert_iter's search loop: the pointers p and c, and whether it has broken out. */
  datatype Step = Step(parent: Ptr, current: Ptr, exited: bool)

  /**
   * One pass of node_insert_iter's search loop, from parent p and current
   * node c: step to the child on data's side, reporting whether that child is
   * NULL (the loop's exit).  When c holds data neither branch applies and
   * the state comes back unchanged.
   */
  function Descend(mem: Memory, p: Ptr, c: Ptr, data: int): (s: Step)
    requires WellLinked(mem) && 0 <= c < |mem|
    ensures s.exited ==> s.parent == c && s.current == NULL
    ensures !s.exited ==> 0 <= s.current < |mem|
  {
    if mem[c].data == data then Step(p, c, false)
    else Step(c, Next(mem, c, data), Next(mem, c, data) == NULL)
  }

  /** The loop state of node_insert_iter after k passes from (p, c). */
  ghost function Passes(mem: Memory, p: Ptr, c: Ptr, data: int, k: nat): Step
    requires WellLinked(mem) && 0 <= c < |mem|
    decreases k
  {
    if k == 0 then Step(p, c, false)
    else
      var s := Descend(mem, p, c, data);
      if s.exited then s else Passes(mem, s.parent, s.current, data, k - 1)
  }

  /**
   * node_insert_iter as written does not terminate on a key that is already
   * present: however many passes it makes, its search loop has not exited.
   */
  lemma {:induction false} DuplicateNeverExits(mem: Memory, p: Ptr, c: Ptr, data: int, k: nat)
    requires WellLinked(mem) && 0 <= c < |mem| && Contains(mem, c, data)
    ensures !Passes(mem, p, c, data, k).exited
    decreases k
  {
    if k > 0 {
      var s := Descend(mem, p, c, data);
      DuplicateNeverExits(mem, s.parent, s.current, data, k - 1);
    }
  }

  // ---------------------------------------------------------------------------
  // Visit orders
  // ---------------------------------------------------------------------------

  /** The nodes reachable from p in left / node / right order. */
  ghost function InOrderPtrs(mem: Memory, p: Ptr): (s: seq<Ptr>)
    requires WellLinked(mem) && IsPtr(mem, p)
    ensures |s| == Size(TreeAt(mem, p))
    ensures forall i :: 0 <= i < |s| ==> 0 <= s[i] < |mem|
    decreases Rank(mem, p)
  {
    if p == NULL then []
    else InOrderPtrs(mem, mem[p].left) + [p] + InOrderPtrs(mem, mem[p].right)
  }

  /** The nodes reachable from p in left / right / node order. */
  ghost function PostOrderPtrs(mem: Memory, p: Ptr): (s: seq<Ptr>)
    requires WellLinked(mem) && IsPtr(mem, p)
    ensures forall x :: x in s <==> x in Nodes(mem, p)
    decreases Rank(mem, p)
  {
    if p == NULL then []
    else PostOrderPtrs(mem, mem[p].left) + PostOrderPtrs(mem, mem[p].right) + [p]
  }

  /** The keys met along the in-order visit are the in-order keys of the tree. */
  lemma {:induction false} InOrderPtrsKeys(mem: Memory, p: Ptr)
    requires WellLinked(mem) && IsPtr(mem, p)
    ensures forall i :: 0 <= i < |InOrderPtrs(mem, p)| ==>
      mem[InOrderPtrs(mem, p)[i]].data == InOrder(TreeAt(mem, p))[i]
    decreases Rank(mem, p)
  {
    if p != NULL {
      var l, r := mem[p].left, mem[p].right;
      InOrderPtrsKeys(mem, l);
      InOrderPtrsKeys(mem, r);
      var a, b := InOrderPtrs(mem, l), InOrderPtrs(mem, r);
      var ka, kb := InOrder(TreeAt(mem, l)), InOrder(TreeAt(mem, r));
      var s, ks := a + [p] + b, ka + [mem[p].data] + kb;
      forall i | 0 <= i < |s| ensures mem[s[i]].data == ks[i] {
        if i < |a| {
          assert s[i] == a[i] && ks[i] == ka[i];
        } else if i > |a| {
          assert s[i] == b[i - |a| - 1] && ks[i] == kb[i - |a| - 1];
        }
      }
    }
  }

  /** Over a search tree, the in-order visit meets strictly ascending keys. */
  lemma InOrderVisitAscends(mem: Memory, p: Ptr)
    requires WellLinked(mem) && IsPtr(mem, p) && IsBST(TreeAt(mem, p))
    ensures forall i, j :: 0 <= i < j < |InOrderPtrs(mem, p)| ==>
      mem[InOrderPtrs(mem, p)[i]].data < mem[InOrderPtrs(mem, p)[j]].data
  {
    InOrderPtrsKeys(mem, p);
    InOrderAscending(TreeAt(mem, p));
  }

  /**
   * The links below p form a tree, not a graph with sharing: at every node
   * the two subtrees reach disjoint sets of nodes.
   */
  ghost predicate TreeShaped(mem: Memory, p: Ptr)
    requires WellLinked(mem) && IsPtr(mem, p)
    decreases Rank(mem, p)
  {
    p != NULL ==>
      Nodes(mem, mem[p].left) !! Nodes(mem, mem[p].right) &&
      TreeShaped(mem, mem[p].left) && TreeShaped(mem, mem[p].right)
  }

  /** Below a search tree no node is shared, since a shared node would hold a key on both sides. */
  lemma {:induction false} SearchTreeIsTreeShaped(mem: Memory, p: Ptr)
    requires WellLinked(mem) && IsPtr(mem, p) && IsBST(TreeAt(mem, p))
    ensures TreeShaped(mem, p)
    decreases Rank(mem, p)
  {
    if p != NULL {
      ChildrenDisjoint(mem, p);
      SearchTreeIsTreeShaped(mem, mem[p].left);
      SearchTreeIsTreeShaped(mem, mem[p].right);
    }
  }

  lemma NodesSplit(mem: Memory, p: Ptr)
    requires WellLinked(mem) && 0 <= p < |mem|
    ensures Nodes(mem, p) == Nodes(mem, mem[p].left) + Nodes(mem, mem[p].right) + {p}
    ensures p !in Nodes(mem, mem[p].left) + Nodes(mem, mem[p].right)
  {
  }

  lemma InOrderSplit(mem: Memory, p: Ptr)
    requires WellLinked(mem) && 0 <= p < |mem|
    ensures multiset(InOrderPtrs(mem, p)) ==
      multiset(InOrderPtrs(mem, mem[p].left)) + multiset(InOrderPtrs(mem, mem[p].right)) + multiset{p}
  {
  }

  lemma PostOrderSplit(mem: Memory, p: Ptr)
    requires WellLinked(mem) && 0 <= p < |mem|
    ensures multiset(PostOrderPtrs(mem, p)) ==
      multiset(PostOrderPtrs(mem, mem[p].left)) + multiset(PostOrderPtrs(mem, mem[p].right)) + multiset{p}
  {
  }

  /** Two disjoint visits and one further node visit their union once each. */
  lemma CountsJoin(ml: multiset<Ptr>, mr: multiset<Ptr>, p: Ptr, l: set<Ptr>, r: set<Ptr>)
    requires forall x :: ml[x] == if x in l then 1 else 0
    requires forall x :: mr[x] == if x in r then 1 else 0
    requires l !! r && p !in l + r
    ensures forall x :: (ml + mr + multiset{p})[x] == if x in l + r + {p} then 1 else 0
  {
  }

  lemma {:induction false} InOrderEachOnce(mem: Memory, p: Ptr)
    requires WellLinked(mem) && IsPtr(mem, p) && TreeShaped(mem, p)
    ensures forall x :: multiset(InOrderPtrs(mem, p))[x] == if x in Nodes(mem, p) then 1 else 0
    decreases Rank(mem, p)
  {
    if p != NULL {
      var l, r := mem[p].left, mem[p].right;
      InOrderEachOnce(mem, l);
      InOrderEachOnce(mem, r);
      InOrderSplit(mem, p);
      NodesSplit(mem, p);
      CountsJoin(multiset(InOrderPtrs(mem, l)), multiset(InOrderPtrs(mem, r)), p, Nodes(mem, l), Nodes(mem, r));
    }
  }

  lemma {:induction false} PostOrderEachOnce(mem: Memory, p: Ptr)
    requires WellLinked(mem) && IsPtr(mem, p) && TreeShaped(mem, p)
    ensures forall x :: multiset(PostOrderPtrs(mem, p))[x] == if x in Nodes(mem, p) then 1 else 0
    decreases Rank(mem, p)
  {
    if p != NULL {
      var l, r := mem[p].left, mem[p].right;
      PostOrderEachOnce(mem, l);
      PostOrderEachOnce(mem, r);
      PostOrderSplit(mem, p);
      NodesSplit(mem, p);
      CountsJoin(multiset(PostOrderPtrs(mem, l)), multiset(PostOrderPtrs(mem, r)), p, Nodes(mem, l), Nodes(mem, r));
    }
  }

  /** Over a search tree, the in-order visit meets every reachable node exactly once. */
  lemma InOrderVisitsEachOnce(mem: Memory, p: Ptr)
    requires WellLinked(mem) && IsPtr(mem, p) && IsBST(TreeAt(mem, p))
    ensures forall x :: multiset(InOrderPtrs(mem, p))[x] == if x in Nodes(mem, p) then 1 else 0
  {
    SearchTreeIsTreeShaped(mem, p);
    InOrderEachOnce(mem, p);
  }

  /** Over a search tree, the post-order release frees every reachable node exactly once. */
  lemma PostOrderReleasesEachOnce(mem: Memory, p: Ptr)
    requires WellLinked(mem) && IsPtr(mem, p) && IsBST(TreeAt(mem, p))
    ensures forall x :: multiset(PostOrderPtrs(mem, p))[x] == if x in Nodes(mem, p) then 1 else 0
  {
    SearchTreeIsTreeShaped(mem, p);
    PostOrderEachOnce(mem, p);
  }

  /** A node is released only after both of its children. */
  lemma {:induction false} PostOrderChildrenFirst(mem: Memory, p: Ptr, i: nat)
    requires WellLinked(mem) && IsPtr(mem, p) && i < |PostOrderPtrs(mem, p)|
    ensures 0 <= PostOrderPtrs(mem, p)[i] < |mem|
    ensures mem[PostOrderPtrs(mem, p)[i]].left != NULL ==>
      mem[PostOrderPtrs(mem, p)[i]].left in PostOrderPtrs(mem, p)[..i]
    ensures mem[PostOrderPtrs(mem, p)[i]].right != NULL ==>
      mem[PostOrderPtrs(mem, p)[i]].right in PostOrderPtrs(mem, p)[..i]
    decreases Rank(mem, p)
  {
    var l, r := mem[p].left, mem[p].right;
    var a, b := PostOrderPtrs(mem, l), PostOrderPtrs(mem, r);
    var s := a + b + [p];
    assert s == PostOrderPtrs(mem, p);
    if i < |a| {
      PostOrderChildrenFirst(mem, l, i);
      assert s[..i] == a[..i];
    } else if i < |a| + |b| {
      PostOrderChildrenFirst(mem, r, i - |a|);
      assert s[i] == b[i - |a|];
      assert s[..i] == a + b[..i - |a|];
    } else {
      assert s[..i] == a + b;
      if l != NULL { assert a[|a| - 1] == l; }
      if r != NULL { assert b[|b| - 1] == r; }
    }
  }

  /** Every entry of st points to an allocated node. */
  ghost predicate InHeap(mem: Memory, st: seq<Ptr>)
    decreases |st|
  {
    st != [] ==> 0 <= st[|st| - 1] < |mem| && InHeap(mem, st[..|st| - 1])
  }

  /**
   * What the iterative traversal still owes for stack st (top last): each
   * stacked node followed by its right subtree, from the top down.
   */
  ghost function Pending(mem: Memory, st: seq<Ptr>): seq<Ptr>
    requires WellLinked(mem) && InHeap(mem, st)
    decreases |st|
  {
    if st == [] then []
    else
      var x := st[|st| - 1];
      [x] + InOrderPtrs(mem, mem[x].right) + Pending(mem, st[..|st| - 1])
  }

  /**
   * A stack of nodes (top last) fits a traversal of a tree of the given
   * height: the node at depth i of the stack has a subtree of height at most
   * height - i.
   */
  ghost predicate StackFits(mem: Memory, st: seq<Ptr>, height: nat)
    requires WellLinked(mem) && InHeap(mem, st)
    decreases |st|
  {
    st != [] ==>
      |st| - 1 + TreeHeight(TreeAt(mem, st[|st| - 1])) <= height &&
      StackFits(mem, st[..|st| - 1], height)
  }

  /** The nodes met following left links from p: p, its left child, and so on down to NULL. */
  ghost function LeftSpine(mem: Memory, p: Ptr): seq<Ptr>
    requires WellLinked(mem) && IsPtr(mem, p)
    decreases Rank(mem, p)
  {
    if p == NULL then [] else [p] + LeftSpine(mem, mem[p].left)
  }

  /** Pushing p and moving to its left child keeps the stack on course to st + LeftSpine(node). */
  lemma SpineStep(mem: Memory, st: seq<Ptr>, p: Ptr)
    requires WellLinked(mem) && 0 <= p < |mem|
    ensures st + [p] + LeftSpine(mem, mem[p].left) == st + LeftSpine(mem, p)
  {
    assert LeftSpine(mem, p) == [p] + LeftSpine(mem, mem[p].left);
  }

  /** Pushing the current node and moving to its left child keeps the height budget. */
  lemma PushLeft(mem: Memory, st: seq<Ptr>, node: Ptr, height: nat)
    requires WellLinked(mem) && InHeap(mem, st) && StackFits(mem, st, height) && 0 <= node < |mem|
    requires |st| + TreeHeight(TreeAt(mem, node)) <= height
    ensures InHeap(mem, st + [node]) && StackFits(mem, st + [node], height)
    ensures |st| + 1 + TreeHeight(TreeAt(mem, mem[node].left)) <= height
  {
    var l, r := mem[node].left, mem[node].right;
    assert TreeAt(mem, node) == Node(TreeAt(mem, l), mem[node].data, TreeAt(mem, r));
    var st' := st + [node];
    assert st'[..|st'| - 1] == st;
  }

  /** Pushing the current node and moving to its left child leaves what is owed unchanged. */
  lemma PushOwes(mem: Memory, done: seq<Ptr>, st: seq<Ptr>, node: Ptr)
    requires WellLinked(mem) && InHeap(mem, st) && 0 <= node < |mem|
    ensures InHeap(mem, st + [node])
    ensures done + InOrderPtrs(mem, node) + Pending(mem, st) ==
      done + InOrderPtrs(mem, mem[node].left) + Pending(mem, st + [node])
  {
    var l, r := InOrderPtrs(mem, mem[node].left), InOrderPtrs(mem, mem[node].right);
    PendingPush(mem, st, node);
    assert InOrderPtrs(mem, node) == l + [node] + r;
    Regroup(done, l, node, r, Pending(mem, st));
  }

  /** Concatenation regrouped around one element. */
  lemma Regroup(a: seq<Ptr>, b: seq<Ptr>, x: Ptr, c: seq<Ptr>, d: seq<Ptr>)
    ensures a + (b + [x] + c) + d == a + b + ([x] + c + d)
  {
  }

  lemma PendingPush(mem: Memory, st: seq<Ptr>, node: Ptr)
    requires WellLinked(mem) && InHeap(mem, st) && 0 <= node < |mem|
    ensures InHeap(mem, st + [node])
    ensures Pending(mem, st + [node]) == [node] + InOrderPtrs(mem, mem[node].right) + Pending(mem, st)
  {
    var st' := st + [node];
    assert st'[..|st'| - 1] == st;
  }

  /** Popping the top node and moving to its right child keeps the height budget. */
  lemma PopRight(mem: Memory, st: seq<Ptr>, height: nat)
    requires WellLinked(mem) && InHeap(mem, st) && StackFits(mem, st, height) && st != []
    ensures InHeap(mem, st[..|st| - 1]) && StackFits(mem, st[..|st| - 1], height)
    ensures |st| - 1 + TreeHeight(TreeAt(mem, mem[st[|st| - 1]].right)) <= height
  {
    var x := st[|st| - 1];
    assert TreeAt(mem, x) == Node(TreeAt(mem, mem[x].left), mem[x].data, TreeAt(mem, mem[x].right));
  }

  /**
   * Once the current node is NULL, popping the top node hands it over,
   * followed by its right subtree.
   */
  lemma PopOwes(mem: Memory, done: seq<Ptr>, st: seq<Ptr>)
    requires WellLinked(mem) && InHeap(mem, st) && st != []
    ensures InHeap(mem, st[..|st| - 1])
    ensures done + InOrderPtrs(mem, NULL) + Pending(mem, st) ==
      done + [st[|st| - 1]] + InOrderPtrs(mem, mem[st[|st| - 1]].right) + Pending(mem, st[..|st| - 1])
  {
    var x := st[|st| - 1];
    var r, rest := InOrderPtrs(mem, mem[x].right), Pending(mem, st[..|st| - 1]);
    assert Pending(mem, st) == [x] + r + rest;
    Shift(done, InOrderPtrs(mem, NULL), x, r, rest);
  }

  /**
   * Concatenation with an empty part dropped, regrouped after one element.
   * The empty part is a parameter so that callers can pass
   * InOrderPtrs(mem, NULL) as it stands, without the solver unfolding it.
   */
  lemma Shift(a: seq<Ptr>, e: seq<Ptr>, x: Ptr, c: seq<Ptr>, d: seq<Ptr>)
    requires e == []
    ensures a + e + ([x] + c + d) == a + [x] + c + d
  {
  }

  /** A left child's subtree is strictly lower than its parent's. */
  lemma LeftLower(mem: Memory, p: Ptr)
    requires WellLinked(mem) && 0 <= p < |mem|
    ensures TreeHeight(TreeAt(mem, mem[p].left)) < TreeHeight(TreeAt(mem, p))
  {
    assert TreeAt(mem, p) == Node(TreeAt(mem, mem[p].left), mem[p].data, TreeAt(mem, mem[p].right));
  }

  /** Pushing the whole left spine of node keeps every stacked node within the height budget. */
  lemma {:induction false} SpineFits(mem: Memory, st: seq<Ptr>, node: Ptr, height: nat)
    requires WellLinked(mem) && InHeap(mem, st) && StackFits(mem, st, height) && IsPtr(mem, node)
    requires |st| + TreeHeight(TreeAt(mem, node)) <= height
    ensures InHeap(mem, st + LeftSpine(mem, node)) && StackFits(mem, st + LeftSpine(mem, node), height)
    decreases Rank(mem, node)
  {
    if node == NULL {
      assert st + LeftSpine(mem, node) == st;
    } else {
      PushLeft(mem, st, node, height);
      SpineFits(mem, st + [node], mem[node].left, height);
      SpineStep(mem, st, node);
    }
  }

  /**
   * Pushing the whole left spine of node leaves what is owed unchanged: the
   * visit of node's subtree is taken over by the spine's pending entries.
   */
  lemma {:induction false} SpineOwes(mem: Memory, done: seq<Ptr>, st: seq<Ptr>, node: Ptr)
    requires WellLinked(mem) && InHeap(mem, st) && IsPtr(mem, node)
    ensures InHeap(mem, st + LeftSpine(mem, node))
    ensures done + InOrderPtrs(mem, node) + Pending(mem, st) ==
      done + InOrderPtrs(mem, NULL) + Pending(mem, st + LeftSpine(mem, node))
    decreases Rank(mem, node)
  {
    if node == NULL {
      assert st + LeftSpine(mem, node) == st;
    } else {
      PushOwes(mem, done, st, node);
      SpineOwes(mem, done, st + [node], mem[node].left);
      SpineStep(mem, st, node);
    }
  }

  /**
   * The inner loop of inorder_iter as one step: after the whole left spine of
   * node is pushed, the budget still holds and what is owed is unchanged.
   */
  lemma PushStep(mem: Memory, visited: seq<Ptr>, st: seq<Ptr>, node: Ptr, height: nat, whole: seq<Ptr>)
    requires WellLinked(mem) && InHeap(mem, st) && StackFits(mem, st, height) && IsPtr(mem, node)
    requires |st| + TreeHeight(TreeAt(mem, node)) <= height
    requires visited + InOrderPtrs(mem, node) + Pending(mem, st) == whole
    ensures var pushed := st + LeftSpine(mem, node);
      InHeap(mem, pushed) && StackFits(mem, pushed, height) &&
      visited + InOrderPtrs(mem, NULL) + Pending(mem, pushed) == whole
  {
    SpineFits(mem, st, node, height);
    SpineOwes(mem, visited, st, node);
  }

  /**
   * One pop of inorder_iter once the current node is NULL: the top node x is
   * visited and the traversal continues at its right child with x off the
   * stack; the height budget and what is still owed carry over.
   */
  lemma PopStep(mem: Memory, visited: seq<Ptr>, st: seq<Ptr>, height: nat, whole: seq<Ptr>)
    requires WellLinked(mem) && InHeap(mem, st) && StackFits(mem, st, height) && st != []
    requires visited + InOrderPtrs(mem, NULL) + Pending(mem, st) == whole
    ensures var x, rest := st[|st| - 1], st[..|st| - 1];
      IsPtr(mem, mem[x].right) && InHeap(mem, rest) && StackFits(mem, rest, height) &&
      |rest| + TreeHeight(TreeAt(mem, mem[x].right)) <= height &&
      (visited + [x]) + InOrderPtrs(mem, mem[x].right) + Pending(mem, rest) == whole &&
      |visited| < |whole|
  {
    PopRight(mem, st, height);
    PopOwes(mem, visited, st);
  }

  /** `temp = stack[top--]` on a non-empty stack: returns the top entry and the stack below it. */
  method Pop(stack: array<Ptr>, top: int, ghost st: seq<Ptr>) returns (node: Ptr, newTop: int, ghost rest: seq<Ptr>)
    requires 0 <= top < stack.Length && stack[..top + 1] == st
    ensures node == st[|st| - 1] && rest == st[..|st| - 1]
    ensures newTop == top - 1 && stack[..newTop + 1] == rest
  {
    node := stack[top];
    newTop := top - 1;
    rest := st[..|st| - 1];
    assert stack[..newTop + 1] == stack[..top + 1][..top];
  }

  /** With no current node and an empty stack, nothing more is owed. */
  lemma NothingOwed(mem: Memory, done: seq<Ptr>)
    requires WellLinked(mem)
    ensures done + InOrderPtrs(mem, NULL) + Pending(mem, []) == done
  {
  }

  /** Writing p one past the live prefix of a stack array extends that prefix by p. */
  lemma SlotWritten(before: seq<Ptr>, after: seq<Ptr>, k: nat, live: seq<Ptr>, p: Ptr)
    requires k < |before| && after == before[k := p] && before[..k] == live
    ensures after[..k + 1] == live + [p]
  {
    assert after[..k] == live;
  }

  class Heap {
    /** The TreeNode records allocated so far, by slot. */
    var mem: Memory

    ghost predicate Valid()
      reads this
    {
      WellLinked(mem)
    }

    constructor ()
      ensures Valid() && mem == []
    {
      mem := [];
    }

    /** addNode: a new node holding data, with both links NULL, in the next free slot. */
    method AddNode(data: int) returns (node: Ptr)
      requires Valid()
      modifies this
      ensures Valid()
      ensures mem == old(mem) + [TreeNode(data, NULL, NULL)]
      ensures node == |old(mem)|
    {
      node := |mem|;
      mem := mem + [TreeNode(data, NULL, NULL)];
    }

    /**
     * node_insert_iter: on an empty tree the new node becomes the root;
     * otherwise walk down with parent p and current c until c falls off at a
     * NULL link, then hang the new leaf from p on data's side.  The loop only
     * exits when the search misses data (see DuplicateNeverExits).
     */
    method InsertIter(root: Ptr, data: int) returns (newRoot: Ptr)
      requires Valid() && IsPtr(mem, root)
      requires !Contains(mem, root, data)
      modifies this
      ensures Valid()
      ensures mem == Attach(old(mem), root, data)
      ensures newRoot == NewRoot(old(mem), root)
      ensures IsBST(TreeAt(old(mem), root)) ==>
        TreeAt(mem, newRoot) == Insert(TreeAt(old(mem), root), data)
    {
      ghost var mem0 := mem;
      var p := NULL;
      var c := root;
      if c == NULL {
        newRoot := AddNode(data);
      } else {
        newRoot := root;
        while true
          invariant 0 <= c < |mem| && mem == mem0
          invariant SearchEnd(mem, c, data) == SearchEnd(mem, root, data)
          decreases Rank(mem, c)
        {
          var step := Descend(mem, p, c, data);
          p, c := step.parent, step.current;
          if step.exited {
            break;
          }
        }
        assert p == SearchEnd(mem, root, data);
        if mem[p].data > data {
          var n := AddNode(data);
          mem := mem[p := mem[p].(left := n)];
        } else if mem[p].data < data {
          var n := AddNode(data);
          mem := mem[p := mem[p].(right := n)];
        }
      }
      if IsBST(TreeAt(mem0, root)) {
        AttachIsInsert(mem0, root, data);
      }
    }

    /**
     * node_insert_iter with the missing exit added: the search loop returns
     * as soon as it meets a node holding data, so a duplicate is dropped.
     */
    method InsertIterFixed(root: Ptr, data: int) returns (newRoot: Ptr)
      requires Valid() && IsPtr(mem, root)
      modifies this
      ensures Valid()
      ensures mem == Attach(old(mem), root, data)
      ensures newRoot == NewRoot(old(mem), root)
      ensures IsBST(TreeAt(old(mem), root)) ==>
        TreeAt(mem, newRoot) == Insert(TreeAt(old(mem), root), data)
    {
      ghost var mem0 := mem;
      var p := NULL;
      var c := root;
      newRoot := root;
      if c == NULL {
        newRoot := AddNode(data);
      } else {
        while true
          invariant 0 <= c < |mem| && mem == mem0
          invariant SearchEnd(mem, c, data) == SearchEnd(mem, root, data)
          decreases Rank(mem, c)
        {
          if mem[c].data == data {
            break;
          }
          var step := Descend(mem, p, c, data);
          p, c := step.parent, step.current;
          if step.exited {
            break;
          }
        }
        if c != NULL {
          assert Contains(mem, root, data);
        } else if mem[p].data > data {
          var n := AddNode(data);
          mem := mem[p := mem[p].(left := n)];
        } else if mem[p].data < data {
          var n := AddNode(data);
          mem := mem[p := mem[p].(right := n)];
        }
      }
      if IsBST(TreeAt(mem0, root)) {
        AttachIsInsert(mem0, root, data);
      }
    }

    /**
     * node_insert_recur: a NULL subtree becomes a new node; otherwise recurse
     * on the child on value's side and store the returned subtree back into
     * that link.  A node holding value ends the descent with nothing changed.
     */
    method InsertRecur(node: Ptr, value: int) returns (r: Ptr)
      requires Valid() && IsPtr(mem, node)
      modifies this
      ensures Valid()
      ensures mem == Attach(old(mem), node, value)
      ensures r == NewRoot(old(mem), node)
      ensures Contains(old(mem), node, value) ==> mem == old(mem)
      ensures IsBST(TreeAt(old(mem), node)) ==>
        TreeAt(mem, r) == Insert(TreeAt(old(mem), node), value)
      decreases Rank(mem, node)
    {
      ghost var mem0 := mem;
      if node == NULL {
        r := AddNode(value);
        return;
      }
      if mem[node].data > value {
        var sub := InsertRecur(mem[node].left, value);
        RelinkOnPath(mem0, node, value, mem);
        mem := mem[node := mem[node].(left := sub)];
      } else if mem[node].data < value {
        var sub := InsertRecur(mem[node].right, value);
        RelinkOnPath(mem0, node, value, mem);
        mem := mem[node := mem[node].(right := sub)];
      }
      r := node;
      if IsBST(TreeAt(mem0, node)) {
        AttachIsInsert(mem0, node, value);
      }
    }

    /**
     * inorder_recur: visits the subtree at temp in order and adds one to the
     * running counter (the global recur_count) per node visited.
     */
    method InorderRecur(temp: Ptr, count: int) returns (newCount: int, ghost visited: seq<Ptr>)
      requires Valid() && IsPtr(mem, temp)
      ensures visited == InOrderPtrs(mem, temp)
      ensures newCount == count + Size(TreeAt(mem, temp))
      decreases Rank(mem, temp)
    {
      if temp == NULL {
        return count, [];
      }
      ghost var before, after;
      newCount, before := InorderRecur(mem[temp].left, count);
      newCount := newCount + 1;
      newCount, after := InorderRecur(mem[temp].right, newCount);
      visited := before + [temp] + after;
    }

    /**
     * The inner loop of inorder_iter: push node and then each left child in
     * turn until the link is NULL.  The entries below the old top stay, the
     * new ones are node's left spine, and with height the height of the whole
     * tree the top index stays below it.
     */
    method PushLeftSpine(node: Ptr, stack: array<Ptr>, top: int, ghost st: seq<Ptr>, ghost height: nat)
      returns (newTop: int, ghost newSt: seq<Ptr>)
      requires Valid() && IsPtr(mem, node) && top + 1 == |st| <= stack.Length && height <= stack.Length
      requires stack[..top + 1] == st
      requires |st| + TreeHeight(TreeAt(mem, node)) <= height
      modifies stack
      ensures newSt == st + LeftSpine(mem, node)
      ensures newTop + 1 == |newSt| <= stack.Length && newTop < height
      ensures stack[..newTop + 1] == newSt
    {
      ghost var m := mem;
      var p := node;
      newTop, newSt := top, st;
      while p != NULL
        invariant IsPtr(m, p) && newTop + 1 == |newSt| <= stack.Length
        invariant newSt + LeftSpine(m, p) == st + LeftSpine(m, node)
        invariant stack[..newTop + 1] == newSt
        invariant |newSt| + TreeHeight(TreeAt(m, p)) <= height
        decreases Rank(m, p)
      {
        LeftLower(m, p);
        SpineStep(m, newSt, p);
        newTop := newTop + 1;
        ghost var before := stack[..];
        stack[newTop] := p;
        SlotWritten(before, stack[..], newTop, newSt, p);
        newSt := newSt + [p];
        p := mem[p].left;
      }
      assert newSt + LeftSpine(m, p) == newSt;
    }

    /**
     * inorder_iter: push the left spine of the current node on the caller's
     * stack, pop a node, count it, continue with its right child; stop once the
     * stack is empty with no current node.  The stack needs one slot per level
     * of the tree: its top index stays below the tree's height.
     */
    method InorderIter(temp: Ptr, stack: array<Ptr>, count: int)
      returns (newCount: int, ghost visited: seq<Ptr>)
      requires Valid() && IsPtr(mem, temp)
      requires stack.Length >= TreeHeight(TreeAt(mem, temp))
      modifies stack
      ensures visited == InOrderPtrs(mem, temp)
      ensures newCount == count + Size(TreeAt(mem, temp))
    {
      ghost var m := mem;
      ghost var height := TreeHeight(TreeAt(m, temp));
      ghost var whole := InOrderPtrs(m, temp);
      ghost var st: seq<Ptr> := [];
      var node := temp;
      var top := -1;
      newCount := count;
      visited := [];
      while true
        invariant IsPtr(m, node) && top + 1 == |st| <= stack.Length
        invariant stack[..top + 1] == st
        invariant InHeap(m, st) && StackFits(m, st, height)
        invariant |st| + TreeHeight(TreeAt(m, node)) <= height
        invariant visited + InOrderPtrs(m, node) + Pending(m, st) == whole
        invariant newCount == count + |visited|
        decreases |whole| - |visited|
      {
        PushStep(m, visited, st, node, height, whole);
        top, st := PushLeftSpine(node, stack, top, st, height);
        node := NULL;  // the inner loop leaves temp at the NULL link below the spine
        if top == -1 {
          NothingOwed(m, visited);
          break;
        }
        PopStep(m, visited, st, height, whole);
        node, top, st := Pop(stack, top, st);
        newCount := newCount + 1;
        visited := visited + [node];
        node := mem[node].right;
      }
    }

    /** free_TreeNode: releases the left subtree, then the right one, then the node; returns the slots in release order. */
    method FreeTree(temp: Ptr) returns (released: seq<Ptr>)
      requires Valid() && IsPtr(mem, temp)
      ensures released == PostOrderPtrs(mem, temp)
      decreases Rank(mem, temp)
    {
      if temp == NULL {
        return [];
      }
      var left := FreeTree(mem[temp].left);
      var right := FreeTree(mem[temp].right);
      released := left + right + [temp];
    }
  }

  /**
   * One level of node_insert_recur: once the recursive call on the child on
   * v's side has turned the heap into Attach(mem, child, v), storing the
   * returned subtree back into that link yields Attach(mem, node, v).
   */
  lemma RelinkOnPath(mem: Memory, node: Ptr, v: int, after: Memory)
    requires WellLinked(mem) && 0 <= node < |mem| && mem[node].data != v
    requires after == Attach(mem, Next(mem, node, v), v)
    ensures node < |after| && after[node] == mem[node]
    ensures var sub := NewRoot(mem, Next(mem, node, v));
      Attach(mem, node, v) ==
        if mem[node].data > v then after[node := after[node].(left := sub)]
        else after[node := after[node].(right := sub)]
  {
    var child := Next(mem, node, v);
    if child != NULL && !Contains(mem, child, v) {
      assert SearchEnd(mem, child, v) > node;
    }
  }
}
