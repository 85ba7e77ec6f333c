/**
 * Counting unival subtrees of a binary tree.
 *
 * A subtree is unival when every node in it holds the same value. The
 * counter walks the tree bottom-up: it visits both children first, then
 * accepts the current node only if both child subtrees are unival and every
 * present child holds the node's own value; each accepted node adds one to a
 * shared counter.
 */
module Unival {

  /** A binary tree of integer-valued nodes; `Leaf` is the empty (null) tree. */
  datatype Tree = Leaf | Node(data: int, left: Tree, right: Tree)

  /** The values held by the nodes of `t`. */
  function Values(t: Tree): set<int>
  {
    match t
    case Leaf => {}
    case Node(v, l, r) => {v} + Values(l) + Values(r)
  }

  /** The empty tree is unival; a non-empty tree is unival when every value in it equals the root's. */
  predicate IsUnival(t: Tree)
  {
    t.Leaf? || forall x :: x in Values(t) ==> x == t.data
  }

  /** Number of (non-null) nodes of `t`. */
  function Size(t: Tree): nat
  {
    match t
    case Leaf => 0
    case Node(_, l, r) => 1 + Size(l) + Size(r)
  }

  /** Number of nodes of `t` with no children. */
  function LeafCount(t: Tree): nat
  {
    match t
    case Leaf => 0
    case Node(_, Leaf, Leaf) => 1
    case Node(_, l, r) => LeafCount(l) + LeafCount(r)
  }

  /** The subtrees rooted at the nodes of `t`, in preorder: one entry per node. */
  function Subtrees(t: Tree): (ss: seq<Tree>)
    ensures |ss| == Size(t)
    ensures forall i :: 0 <= i < |ss| ==> ss[i].Node?
  {
    match t
    case Leaf => []
    case Node(_, l, r) => [t] + Subtrees(l) + Subtrees(r)
  }

  /** How many trees of `ss` are unival. */
  function NumUnival(ss: seq<Tree>): nat
  {
    if ss == [] then 0
    else (if IsUnival(ss[0]) then 1 else 0) + NumUnival(ss[1..])
  }

  /** The number of nodes of `t` whose subtree is unival. */
  function CountUnival(t: Tree): nat
  {
    NumUnival(Subtrees(t))
  }

  /** Counting unival trees distributes over concatenation. */
  lemma {:induction false} NumUnivalAppend(a: seq<Tree>, b: seq<Tree>)
    ensures NumUnival(a + b) == NumUnival(a) + NumUnival(b)
  {
    if a == [] {
      assert a + b == b;
    } else {
      assert (a + b)[1..] == a[1..] + b;
      NumUnivalAppend(a[1..], b);
    }
  }

  /** The count never exceeds the number of trees counted. */
  lemma {:induction false} NumUnivalAtMostLength(ss: seq<Tree>)
    ensures NumUnival(ss) <= |ss|
  {
    if ss != [] {
      NumUnivalAtMostLength(ss[1..]);
    }
  }

  /**
   * The count of a node splits into the counts of its children plus one for
   * the node itself exactly when its whole subtree is unival.
   */
  lemma CountUnivalNode(v: int, l: Tree, r: Tree)
    ensures CountUnival(Node(v, l, r))
         == CountUnival(l) + CountUnival(r) + (if IsUnival(Node(v, l, r)) then 1 else 0)
  {
    var t := Node(v, l, r);
    assert Subtrees(t) == [t] + (Subtrees(l) + Subtrees(r));
    NumUnivalAppend([t], Subtrees(l) + Subtrees(r));
    NumUnivalAppend(Subtrees(l), Subtrees(r));
  }

  /** The root of a non-empty tree holds one of its values. */
  lemma RootValue(t: Tree)
    requires t.Node?
    ensures t.data in Values(t)
  {
  }

  /**
   * The bottom-up rule the counter applies: a node is unival exactly when
   * both child subtrees are unival and every present child holds the node's
   * value.
   */
  lemma UnivalStep(v: int, l: Tree, r: Tree)
    ensures IsUnival(Node(v, l, r)) <==>
            IsUnival(l) && IsUnival(r)
            && (l.Node? ==> l.data == v) && (r.Node? ==> r.data == v)
  {
    var t := Node(v, l, r);
    assert Values(t) == {v} + Values(l) + Values(r);
    if l.Node? { RootValue(l); }
    if r.Node? { RootValue(r); }
    if IsUnival(l) && IsUnival(r) && (l.Node? ==> l.data == v) && (r.Node? ==> r.data == v) {
      forall x | x in Values(t) ensures x == v {
        if x in Values(l) { assert l.Node?; }
        if x in Values(r) { assert r.Node?; }
      }
    }
  }

  /** If either child subtree is not unival, the node is rejected and adds nothing to the count. */
  lemma FailingChild(v: int, l: Tree, r: Tree)
    requires !IsUnival(l) || !IsUnival(r)
    ensures !IsUnival(Node(v, l, r))
    ensures CountUnival(Node(v, l, r)) == CountUnival(l) + CountUnival(r)
  {
    UnivalStep(v, l, r);
    CountUnivalNode(v, l, r);
  }

  /** A present child holding a different value rejects the node, even when both children are unival. */
  lemma MismatchedChild(v: int, l: Tree, r: Tree)
    requires (l.Node? && l.data != v) || (r.Node? && r.data != v)
    ensures !IsUnival(Node(v, l, r))
    ensures CountUnival(Node(v, l, r)) == CountUnival(l) + CountUnival(r)
  {
    UnivalStep(v, l, r);
    CountUnivalNode(v, l, r);
  }

  /** A node with no children is unival and counts exactly once. */
  lemma ChildlessNode(v: int)
    ensures IsUnival(Node(v, Leaf, Leaf))
    ensures CountUnival(Node(v, Leaf, Leaf)) == 1
  {
    assert Values(Node(v, Leaf, Leaf)) == {v};
    CountUnivalNode(v, Leaf, Leaf);
  }

  /** Every childless node is counted, and no node is counted twice. */
  lemma {:induction false} CountBounds(t: Tree)
    ensures LeafCount(t) <= CountUnival(t) <= Size(t)
  {
    NumUnivalAtMostLength(Subtrees(t));
    match t
    case Leaf =>
    case Node(v, l, r) =>
      CountUnivalNode(v, l, r);
      CountBounds(l);
      CountBounds(r);
      if l.Leaf? && r.Leaf? {
        ChildlessNode(v);
      }
  }

  /**
   * The shared counter of unival subtrees. `count` stands for the program's
   * global counter; `FindUnival` adds to it in place.
   */
  class Counter {
    var count: int

    constructor ()
      ensures count == 0
    {
      count := 0;
    }

    /**
     * Reports whether `root` is unival, after visiting both children
     * unconditionally (left, then right), and adds one to `count` for every
     * node of `root` whose subtree is unival.
     */
    method FindUnival(root: Tree) returns (b: bool)
      modifies this
      ensures b == IsUnival(root)
      ensures count == old(count) + CountUnival(root)
    {
      if root.Leaf? {
        return true;
      }
      UnivalStep(root.data, root.left, root.right);
      CountUnivalNode(root.data, root.left, root.right);
      var left := FindUnival(root.left);
      var right := FindUnival(root.right);
      if !left || !right {
        return false;
      }
      if root.left.Node? && root.left.data != root.data {
        return false;
      }
      if root.right.Node? && root.right.data != root.data {
        return false;
      }
      count := count + 1;
      return true;
    }
  }

  /**
   * The example tree
   *        0
   *       / \
   *      1   0
   *         / \
   *        1   0
   *       / \
   *      1   1
   */
  function ExampleTree(): Tree
  {
    Node(0,
      Node(1, Leaf, Leaf),
      Node(0,
        Node(1, Node(1, Leaf, Leaf), Node(1, Leaf, Leaf)),
        Node(0, Leaf, Leaf)))
  }

  /** The example tree has five unival subtrees: four childless nodes and the all-ones subtree. */
  lemma ExampleTreeCount()
    ensures CountUnival(ExampleTree()) == 5
    ensures !IsUnival(ExampleTree())
  {
    var ones := Node(1, Node(1, Leaf, Leaf), Node(1, Leaf, Leaf));
    var right := Node(0, ones, Node(0, Leaf, Leaf));
    ChildlessNode(0);
    ChildlessNode(1);
    CountUnivalNode(1, Node(1, Leaf, Leaf), Node(1, Leaf, Leaf));
    MismatchedChild(0, ones, Node(0, Leaf, Leaf));
    MismatchedChild(0, Node(1, Leaf, Leaf), right);
  }

  /**
   * The driver: build the example tree, reset the counter, run the search
   * and read the counter back.
   */
  method CountExampleTree() returns (n: int)
    ensures n == 5
  {
    var c := new Counter();
    c.count := 0;
    var _ := c.FindUnival(ExampleTree());
    n := c.count;
    ExampleTreeCount();
  }

  /**
   * The tree
   *      1
   *     / \
   *    1   1
   *       / \
   *      0   1
   * whose root's children both hold the root's value.
   */
  function DeepMismatchTree(): Tree
  {
    Node(1, Node(1, Leaf, Leaf), Node(1, Node(0, Leaf, Leaf), Node(1, Leaf, Leaf)))
  }

  /** Comparing a node only with its immediate children is the check the counter must not stop at. */
  predicate ChildrenMatch(t: Tree)
  {
    t.Leaf? || ((t.left.Node? ==> t.left.data == t.data) && (t.right.Node? ==> t.right.data == t.data))
  }

  /** Every unival tree passes the immediate-children check, but the converse fails on `DeepMismatchTree`. */
  lemma ChildrenMatchNotEnough()
    ensures forall t :: IsUnival(t) ==> ChildrenMatch(t)
    ensures ChildrenMatch(DeepMismatchTree()) && !IsUnival(DeepMismatchTree())
  {
    forall t | IsUnival(t) ensures ChildrenMatch(t) {
      if t.Node? { UnivalStep(t.data, t.left, t.right); }
    }
    assert 0 in Values(DeepMismatchTree());
  }
}
