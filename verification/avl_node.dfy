/**
  The node shape of the AVL tree (LibraryKiosk/Node.cs, `Node`, `Height`,
  `GetBalance`, `RightRotate`, `LeftRotate`), with the three invariants the
  tree maintains: correct cached heights, AVL balance and search order.
*/
module AvlNode {
  import opened StringOrder
  import opened Books
  import opened SortedSeq

  /** A subtree: absent (`null`), or a node owning a book, two children and a cached height. */
  datatype Tree = Leaf | Node(book: Book, left: Tree, right: Tree, height: int)

  function Max(a: int, b: int): int
  {
    if a >= b then a else b
  }

  /** The cached height, with an absent subtree counting as 0. */
  function Height(t: Tree): int
  {
    if t.Leaf? then 0 else t.height
  }

  /** Height of the left child minus height of the right child; 0 for an absent subtree. */
  function Balance(t: Tree): (r: int)
    ensures t.Leaf? ==> r == 0
    ensures t.Node? ==> (Balanced(t) <==> Balanced(t.left) && Balanced(t.right) && -1 <= r <= 1)
  {
    if t.Leaf? then 0 else Height(t.left) - Height(t.right)
  }

  /** A freshly created node: no children, height 1. */
  function NewNode(b: Book): (t: Tree)
    ensures InOrder(t) == [b]
    ensures HeightsOk(t) && Balanced(t) && Height(t) == 1
  {
    Node(b, Leaf, Leaf, 1)
  }

  /** The books of a subtree in left-node-right order. */
  function InOrder(t: Tree): seq<Book>
  {
    if t.Leaf? then [] else InOrder(t.left) + [t.book] + InOrder(t.right)
  }

  /** The keys stored in a subtree under selector `sel`. */
  ghost function Keys(t: Tree, sel: Selector): set<string>
  {
    KeysOf(InOrder(t), sel)
  }

  /** A subtree holds no keys exactly when it is absent. */
  lemma KeysEmptyIffLeaf(t: Tree, sel: Selector)
    ensures Keys(t, sel) == {} <==> t.Leaf?
  {
    if t.Node? {
      assert t.book in InOrder(t);
      assert sel(t.book) in Keys(t, sel);
    }
  }

  /** The structural height: the number of nodes on the longest root-to-leaf path. */
  ghost function Depth(t: Tree): nat
  {
    if t.Leaf? then 0 else 1 + Max(Depth(t.left), Depth(t.right))
  }

  /** Every cached height is one more than the larger cached height of the children. */
  ghost predicate HeightsOk(t: Tree)
  {
    t.Node? ==>
      && HeightsOk(t.left) && HeightsOk(t.right)
      && t.height == 1 + Max(Height(t.left), Height(t.right))
  }

  /** AVL balance: at every node the children's heights differ by at most one. */
  ghost predicate Balanced(t: Tree)
  {
    t.Node? ==>
      && Balanced(t.left) && Balanced(t.right)
      && -1 <= Height(t.left) - Height(t.right) <= 1
  }

  /** The search-tree invariant stated node by node. */
  ghost predicate SearchTree(t: Tree, sel: Selector)
  {
    t.Node? ==>
      && SearchTree(t.left, sel) && SearchTree(t.right, sel)
      && (forall k :: k in Keys(t.left, sel) ==> Less(k, sel(t.book)))
      && (forall k :: k in Keys(t.right, sel) ==> Less(sel(t.book), k))
  }

  /** A valid AVL tree: correct heights, balanced, and its in-order sequence strictly sorted. */
  ghost predicate Valid(t: Tree, sel: Selector)
  {
    HeightsOk(t) && Balanced(t) && Sorted(InOrder(t), sel)
  }

  /** With correct cached heights, the cached height is the true height. */
  lemma {:induction false} HeightIsDepth(t: Tree)
    requires HeightsOk(t)
    ensures Height(t) == Depth(t)
  {
    if t.Node? {
      HeightIsDepth(t.left);
      HeightIsDepth(t.right);
    }
  }

  /** With correct cached heights, only an absent subtree has height 0. */
  lemma HeightZeroIffLeaf(t: Tree)
    requires HeightsOk(t)
    ensures Height(t) == 0 <==> t.Leaf?
  {
    if t.Node? {
      HeightNonNegative(t.left);
      HeightNonNegative(t.right);
    }
  }

  lemma HeightNonNegative(t: Tree)
    requires HeightsOk(t)
    ensures Height(t) >= 0
    ensures t.Node? ==> Height(t) >= 1
  {
    HeightIsDepth(t);
  }

  /** The node-by-node search-tree invariant is exactly a strictly sorted in-order sequence. */
  lemma {:induction false} SearchTreeIffSorted(t: Tree, sel: Selector)
    ensures SearchTree(t, sel) <==> Sorted(InOrder(t), sel)
  {
    if t.Node? {
      SearchTreeIffSorted(t.left, sel);
      SearchTreeIffSorted(t.right, sel);
      var a, x, c := InOrder(t.left), t.book, InOrder(t.right);
      AllBelowKeys(a, sel(x), sel);
      AllBelowKeys(c, sel(x), sel);
      if Sorted(InOrder(t), sel) {
        SortedSplit(a, x, c, sel);
      }
      if SearchTree(t, sel) {
        SortedJoin(a, x, c, sel);
      }
    }
  }

  /**
    Right rotation about `y` and its left child `x`: `x` becomes the root, `y`
    its right child, and `x`'s former right subtree becomes `y`'s left. Both
    rotated nodes get height 1 + max(child heights). The source throws when `y`
    or `x` is absent.
  */
  function RightRotate(y: Tree): (r: Tree)
    requires y.Node? && y.left.Node?
    ensures r.Node? && r.right.Node?
    ensures InOrder(r) == InOrder(y)
    ensures r.right.height == 1 + Max(Height(y.left.right), Height(y.right))
    ensures r.height == 1 + Max(Height(y.left.left), r.right.height)
    ensures HeightsOk(y.left.left) && HeightsOk(y.left.right) && HeightsOk(y.right) ==> HeightsOk(r)
  {
    var x := y.left;
    var y' := Node(y.book, x.right, y.right, Max(Height(x.right), Height(y.right)) + 1);
    Node(x.book, x.left, y', Max(Height(x.left), Height(y')) + 1)
  }

  /**
    Left rotation about `x` and its right child `y`: the mirror image of
    `RightRotate`. The source throws when `x` or `y` is absent.
  */
  function LeftRotate(x: Tree): (r: Tree)
    requires x.Node? && x.right.Node?
    ensures r.Node? && r.left.Node?
    ensures InOrder(r) == InOrder(x)
    ensures r.left.height == 1 + Max(Height(x.left), Height(x.right.left))
    ensures r.height == 1 + Max(r.left.height, Height(x.right.right))
    ensures HeightsOk(x.left) && HeightsOk(x.right.left) && HeightsOk(x.right.right) ==> HeightsOk(r)
  {
    var y := x.right;
    var x' := Node(x.book, x.left, y.left, Max(Height(x.left), Height(y.left)) + 1);
    Node(y.book, x', y.right, Max(Height(x'), Height(y.right)) + 1)
  }

  /** A left rotation undoes a right rotation on a node whose cached heights are correct. */
  lemma LeftUndoesRightRotate(t: Tree)
    requires t.Node? && t.left.Node? && HeightsOk(t)
    ensures LeftRotate(RightRotate(t)) == t
  {
    var Node(a, x, q, h) := t;
    var Node(c, p, w, hx) := x;
    assert hx == Max(Height(p), Height(w)) + 1;
    assert h == Max(hx, Height(q)) + 1;
    RotationRoundTrip(c, p, a, w, q);
  }

  /** A right rotation undoes a left rotation on a node whose cached heights are correct. */
  lemma RightUndoesLeftRotate(t: Tree)
    requires t.Node? && t.right.Node? && HeightsOk(t)
    ensures RightRotate(LeftRotate(t)) == t
  {
    var Node(a, p, y, h) := t;
    var Node(c, q, w, hy) := y;
    assert hy == Max(Height(q), Height(w)) + 1;
    assert h == Max(Height(p), hy) + 1;
    RotationRoundTrip(a, p, c, q, w);
  }

  /**
    The two rotations of the same three subtrees `p`, `q`, `w` and two books
    `a`, `c` are inverse to each other when the heights are recomputed.
  */
  lemma RotationRoundTrip(a: Book, p: Tree, c: Book, q: Tree, w: Tree)
    ensures var hl := Max(Height(p), Height(q)) + 1;
            var lhs := Node(c, Node(a, p, q, hl), w, Max(hl, Height(w)) + 1);
            var hr := Max(Height(q), Height(w)) + 1;
            var rhs := Node(a, p, Node(c, q, w, hr), Max(Height(p), hr) + 1);
            LeftRotate(rhs) == lhs && RightRotate(lhs) == rhs
  {
  }

  // ---------------------------------------------------------------------------
  // Restoring balance at a node whose children differ in height by two
  // ---------------------------------------------------------------------------

  /** The children of `n` are valid-shaped AVL subtrees (the cached height of `n` itself may be stale). */
  ghost predicate ChildrenOk(n: Tree)
    requires n.Node?
  {
    HeightsOk(n.left) && Balanced(n.left) && HeightsOk(n.right) && Balanced(n.right)
  }

  /**
    Left-heavy by two with a left child that does not lean right: one right
    rotation restores balance. The result is one level lower unless the left
    child was level (which only deletion produces).
  */
  lemma RightRotateRestoresBalance(n: Tree)
    requires n.Node? && n.left.Node? && ChildrenOk(n)
    requires Height(n.left) == Height(n.right) + 2 && Balance(n.left) >= 0
    ensures var r := RightRotate(n);
      && HeightsOk(r) && Balanced(r)
      && Height(r) == Height(n.right) + (if Balance(n.left) == 0 then 3 else 2)
  {
    HeightNonNegative(n.right);
  }

  /** Mirror image of `RightRotateRestoresBalance`. */
  lemma LeftRotateRestoresBalance(n: Tree)
    requires n.Node? && n.right.Node? && ChildrenOk(n)
    requires Height(n.right) == Height(n.left) + 2 && Balance(n.right) <= 0
    ensures var r := LeftRotate(n);
      && HeightsOk(r) && Balanced(r)
      && Height(r) == Height(n.left) + (if Balance(n.right) == 0 then 3 else 2)
  {
    HeightNonNegative(n.left);
  }

  /**
    Left-heavy by two with a left child leaning right: rotating the left child
    left and then the node right restores balance, one level lower.
  */
  lemma LeftRightRotateRestoresBalance(n: Tree)
    requires n.Node? && n.left.Node? && n.left.right.Node? && ChildrenOk(n)
    requires Height(n.left) == Height(n.right) + 2 && Balance(n.left) == -1
    ensures var r := RightRotate(n.(left := LeftRotate(n.left)));
      && HeightsOk(r) && Balanced(r) && Height(r) == Height(n.right) + 2
  {
    var l := n.left;
    HeightNonNegative(l.left);
    assert HeightsOk(l.right) && Balanced(l.right);
    HeightNonNegative(l.right.left);
    HeightNonNegative(l.right.right);
  }

  /** Mirror image of `LeftRightRotateRestoresBalance`. */
  lemma RightLeftRotateRestoresBalance(n: Tree)
    requires n.Node? && n.right.Node? && n.right.left.Node? && ChildrenOk(n)
    requires Height(n.right) == Height(n.left) + 2 && Balance(n.right) == 1
    ensures var r := LeftRotate(n.(right := RightRotate(n.right)));
      && HeightsOk(r) && Balanced(r) && Height(r) == Height(n.left) + 2
  {
    var r := n.right;
    HeightNonNegative(r.right);
    assert HeightsOk(r.left) && Balanced(r.left);
    HeightNonNegative(r.left.left);
    HeightNonNegative(r.left.right);
  }
}
