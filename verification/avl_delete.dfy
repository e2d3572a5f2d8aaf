/**
  Deletion from the AVL tree (LibraryKiosk/Node.cs, `Delete` and
  `minValueNode`). The descent compares the given title with each node's key
  under the current selector; a node with two children takes over the book of
  its in-order successor, which is then deleted from the right subtree.
  Rebalancing is driven by the balance factor of the heavier child.
*/
module AvlDelete {
  import opened StringOrder
  import opened Books
  import opened SortedSeq
  import opened AvlNode

  /** The leftmost node of a non-empty subtree: it holds the first book in order. */
  function MinValueNode(t: Tree): (m: Tree)
    requires t.Node?
    ensures m.Node? && m.left.Leaf?
    ensures m.book == InOrder(t)[0]
  {
    if t.left.Leaf? then t else MinValueNode(t.left)
  }

  /** In a search tree the leftmost node carries the least key. */
  lemma MinValueNodeIsLeast(t: Tree, sel: Selector)
    requires t.Node? && Sorted(InOrder(t), sel)
    ensures sel(MinValueNode(t).book) in Keys(t, sel)
    ensures forall k :: k in Keys(t, sel) && k != sel(MinValueNode(t).book) ==>
              Less(sel(MinValueNode(t).book), k)
  {
    SortedFirstIsLeast(InOrder(t), sel);
  }

  /**
    Remove the book whose key is `title` from `t`. The source needs correct
    cached heights: with them none of its rotations meets an absent node.
  */
  function Delete(t: Tree, title: string, sel: Selector): (r: Tree)
    requires HeightsOk(t)
    ensures HeightsOk(r)
  {
    if t.Leaf? then t
    else
      var key := sel(t.book);
      if Less(title, key) then
        DeleteRebalance(t.(left := Delete(t.left, title, sel)))
      else if Less(key, title) then
        DeleteRebalance(t.(right := Delete(t.right, title, sel)))
      else if t.left.Leaf? || t.right.Leaf? then
        var temp := if t.left.Leaf? then t.right else t.left;
        assert HeightsOk(temp);
        if temp.Leaf? then Leaf else DeleteRebalance(temp)
      else
        var m := MinValueNode(t.right);
        DeleteRebalance(Node(m.book, t.left, Delete(t.right, sel(m.book), sel), t.height))
  }

  /**
    The tail of `Delete`: recompute the node's height, then restore balance
    with a single or double rotation chosen by the heavier child's balance.
    Never reorders the books.
  */
  function DeleteRebalance(n: Tree): (r: Tree)
    requires n.Node? && HeightsOk(n.left) && HeightsOk(n.right)
    ensures r.Node? && HeightsOk(r)
    ensures InOrder(r) == InOrder(n)
  {
    var n := n.(height := 1 + Max(Height(n.left), Height(n.right)));
    HeightNonNegative(n.left);
    HeightNonNegative(n.right);
    var balance := Balance(n);
    if balance > 1 then
      if Balance(n.left) < 0 then
        HeightNonNegative(n.left.left);
        assert HeightsOk(n.left.right);
        RightRotate(n.(left := LeftRotate(n.left)))
      else
        RightRotate(n)
    else if balance < -1 then
      if Balance(n.right) > 0 then
        HeightNonNegative(n.right.right);
        assert HeightsOk(n.right.left);
        LeftRotate(n.(right := RightRotate(n.right)))
      else
        LeftRotate(n)
    else n
  }

  /**
    Rebalancing a node whose children are AVL subtrees differing in height by
    at most two yields an AVL subtree, at most one level lower than the node
    with its height recomputed.
  */
  lemma DeleteRebalanceBalanced(n: Tree)
    requires n.Node? && ChildrenOk(n)
    requires -2 <= Height(n.left) - Height(n.right) <= 2
    ensures var r := DeleteRebalance(n);
      && Balanced(r)
      && var h := 1 + Max(Height(n.left), Height(n.right));
      h - 1 <= Height(r) <= h
      && (-1 <= Height(n.left) - Height(n.right) <= 1 ==> Height(r) == h)
  {
    var n' := n.(height := 1 + Max(Height(n.left), Height(n.right)));
    HeightNonNegative(n.left);
    HeightNonNegative(n.right);
    if Balance(n') > 1 {
      if Balance(n.left) < 0 {
        LeftRightRotateRestoresBalance(n');
      } else {
        RightRotateRestoresBalance(n');
      }
    } else if Balance(n') < -1 {
      if Balance(n.right) > 0 {
        RightLeftRotateRestoresBalance(n');
      } else {
        LeftRotateRestoresBalance(n');
      }
    }
  }

  /**
    Deletion from an AVL tree keeps it balanced and lowers its height by at
    most one, for any key, present or not.
  */
  lemma {:induction false} DeleteBalanced(t: Tree, title: string, sel: Selector)
    requires HeightsOk(t) && Balanced(t)
    ensures var r := Delete(t, title, sel);
      Balanced(r) && (Height(r) == Height(t) || Height(r) == Height(t) - 1)
  {
    if t.Node? {
      var key := sel(t.book);
      HeightNonNegative(t.left);
      HeightNonNegative(t.right);
      if Less(title, key) {
        DeleteBalanced(t.left, title, sel);
        DeleteRebalanceBalanced(t.(left := Delete(t.left, title, sel)));
      } else if Less(key, title) {
        DeleteBalanced(t.right, title, sel);
        DeleteRebalanceBalanced(t.(right := Delete(t.right, title, sel)));
      } else if t.left.Leaf? || t.right.Leaf? {
        var temp := if t.left.Leaf? then t.right else t.left;
        if temp.Node? {
          DeleteRebalanceBalanced(temp);
        }
      } else {
        var m := MinValueNode(t.right);
        DeleteBalanced(t.right, sel(m.book), sel);
        DeleteRebalanceBalanced(Node(m.book, t.left, Delete(t.right, sel(m.book), sel), t.height));
      }
    }
  }

  /**
    On a search tree, deletion acts on the in-order sequence exactly as
    removing the key from the sorted list: at most the one book with key
    `title` leaves, and the others keep their order.
  */
  lemma {:induction false} DeleteMatchesList(t: Tree, title: string, sel: Selector)
    requires HeightsOk(t) && Sorted(InOrder(t), sel)
    ensures InOrder(Delete(t, title, sel)) == RemoveKey(InOrder(t), title, sel)
  {
    if t.Node? {
      var a, x, c := InOrder(t.left), t.book, InOrder(t.right);
      var key := sel(x);
      SortedSplit(a, x, c, sel);
      LessIrreflexive(title);
      if Less(title, key) {
        AboveIsAbsent(c, key, title, sel);
        RemoveKeyBefore(a, x, c, title, sel);
        DeleteMatchesList(t.left, title, sel);
      } else if Less(key, title) {
        BelowIsAbsent(a, key, title, sel);
        RemoveKeyAfter(a, x, c, title, sel);
        DeleteMatchesList(t.right, title, sel);
      } else {
        LessTotal(title, key);
        AboveIsAbsent(c, key, key, sel);
        BelowIsAbsent(a, key, key, sel);
        RemoveKeyAt(a, x, c, sel);
        if t.left.Node? && t.right.Node? {
          var m := MinValueNode(t.right);
          DeleteMatchesList(t.right, sel(m.book), sel);
          RemoveKeyFirst(c, sel);
        }
      }
    }
  }

  /** Deleting a key the tree does not hold returns the tree unchanged. */
  lemma {:induction false} DeleteAbsentUnchanged(t: Tree, title: string, sel: Selector)
    requires Valid(t, sel) && title !in Keys(t, sel)
    ensures Delete(t, title, sel) == t
  {
    if t.Node? {
      var a, x, c := InOrder(t.left), t.book, InOrder(t.right);
      SortedSplit(a, x, c, sel);
      KeysOfAppend(a + [x], c, sel);
      KeysOfAppend(a, [x], sel);
      HeightNonNegative(t.left);
      HeightNonNegative(t.right);
      LessTotal(title, sel(x));
      if Less(title, sel(x)) {
        DeleteAbsentUnchanged(t.left, title, sel);
      } else {
        DeleteAbsentUnchanged(t.right, title, sel);
      }
    }
  }

  /**
    Deletion from a valid tree yields a valid tree whose key set loses exactly
    `title` and whose in-order sequence is the old one without the book keyed
    `title`: exactly one book leaves when the key is present, none otherwise.
  */
  lemma DeleteValid(t: Tree, title: string, sel: Selector)
    requires Valid(t, sel)
    ensures var r := Delete(t, title, sel);
      && Valid(r, sel)
      && InOrder(r) == RemoveKey(InOrder(t), title, sel)
      && Keys(r, sel) == Keys(t, sel) - {title}
      && |InOrder(r)| == |InOrder(t)| - (if title in Keys(t, sel) then 1 else 0)
  {
    DeleteBalanced(t, title, sel);
    DeleteMatchesList(t, title, sel);
    RemoveKeySorted(InOrder(t), title, sel);
    RemoveKeyKeys(InOrder(t), title, sel);
  }
}
