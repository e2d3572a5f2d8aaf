/**
  Insertion into the AVL tree (LibraryKiosk/Node.cs, `Insert`). The descent
  compares the insertion key `k` with each node's key under the selector; the
  rebalancing chooses single rotations by the position of `k` and double
  rotations by the position of the new book's own key, exactly as the source.
  `None` stands for the source throwing (a null child read or a rotation of an
  absent node); on valid trees this never happens.
*/
module AvlInsert {
  import opened StringOrder
  import opened Books
  import opened SortedSeq
  import opened AvlNode
  import opened Wrappers

  /** Insert `b` under key `k` into `t`; a subtree already holding key `k` is returned unchanged. */
  function Insert(t: Tree, k: string, b: Book, sel: Selector): (r: Option<Tree>)
    ensures r.Some? ==> r.value.Node?
    ensures r.Some? && HeightsOk(t) ==> HeightsOk(r.value)
  {
    if t.Leaf? then Some(NewNode(b))
    else if Less(k, sel(t.book)) then
      match Insert(t.left, k, b, sel)
      case None => None
      case Some(l) => Rebalance(t.book, l, t.right, k, b, sel)
    else if Less(sel(t.book), k) then
      match Insert(t.right, k, b, sel)
      case None => None
      case Some(r) => Rebalance(t.book, t.left, r, k, b, sel)
    else
      Some(t)
  }

  /**
    The tail of `Insert` after a child was replaced: recompute the height, then
    rotate if the node is out of balance. Rebalancing never reorders the books.
  */
  function Rebalance(x: Book, l: Tree, r: Tree, k: string, b: Book, sel: Selector): (res: Option<Tree>)
    ensures res.Some? ==> res.value.Node? && InOrder(res.value) == InOrder(l) + [x] + InOrder(r)
    ensures res.Some? && HeightsOk(l) && HeightsOk(r) ==> HeightsOk(res.value)
  {
    var n := Node(x, l, r, 1 + Max(Height(l), Height(r)));
    var balance := Balance(n);
    if balance > 1 && l.Leaf? then None               // reading the absent left child's book
    else if balance < -1 && r.Leaf? then None         // reading the absent right child's book
    else if balance > 1 && Less(k, sel(l.book)) then Some(RightRotate(n))
    else if balance < -1 && Less(sel(r.book), k) then Some(LeftRotate(n))
    else if balance > 1 && Less(sel(l.book), sel(b)) then
      if l.right.Leaf? then None                      // LeftRotate of a node without right child
      else
        assert HeightsOk(l) ==> HeightsOk(l.right);
        Some(RightRotate(n.(left := LeftRotate(l))))
    else if balance < -1 && Less(sel(b), sel(r.book)) then
      if r.left.Leaf? then None                       // RightRotate of a node without left child
      else
        assert HeightsOk(r) ==> HeightsOk(r.left);
        Some(LeftRotate(n.(right := RightRotate(r))))
    else Some(n)
  }

  /**
    On a search tree, insertion acts on the in-order sequence exactly as the
    sorted-list insertion guided by the same key `k`, whatever the book's own key.
  */
  lemma {:induction false} InsertMatchesList(t: Tree, k: string, b: Book, sel: Selector)
    requires Sorted(InOrder(t), sel)
    ensures Insert(t, k, b, sel).Some? ==>
              InOrder(Insert(t, k, b, sel).value) == InsertInOrder(InOrder(t), k, b, sel)
  {
    if t.Node? {
      var a, x, c := InOrder(t.left), t.book, InOrder(t.right);
      SortedSplit(a, x, c, sel);
      assert a + [x] + c == a + ([x] + c);
      if Less(k, sel(x)) {
        InsertMatchesList(t.left, k, b, sel);
        InsertInOrderStopsBefore(a, [x] + c, k, b, sel);
      } else if Less(sel(x), k) {
        InsertMatchesList(t.right, k, b, sel);
        forall e | e in a + [x] ensures Less(sel(e), k) {
          if e in a {
            LessTransitive(sel(e), sel(x), k);
          }
        }
        InsertInOrderSkipsBelow(a + [x], c, k, b, sel);
      } else {
        LessTotal(k, sel(x));
        InsertInOrderSkipsBelow(a, [x] + c, k, b, sel);
        assert ([x] + c)[0] == x;
      }
    }
  }

  /**
    Inserting a book under its own key into a tree with correct heights and AVL
    balance never fails and keeps both invariants. The height grows by at most
    one, and when it grows the root is unchanged and leans towards the side the
    key went to.
  */
  lemma {:induction false} InsertBalanced(t: Tree, b: Book, sel: Selector)
    requires HeightsOk(t) && Balanced(t)
    ensures Insert(t, sel(b), b, sel).Some?
    ensures var r := Insert(t, sel(b), b, sel).value;
      && HeightsOk(r) && Balanced(r)
      && (Height(r) == Height(t) || Height(r) == Height(t) + 1)
      && (t.Node? && Height(r) == Height(t) + 1 ==>
            && r.book == t.book
            && (Less(sel(b), sel(t.book)) ==> Balance(r) == 1)
            && (Less(sel(t.book), sel(b)) ==> Balance(r) == -1))
  {
    var k := sel(b);
    if t.Node? {
      var x := t.book;
      HeightNonNegative(t.left);
      HeightNonNegative(t.right);
      if Less(k, sel(x)) {
        LessAsymmetric(k, sel(x));
        InsertBalanced(t.left, b, sel);
        var l' := Insert(t.left, k, b, sel).value;
        InsertLeftRebalanced(t, l', b, sel);
      } else if Less(sel(x), k) {
        LessAsymmetric(sel(x), k);
        InsertBalanced(t.right, b, sel);
        var r' := Insert(t.right, k, b, sel).value;
        InsertRightRebalanced(t, r', b, sel);
      }
    }
  }

  /** The rebalancing step of `InsertBalanced` after the book went into the left subtree. */
  lemma InsertLeftRebalanced(t: Tree, l': Tree, b: Book, sel: Selector)
    requires t.Node? && HeightsOk(t) && Balanced(t) && Less(sel(b), sel(t.book))
    requires Insert(t.left, sel(b), b, sel) == Some(l')
    requires HeightsOk(l') && Balanced(l') && l'.Node?
    requires Height(l') == Height(t.left) || Height(l') == Height(t.left) + 1
    requires t.left.Node? && Height(l') == Height(t.left) + 1 ==>
               && l'.book == t.left.book
               && (Less(sel(b), sel(t.left.book)) ==> Balance(l') == 1)
               && (Less(sel(t.left.book), sel(b)) ==> Balance(l') == -1)
    ensures var res := Rebalance(t.book, l', t.right, sel(b), b, sel);
      && res.Some?
      && HeightsOk(res.value) && Balanced(res.value)
      && (Height(res.value) == Height(t) || Height(res.value) == Height(t) + 1)
      && (Height(res.value) == Height(t) + 1 ==> res.value.book == t.book && Balance(res.value) == 1)
  {
    var k := sel(b);
    var l, r := t.left, t.right;
    var n := Node(t.book, l', r, 1 + Max(Height(l'), Height(r)));
    HeightNonNegative(l);
    HeightNonNegative(r);
    if Balance(n) > 1 {
      assert l.Node?;
      LessTotal(k, sel(l.book));
      if k == sel(l.book) {
        assert false;
      }
      if Less(k, sel(l'.book)) {
        RightRotateRestoresBalance(n);
      } else {
        LessAsymmetric(sel(l'.book), k);
        LeftRightRotateRestoresBalance(n);
      }
    }
  }

  /** The rebalancing step of `InsertBalanced` after the book went into the right subtree. */
  lemma InsertRightRebalanced(t: Tree, r': Tree, b: Book, sel: Selector)
    requires t.Node? && HeightsOk(t) && Balanced(t) && Less(sel(t.book), sel(b))
    requires Insert(t.right, sel(b), b, sel) == Some(r')
    requires HeightsOk(r') && Balanced(r') && r'.Node?
    requires Height(r') == Height(t.right) || Height(r') == Height(t.right) + 1
    requires t.right.Node? && Height(r') == Height(t.right) + 1 ==>
               && r'.book == t.right.book
               && (Less(sel(b), sel(t.right.book)) ==> Balance(r') == 1)
               && (Less(sel(t.right.book), sel(b)) ==> Balance(r') == -1)
    ensures var res := Rebalance(t.book, t.left, r', sel(b), b, sel);
      && res.Some?
      && HeightsOk(res.value) && Balanced(res.value)
      && (Height(res.value) == Height(t) || Height(res.value) == Height(t) + 1)
      && (Height(res.value) == Height(t) + 1 ==> res.value.book == t.book && Balance(res.value) == -1)
  {
    var k := sel(b);
    var l, r := t.left, t.right;
    var n := Node(t.book, l, r', 1 + Max(Height(l), Height(r')));
    HeightNonNegative(l);
    HeightNonNegative(r);
    if Balance(n) < -1 {
      assert r.Node?;
      LessTotal(k, sel(r.book));
      if k == sel(r.book) {
        assert false;
      }
      if Less(sel(r'.book), k) {
        LeftRotateRestoresBalance(n);
      } else {
        LessAsymmetric(k, sel(r'.book));
        RightLeftRotateRestoresBalance(n);
      }
    }
  }

  /**
    Inserting under a key above every stored key, and above the book's own
    key, always descends to the right and only ever needs single left
    rotations: the book lands last in order and the tree stays balanced.
    This is how a book whose key is missing reaches the end of the index.
  */
  lemma {:induction false} InsertAboveAll(t: Tree, k: string, b: Book, sel: Selector)
    requires HeightsOk(t) && Balanced(t)
    requires AllBelow(InOrder(t), k, sel) && Less(sel(b), k)
    ensures Insert(t, k, b, sel).Some?
    ensures var r := Insert(t, k, b, sel).value;
      && HeightsOk(r) && Balanced(r)
      && InOrder(r) == InOrder(t) + [b]
      && (Height(r) == Height(t) || Height(r) == Height(t) + 1)
      && (t.Node? && Height(r) == Height(t) + 1 ==> Balance(r) == -1)
  {
    if t.Node? {
      var x := t.book;
      assert AllBelow(InOrder(t.right), k, sel) && Less(sel(x), k) by {
        assert x in InOrder(t);
        assert forall e :: e in InOrder(t.right) ==> e in InOrder(t);
      }
      HeightNonNegative(t.left);
      HeightNonNegative(t.right);
      InsertAboveAll(t.right, k, b, sel);
      var r' := Insert(t.right, k, b, sel).value;
      LessAsymmetric(sel(x), k);
      assert Insert(t, k, b, sel) == Rebalance(x, t.left, r', k, b, sel);
      InsertAboveAllRebalanced(t, r', k, b, sel);
      assert InOrder(t.left) + [x] + (InOrder(t.right) + [b]) == InOrder(t) + [b];
    }
  }

  /** The rebalancing step of `InsertAboveAll` after the book went into the right subtree. */
  lemma InsertAboveAllRebalanced(t: Tree, r': Tree, k: string, b: Book, sel: Selector)
    requires t.Node? && HeightsOk(t) && Balanced(t) && Less(sel(t.book), k) && Less(sel(b), k)
    requires HeightsOk(r') && Balanced(r') && AllBelow(InOrder(r'), k, sel)
    requires Height(r') == Height(t.right) || Height(r') == Height(t.right) + 1
    requires t.right.Node? && Height(r') == Height(t.right) + 1 ==> Balance(r') == -1
    requires r'.Node?
    ensures var res := Rebalance(t.book, t.left, r', k, b, sel);
      && res.Some?
      && HeightsOk(res.value) && Balanced(res.value)
      && InOrder(res.value) == InOrder(t.left) + [t.book] + InOrder(r')
      && (Height(res.value) == Height(t) || Height(res.value) == Height(t) + 1)
      && (Height(res.value) == Height(t) + 1 ==> Balance(res.value) == -1)
  {
    var n := Node(t.book, t.left, r', 1 + Max(Height(t.left), Height(r')));
    HeightNonNegative(t.left);
    HeightNonNegative(t.right);
    LessAsymmetric(sel(t.book), k);
    if Balance(n) < -1 {
      assert Less(sel(r'.book), k) by {
        assert r'.book in InOrder(r');
      }
      LeftRotateRestoresBalance(n);
    }
  }

  /**
    Inserting a key the tree already holds returns the tree unchanged: the new
    book is dropped, the stored one is kept, and nothing is rotated.
  */
  lemma {:induction false} InsertDuplicateUnchanged(t: Tree, k: string, b: Book, sel: Selector)
    requires Valid(t, sel) && k in Keys(t, sel)
    ensures Insert(t, k, b, sel) == Some(t)
  {
    var a, x, c := InOrder(t.left), t.book, InOrder(t.right);
    SortedSplit(a, x, c, sel);
    KeysOfAppend(a + [x], c, sel);
    KeysOfAppend(a, [x], sel);
    AllBelowKeys(a, sel(x), sel);
    AllBelowKeys(c, sel(x), sel);
    if Less(k, sel(x)) {
      if k in KeysOf(c, sel) {
        LessAsymmetric(k, sel(x));
      }
      LessIrreflexive(k);
      InsertDuplicateUnchanged(t.left, k, b, sel);
    } else if Less(sel(x), k) {
      if k in KeysOf(a, sel) {
        LessAsymmetric(k, sel(x));
      }
      LessIrreflexive(k);
      InsertDuplicateUnchanged(t.right, k, b, sel);
    }
  }

  /**
    Inserting a book under its own key into a valid tree succeeds and yields a
    valid tree whose key set gains exactly that key and whose in-order
    sequence is the sorted-list insertion; it grows by one book exactly when the
    key was new.
  */
  lemma InsertValid(t: Tree, b: Book, sel: Selector)
    requires Valid(t, sel)
    ensures Insert(t, sel(b), b, sel).Some?
    ensures var r := Insert(t, sel(b), b, sel).value;
      && Valid(r, sel)
      && InOrder(r) == InsertInOrder(InOrder(t), sel(b), b, sel)
      && Keys(r, sel) == Keys(t, sel) + {sel(b)}
      && |InOrder(r)| == |InOrder(t)| + (if sel(b) in Keys(t, sel) then 0 else 1)
  {
    InsertBalanced(t, b, sel);
    InsertMatchesList(t, sel(b), b, sel);
    InsertInOrderSorted(InOrder(t), b, sel);
    InsertInOrderKeys(InOrder(t), b, sel);
    InsertInOrderLength(InOrder(t), sel(b), b, sel);
  }
}
