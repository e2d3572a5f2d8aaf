/**
  Lookup in the AVL tree (LibraryKiosk/Node.cs, `Search`): stop at an absent
  subtree or at a node whose key equals the sought key, otherwise descend right
  when the node's key sorts below it and left when it does not.
*/
module AvlSearch {
  import opened StringOrder
  import opened Books
  import opened SortedSeq
  import opened AvlNode

  /** The subtree rooted at the node keyed `key`, or `Leaf` when the search falls off the tree. */
  function Search(t: Tree, key: string, sel: Selector): (r: Tree)
    ensures r.Node? ==> sel(r.book) == key && r.book in InOrder(t)
  {
    if t.Leaf? || sel(t.book) == key then t
    else if Less(sel(t.book), key) then Search(t.right, key, sel)
    else Search(t.left, key, sel)
  }

  /**
    On a search tree the lookup succeeds exactly when the key is stored, and
    then it returns the one book carrying that key.
  */
  lemma {:induction false} SearchFinds(t: Tree, key: string, sel: Selector)
    requires Sorted(InOrder(t), sel)
    ensures Search(t, key, sel).Node? <==> key in Keys(t, sel)
    ensures forall e :: e in InOrder(t) && sel(e) == key ==> Search(t, key, sel).book == e
  {
    if t.Node? {
      var a, x, c := InOrder(t.left), t.book, InOrder(t.right);
      SortedSplit(a, x, c, sel);
      KeysOfAppend(a + [x], c, sel);
      KeysOfAppend(a, [x], sel);
      AllBelowKeys(a, sel(x), sel);
      AllBelowKeys(c, sel(x), sel);
      LessIrreflexive(key);
      if sel(x) == key {
        assert forall e :: e in a + c ==> sel(e) != key;
      } else if Less(sel(x), key) {
        SearchFinds(t.right, key, sel);
        if key in KeysOf(a, sel) {
          LessAsymmetric(key, sel(x));
        }
        forall e | e in a ensures sel(e) != key {
          LessAsymmetric(sel(e), sel(x));
        }
      } else {
        LessTotal(key, sel(x));
        SearchFinds(t.left, key, sel);
        if key in KeysOf(c, sel) {
          LessAsymmetric(key, sel(x));
        }
        forall e | e in c ensures sel(e) != key {
          LessAsymmetric(sel(x), sel(e));
        }
      }
    }
  }
}
