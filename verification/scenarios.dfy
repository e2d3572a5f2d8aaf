/**
  Concrete runs of the kiosk's index under the default title selector, worked
  out step by step.
*/
module Scenarios {
  import opened StringOrder
  import opened Books
  import opened AvlNode
  import opened AvlInsert
  import opened AvlDelete
  import opened AvlSearch
  import opened Library
  import opened Wrappers

  /**
    Inserting "Dune", "1984" and "Emma" yields them in title order and in
    `AllBooks` in insertion order; deleting "Dune" removes it from both, and a
    search for it then falls off the tree.
  */
  lemma DuneScenario(dune: Book, orwell: Book, emma: Book)
    requires dune.title == "Dune" && orwell.title == "1984" && emma.title == "Emma"
    ensures var t1 := InsertBook(NewTree(), dune, true);
      && t1.Some?
      && var t2 := InsertBook(t1.value, orwell, true);
      && t2.Some?
      && var t3 := InsertBook(t2.value, emma, true);
      && t3.Some?
      && InOrder(t3.value.root) == [orwell, dune, emma]
      && t3.value.allBooks == [dune, orwell, emma]
      && var t4 := DeleteBookByTitle(t3.value, "Dune");
      && InOrder(t4.root) == [orwell, emma]
      && t4.allBooks == [orwell, emma]
      && Search(t4.root, "Dune", t4.sortFunc).Leaf?
  {
    DuneInsertions(dune, orwell, emma);
    DuneDeletion(dune, orwell, emma);
  }

  /** The three insertions of `DuneScenario`, node by node. */
  lemma DuneInsertions(dune: Book, orwell: Book, emma: Book)
    requires dune.title == "Dune" && orwell.title == "1984" && emma.title == "Emma"
    ensures var t1 := InsertBook(NewTree(), dune, true);
      && t1.Some?
      && var t2 := InsertBook(t1.value, orwell, true);
      && t2.Some?
      && InsertBook(t2.value, emma, true) == Some(DuneTree(dune, orwell, emma))
  {
    var nd, no := Node(dune, Leaf, Leaf, 1), Node(orwell, Leaf, Leaf, 1);
    var t1 := AvlTree(nd, ByTitle, [dune]);
    var t2 := AvlTree(Node(dune, no, Leaf, 2), ByTitle, [dune, orwell]);
    assert InsertBook(NewTree(), dune, true) == Some(t1) by {
      assert InsertionKey(ByTitle, dune) == "Dune";
      assert [] + [dune] == [dune];
    }
    assert InsertBook(t1, orwell, true) == Some(t2) by {
      assert InsertionKey(ByTitle, orwell) == "1984";
      assert Less("1984", "Dune");
      assert Insert(nd, "1984", orwell, ByTitle) == Rebalance(dune, no, Leaf, "1984", orwell, ByTitle);
      assert [dune] + [orwell] == [dune, orwell];
    }
    assert InsertBook(t2, emma, true) == Some(DuneTree(dune, orwell, emma)) by {
      assert InsertionKey(ByTitle, emma) == "Emma";
      assert Less("Dune", "Emma") && !Less("Emma", "Dune");
      assert Insert(t2.root, "Emma", emma, ByTitle) ==
        Rebalance(dune, no, Node(emma, Leaf, Leaf, 1), "Emma", emma, ByTitle);
      assert [dune, orwell] + [emma] == [dune, orwell, emma];
    }
  }

  /** The index after the three insertions of `DuneScenario`. */
  function DuneTree(dune: Book, orwell: Book, emma: Book): (t: AvlTree)
    ensures HeightsOk(t.root)
  {
    assert HeightsOk(Leaf);
    assert HeightsOk(Node(orwell, Leaf, Leaf, 1)) && HeightsOk(Node(emma, Leaf, Leaf, 1));
    AvlTree(Node(dune, Node(orwell, Leaf, Leaf, 1), Node(emma, Leaf, Leaf, 1), 2), ByTitle, [dune, orwell, emma])
  }

  /** The deletion and the failed search of `DuneScenario`. */
  lemma DuneDeletion(dune: Book, orwell: Book, emma: Book)
    requires dune.title == "Dune" && orwell.title == "1984" && emma.title == "Emma"
    ensures var t3 := DuneTree(dune, orwell, emma);
      && InOrder(t3.root) == [orwell, dune, emma]
      && var t4 := DeleteBookByTitle(t3, "Dune");
      && InOrder(t4.root) == [orwell, emma]
      && t4.allBooks == [orwell, emma]
      && Search(t4.root, "Dune", t4.sortFunc).Leaf?
  {
    var no, ne := Node(orwell, Leaf, Leaf, 1), Node(emma, Leaf, Leaf, 1);
    var t3 := DuneTree(dune, orwell, emma);
    assert InOrder(t3.root) == [orwell, dune, emma] by {
      assert InOrder(no) == [orwell] && InOrder(ne) == [emma];
    }
    var r4 := Node(emma, no, Leaf, 2);
    assert Delete(t3.root, "Dune", ByTitle) == r4 by {
      assert Delete(ne, "Emma", ByTitle) == Leaf;
      assert Delete(t3.root, "Dune", ByTitle) == DeleteRebalance(Node(emma, no, Leaf, 2));
    }
    assert RemoveFirstTitle([dune, orwell, emma], "Dune") == [orwell, emma];
    assert Search(r4, "Dune", ByTitle).Leaf? by {
      assert Less("1984", "Dune") && !Less("Emma", "Dune");
      assert Search(r4, "Dune", ByTitle) == Search(no, "Dune", ByTitle) == Search(Leaf, "Dune", ByTitle);
    }
  }

  /**
    Inserting "A", "B", "C" in ascending order makes the root right-heavy by two
    on the third insertion; the single left rotation leaves "B" at the root
    with "A" and "C" as its children.
  */
  lemma AscendingScenario(a: Book, b: Book, c: Book)
    requires a.title == "A" && b.title == "B" && c.title == "C"
    ensures var t1 := InsertBook(NewTree(), a, true);
      && t1.Some?
      && var t2 := InsertBook(t1.value, b, true);
      && t2.Some?
      && var t3 := InsertBook(t2.value, c, true);
      && t3.Some?
      && t3.value.root == Node(b, Node(a, Leaf, Leaf, 1), Node(c, Leaf, Leaf, 1), 2)
  {
    assert Less("A", "B") && !Less("B", "A");
    assert Less("B", "C") && !Less("C", "B");
    assert Less("A", "C") && !Less("C", "A");
    var na, nb, nc := Node(a, Leaf, Leaf, 1), Node(b, Leaf, Leaf, 1), Node(c, Leaf, Leaf, 1);
    var t1 := InsertBook(NewTree(), a, true);
    assert t1.Some? && t1.value.root == na && t1.value.sortFunc == ByTitle;
    var r2 := Node(a, Leaf, nb, 2);
    assert Insert(na, "B", b, ByTitle) == Rebalance(a, Leaf, nb, "B", b, ByTitle) == Some(r2);
    var t2 := InsertBook(t1.value, b, true);
    assert t2.Some? && t2.value.root == r2 && t2.value.sortFunc == ByTitle;
    var rb := Node(b, Leaf, nc, 2);
    assert Insert(nb, "C", c, ByTitle) == Rebalance(b, Leaf, nc, "C", c, ByTitle) == Some(rb);
    var n := Node(a, Leaf, rb, 3);
    assert Insert(r2, "C", c, ByTitle) == Rebalance(a, Leaf, rb, "C", c, ByTitle) == Some(LeftRotate(n));
    var t3 := InsertBook(t2.value, c, true);
    assert t3.Some? && t3.value.root == LeftRotate(n);
  }
}
