/**
  The kiosk's index object (LibraryKiosk/Node.cs, class `AVLTree`): the root
  of the tree, the key selector `SortFunc`, and the `AllBooks` list of every
  book added through `InsertBook`. Each operation returns the new state.
*/
module Library {
  import opened StringOrder
  import opened Books
  import opened SortedSeq
  import opened AvlNode
  import opened AvlInsert
  import opened AvlDelete
  import opened AvlSearch
  import opened Wrappers

  /** The state of an `AVLTree` object. */
  datatype AvlTree = AvlTree(root: Tree, sortFunc: Selector, allBooks: seq<Book>)

  /** The index invariant: the tree is a valid AVL tree under the current selector. */
  ghost predicate Consistent(t: AvlTree)
  {
    Valid(t.root, t.sortFunc)
  }

  /** A new index without the CSV load: empty, ordered by title. */
  function NewTree(): (t: AvlTree)
    ensures t.root == Leaf && t.allBooks == []
    ensures forall b :: t.sortFunc(b) == b.title
    ensures Consistent(t)
  {
    AvlTree(Leaf, ByTitle, [])
  }

  /** The key a book is inserted under: its selected key, or `Sentinel` when that is empty. */
  function InsertionKey(sel: Selector, b: Book): (k: string)
    ensures k != ""
    ensures sel(b) != "" ==> k == sel(b)
    ensures sel(b) == "" ==> k == Sentinel
  {
    if sel(b) == "" then Sentinel else sel(b)
  }

  // ---------------------------------------------------------------------------
  // InsertBook
  // ---------------------------------------------------------------------------

  /**
    Insert `b` into the tree under its insertion key and, when asked, append it
    to `AllBooks`, even when the tree already held its key and dropped it.
    `None` stands for the tree insertion throwing, in which case nothing is appended.
  */
  function InsertBook(t: AvlTree, b: Book, updateAllBooks: bool): (r: Option<AvlTree>)
    ensures r.Some? ==> r.value.sortFunc == t.sortFunc
    ensures r.Some? ==> r.value.allBooks == t.allBooks + (if updateAllBooks then [b] else [])
    ensures r.Some? && HeightsOk(t.root) ==> HeightsOk(r.value.root)
  {
    match Insert(t.root, InsertionKey(t.sortFunc, b), b, t.sortFunc)
    case None => None
    case Some(root) =>
      Some(t.(root := root, allBooks := if updateAllBooks then t.allBooks + [b] else t.allBooks))
  }

  /**
    A book with a non-empty key always goes in: the index stays consistent,
    gains exactly that key, and its books are the sorted-list insertion of `b`.
    When the key was already present the tree is left as it was.
  */
  lemma InsertBookValid(t: AvlTree, b: Book, updateAllBooks: bool)
    requires Consistent(t) && t.sortFunc(b) != ""
    ensures InsertBook(t, b, updateAllBooks).Some?
    ensures var r := InsertBook(t, b, updateAllBooks).value;
      && Consistent(r)
      && InOrder(r.root) == InsertInOrder(InOrder(t.root), t.sortFunc(b), b, t.sortFunc)
      && Keys(r.root, r.sortFunc) == Keys(t.root, t.sortFunc) + {t.sortFunc(b)}
      && (t.sortFunc(b) in Keys(t.root, t.sortFunc) ==> r.root == t.root)
  {
    InsertValid(t.root, b, t.sortFunc);
    if t.sortFunc(b) in Keys(t.root, t.sortFunc) {
      InsertDuplicateUnchanged(t.root, t.sortFunc(b), b, t.sortFunc);
    }
  }

  /**
    A book whose key is missing goes in under `Sentinel`; when every stored key
    sorts below `Sentinel` it lands last in order, and the tree keeps its heights
    and balance. Its stored key is still the empty one, so the order is no
    longer sorted under the selector once the tree held any other book.
  */
  lemma InsertBookMissingKeyGoesLast(t: AvlTree, b: Book, updateAllBooks: bool)
    requires HeightsOk(t.root) && Balanced(t.root)
    requires t.sortFunc(b) == "" && AllBelow(InOrder(t.root), Sentinel, t.sortFunc)
    ensures InsertBook(t, b, updateAllBooks).Some?
    ensures var r := InsertBook(t, b, updateAllBooks).value;
      && HeightsOk(r.root) && Balanced(r.root)
      && InOrder(r.root) == InOrder(t.root) + [b]
      && (t.root.Node? ==> !Sorted(InOrder(r.root), r.sortFunc))
  {
    InsertAboveAll(t.root, Sentinel, b, t.sortFunc);
    var s := InOrder(t.root) + [b];
    if t.root.Node? {
      var last := |s| - 1;
      assert s[last] == b && 0 < last;
      assert !Less(t.sortFunc(s[0]), t.sortFunc(s[last]));
    }
  }

  /**
    With the default title selector, inserting a book with an ordinary title and
    then a book with an empty title stores the second to the right of the first:
    a search for the empty title then walks left and misses it, although the
    tree holds it.
  */
  lemma MissingTitleIsUnreachable(m: Book, e: Book)
    requires m.title != "" && m.title[0] < MaxChar && e.title == ""
    ensures var t1 := InsertBook(NewTree(), m, true);
      && t1.Some?
      && var t2 := InsertBook(t1.value, e, true);
      && t2.Some?
      && InOrder(t2.value.root) == [m, e]
      && Search(t2.value.root, "", t2.value.sortFunc).Leaf?
  {
    var leafM := Node(m, Leaf, Leaf, 1);
    assert InsertionKey(ByTitle, m) == m.title;
    var t1 := InsertBook(NewTree(), m, true).value;
    assert t1.root == leafM && t1.sortFunc == ByTitle;
    SentinelPrefixSortsLast(m.title, []);
    LessAsymmetric(m.title, Sentinel);
    var leafE := Node(e, Leaf, Leaf, 1);
    var root := Node(m, Leaf, leafE, 2);
    assert Rebalance(m, Leaf, leafE, Sentinel, e, ByTitle) == Some(root);
    assert Insert(leafM, Sentinel, e, ByTitle) == Some(root);
    var t2 := InsertBook(t1, e, true).value;
    assert t2.root == root && t2.sortFunc == ByTitle;
    assert InOrder(root) == [m, e];
    assert !Less(m.title, "");
  }

  // ---------------------------------------------------------------------------
  // DeleteBookByTitle
  // ---------------------------------------------------------------------------

  /** No book before position `i` of `s` has the title of `s[i]`. */
  ghost predicate FirstTitled(s: seq<Book>, i: int)
    requires 0 <= i < |s|
  {
    forall j :: 0 <= j < i ==> s[j].title != s[i].title
  }

  /** `AllBooks.Remove` of the first book titled `title`: the list without it, or unchanged if none. */
  function RemoveFirstTitle(s: seq<Book>, title: string): (r: seq<Book>)
    ensures |r| == |s| || |r| == |s| - 1
    decreases |s|
  {
    if |s| == 0 then s
    else if s[0].title == title then s[1..]
    else [s[0]] + RemoveFirstTitle(s[1..], title)
  }

  /** Without a book titled `title` the list is left as it is. */
  lemma {:induction false} RemoveFirstTitleAbsent(s: seq<Book>, title: string)
    requires forall e :: e in s ==> e.title != title
    ensures RemoveFirstTitle(s, title) == s
    decreases |s|
  {
    if |s| > 0 {
      assert s[0] in s;
      assert s == [s[0]] + s[1..];
      RemoveFirstTitleAbsent(s[1..], title);
    }
  }

  /** Books before the first one titled `title` are kept, that one is dropped, and the rest kept. */
  lemma {:induction false} RemoveFirstTitleSplit(p: seq<Book>, x: Book, c: seq<Book>, title: string)
    requires x.title == title && forall e :: e in p ==> e.title != title
    ensures RemoveFirstTitle(p + [x] + c, title) == p + c
    decreases |p|
  {
    if |p| == 0 {
      assert p + [x] + c == [x] + c;
    } else {
      var q := p[1..];
      assert p == [p[0]] + q;
      assert forall e :: e in q ==> e.title != title by {
        forall e | e in q ensures e.title != title {
          assert e in p;
        }
      }
      RemoveFirstTitleSplit(q, x, c, title);
      assert RemoveFirstTitle(p + [x] + c, title) == [p[0]] + RemoveFirstTitle(q + [x] + c, title) by {
        assert p[0] in p;
        assert (p + [x] + c)[0] == p[0] && (p + [x] + c)[1..] == q + [x] + c;
      }
    }
  }

  /** The removal takes out exactly the first book titled `title`, keeping the others in order. */
  lemma RemoveFirstTitleAt(s: seq<Book>, title: string, i: int)
    requires 0 <= i < |s| && s[i].title == title && FirstTitled(s, i)
    ensures RemoveFirstTitle(s, title) == s[..i] + s[i + 1..]
  {
    var p := s[..i];
    forall e | e in p ensures e.title != title {
      var j :| 0 <= j < i && p[j] == e;
      assert s[j] == e;
    }
    assert s == p + [s[i]] + s[i + 1..];
    RemoveFirstTitleSplit(p, s[i], s[i + 1..], title);
  }

  /**
    Delete the book keyed `title` under the current selector from the tree, and
    the first book whose title is `title` from `AllBooks`. The two need not be
    the same book once the selector is not the title.
  */
  function DeleteBookByTitle(t: AvlTree, title: string): (r: AvlTree)
    requires HeightsOk(t.root)
    ensures HeightsOk(r.root) && r.sortFunc == t.sortFunc
  {
    AvlTree(Delete(t.root, title, t.sortFunc), t.sortFunc, RemoveFirstTitle(t.allBooks, title))
  }

  /**
    Deleting from a consistent index keeps it consistent; the tree loses exactly
    the key `title`, and its books are the old ones without the one keyed `title`.
  */
  lemma DeleteBookByTitleValid(t: AvlTree, title: string)
    requires Consistent(t)
    ensures var r := DeleteBookByTitle(t, title);
      && Consistent(r)
      && InOrder(r.root) == RemoveKey(InOrder(t.root), title, t.sortFunc)
      && Keys(r.root, r.sortFunc) == Keys(t.root, t.sortFunc) - {title}
      && (title !in Keys(t.root, t.sortFunc) ==> r.root == t.root)
  {
    DeleteValid(t.root, title, t.sortFunc);
    if title !in Keys(t.root, t.sortFunc) {
      DeleteAbsentUnchanged(t.root, title, t.sortFunc);
    }
  }

  /**
    On `AllBooks`, deletion takes out the first book whose title is `title`,
    whatever the selector, and keeps the others in order; without such a book
    the list is unchanged.
  */
  lemma DeleteBookByTitleAllBooks(t: AvlTree, title: string)
    requires HeightsOk(t.root)
    ensures (forall e :: e in t.allBooks ==> e.title != title) ==>
              DeleteBookByTitle(t, title).allBooks == t.allBooks
    ensures forall i :: 0 <= i < |t.allBooks| && t.allBooks[i].title == title && FirstTitled(t.allBooks, i) ==>
              DeleteBookByTitle(t, title).allBooks == t.allBooks[..i] + t.allBooks[i + 1..]
  {
    if forall e :: e in t.allBooks ==> e.title != title {
      RemoveFirstTitleAbsent(t.allBooks, title);
    }
    forall i | 0 <= i < |t.allBooks| && t.allBooks[i].title == title && FirstTitled(t.allBooks, i)
      ensures DeleteBookByTitle(t, title).allBooks == t.allBooks[..i] + t.allBooks[i + 1..]
    {
      RemoveFirstTitleAt(t.allBooks, title, i);
    }
  }

  /** `DeleteBookByTitle` for each title in turn. */
  function DeleteBooksByTitle(t: AvlTree, titles: seq<string>): (r: AvlTree)
    requires HeightsOk(t.root)
    ensures HeightsOk(r.root) && r.sortFunc == t.sortFunc
    decreases |titles|
  {
    if |titles| == 0 then t
    else DeleteBooksByTitle(DeleteBookByTitle(t, titles[0]), titles[1..])
  }

  /** Deleting a list of titles keeps the index consistent and removes exactly those keys. */
  lemma {:induction false} DeleteBooksByTitleKeys(t: AvlTree, titles: seq<string>)
    requires Consistent(t)
    ensures var r := DeleteBooksByTitle(t, titles);
      && Consistent(r)
      && Keys(r.root, r.sortFunc) == Keys(t.root, t.sortFunc) - (set k | k in titles)
    decreases |titles|
  {
    if |titles| > 0 {
      var t' := DeleteBookByTitle(t, titles[0]);
      assert Consistent(t') && Keys(t'.root, t'.sortFunc) == Keys(t.root, t.sortFunc) - {titles[0]} by {
        DeleteBookByTitleValid(t, titles[0]);
      }
      DeleteBooksByTitleKeys(t', titles[1..]);
      assert (set k | k in titles) == {titles[0]} + (set k | k in titles[1..]) by {
        assert titles == [titles[0]] + titles[1..];
      }
    }
  }

  /** The titles of a list of books, in order. */
  function Titles(s: seq<Book>): (r: seq<string>)
    ensures |r| == |s|
    decreases |s|
  {
    if |s| == 0 then [] else [s[0].title] + Titles(s[1..])
  }

  /** Position `i` of the titles is the title of book `i`. */
  lemma {:induction false} TitlesAt(s: seq<Book>, i: int)
    requires 0 <= i < |s|
    ensures Titles(s)[i] == s[i].title
    decreases i
  {
    if i > 0 {
      TitlesAt(s[1..], i - 1);
    }
  }

  /** The removal drops a book exactly when some book is titled `title`. */
  lemma {:induction false} RemoveFirstTitleShrinks(s: seq<Book>, title: string)
    ensures |RemoveFirstTitle(s, title)| == |s| - 1 <==> title in Titles(s)
    decreases |s|
  {
    if |s| > 0 {
      var ts := Titles(s);
      assert ts == [s[0].title] + Titles(s[1..]);
      RemoveFirstTitleShrinks(s[1..], title);
    }
  }

  /** Removing the first book titled `title` takes exactly one `title` out of the list's titles. */
  lemma {:induction false} RemoveFirstTitleTitles(s: seq<Book>, title: string)
    requires title in Titles(s)
    ensures multiset(Titles(RemoveFirstTitle(s, title))) == multiset(Titles(s)) - multiset{title}
    decreases |s|
  {
    var tail := Titles(s[1..]);
    assert multiset(Titles(s)) == multiset{s[0].title} + multiset(tail) by {
      assert Titles(s) == [s[0].title] + tail;
    }
    if s[0].title != title {
      var r' := RemoveFirstTitle(s[1..], title);
      assert title in tail by {
        assert Titles(s) == [s[0].title] + tail;
      }
      assert multiset(Titles(r')) == multiset(tail) - multiset{title} by {
        RemoveFirstTitleTitles(s[1..], title);
      }
      assert multiset(Titles(RemoveFirstTitle(s, title))) == multiset{s[0].title} + multiset(Titles(r')) by {
        assert RemoveFirstTitle(s, title) == [s[0]] + r';
        assert ([s[0]] + r')[1..] == r';
        assert Titles([s[0]] + r') == [s[0].title] + Titles(r');
      }
    }
  }

  /**
    Deleting the titles of `AllBooks`, each as often as it occurs there and in
    any order, empties `AllBooks`: every deletion takes out one book bearing
    its title, whatever the tree did with it.
  */
  lemma {:induction false} DeleteAllTitlesEmptiesAllBooks(t: AvlTree, titles: seq<string>)
    requires HeightsOk(t.root) && multiset(titles) == multiset(Titles(t.allBooks))
    ensures DeleteBooksByTitle(t, titles).allBooks == []
    decreases |titles|
  {
    if |titles| == 0 {
      assert |Titles(t.allBooks)| == 0 by {
        assert |multiset(Titles(t.allBooks))| == 0;
      }
    } else {
      var t' := DeleteBookByTitle(t, titles[0]);
      TakeFirst(titles, Titles(t.allBooks));
      assert multiset(Titles(t'.allBooks)) == multiset(Titles(t.allBooks)) - multiset{titles[0]} by {
        RemoveFirstTitleTitles(t.allBooks, titles[0]);
      }
      DeleteAllTitlesEmptiesAllBooks(t', titles[1..]);
    }
  }

  /** Two lists with the same elements, counted: the first one's head is in the second, and its tail has the rest. */
  lemma TakeFirst(a: seq<string>, b: seq<string>)
    requires |a| > 0 && multiset(a) == multiset(b)
    ensures a[0] in b && multiset(a[1..]) == multiset(b) - multiset{a[0]}
  {
    assert a == [a[0]] + a[1..];
    assert a[0] in multiset(b);
  }

  /** Deleting every key the index holds, in any order, leaves the tree empty. */
  lemma DeleteEveryKeyEmpties(t: AvlTree, titles: seq<string>)
    requires Consistent(t) && forall k :: k in Keys(t.root, t.sortFunc) ==> k in titles
    ensures DeleteBooksByTitle(t, titles).root == Leaf
  {
    var r := DeleteBooksByTitle(t, titles);
    DeleteBooksByTitleKeys(t, titles);
    KeysEmptyIffLeaf(r.root, r.sortFunc);
  }

  /** Every key of a tree rebuilt by title from `books` is one of the books' titles. */
  lemma RebuiltKeysAreTitles(root: Tree, books: seq<Book>, titles: seq<string>)
    requires InOrder(root) == InsertAll([], books, ByTitle)
    requires multiset(titles) == multiset(Titles(books))
    ensures forall k :: k in Keys(root, ByTitle) ==> k in titles
  {
    RebuildKeepsOnlyFirstOccurrences(books, ByTitle);
    forall k | k in Keys(root, ByTitle) ensures k in titles {
      var e :| e in InOrder(root) && e.title == k;
      var i :| 0 <= i < |books| && books[i] == e;
      TitlesAt(books, i);
      assert k in multiset(titles);
    }
  }

  /**
    Load `books` into an empty index and then delete by title every title they
    carry, as often as it occurs and in any order. `AllBooks` ends empty, and
    the tree does too when no title is empty; `None` stands for the load
    throwing.
  */
  method LoadThenDeleteAll(books: seq<Book>, titles: seq<string>) returns (r: Option<AvlTree>)
    requires multiset(titles) == multiset(Titles(books))
    ensures r.Some? ==> r.value.allBooks == []
    ensures (forall i :: 0 <= i < |books| ==> books[i].title != "") ==> r.Some? && r.value.root == Leaf
  {
    var empty := NewTree();
    var loaded := InsertBooks(empty, books);
    if loaded.None? {
      return None;
    }
    var t := loaded.value;
    assert t.allBooks == books && t.sortFunc == ByTitle;
    r := Some(DeleteBooksByTitle(t, titles));
    DeleteAllTitlesEmptiesAllBooks(t, titles);
    if forall i :: 0 <= i < |books| ==> books[i].title != "" {
      assert forall i :: 0 <= i < |books| ==> empty.sortFunc(books[i]) != "";
      assert Consistent(t) && forall k :: k in Keys(t.root, t.sortFunc) ==> k in titles by {
        RebuiltKeysAreTitles(t.root, books, titles);
      }
      DeleteEveryKeyEmpties(t, titles);
    }
  }

  // ---------------------------------------------------------------------------
  // StoreBooks and ChangeSortingKey
  // ---------------------------------------------------------------------------

  /** Append the books of `t` to `acc` in order (left subtree, node, right subtree). */
  function StoreBooks(t: Tree, acc: seq<Book>): (r: seq<Book>)
    ensures r == acc + InOrder(t)
  {
    if t.Leaf? then acc
    else StoreBooks(t.right, StoreBooks(t.left, acc) + [t.book])
  }

  /**
    The selector installed by `ChangeSortingKey`: the primary key, or, when it
    is empty, `char.MaxValue` followed by the secondary key (empty when there is
    no secondary selector).
  */
  function CompositeKey(primary: Selector, secondary: Option<Selector>, b: Book): (k: string)
    ensures k != ""
  {
    var p := primary(b);
    var s := if secondary.Some? then secondary.value(b) else "";
    if p == "" then [MaxChar] + s else p
  }

  /**
    Books with a primary key keep its order,
    books without one come after every primary key that starts below
    `char.MaxValue`, and among themselves follow the secondary key.
  */
  lemma CompositeOrder(primary: Selector, secondary: Option<Selector>, b1: Book, b2: Book)
    ensures primary(b1) != "" && primary(b2) != "" ==>
              (Less(CompositeKey(primary, secondary, b1), CompositeKey(primary, secondary, b2))
               <==> Less(primary(b1), primary(b2)))
    ensures primary(b1) != "" && primary(b1)[0] < MaxChar && primary(b2) == "" ==>
              Less(CompositeKey(primary, secondary, b1), CompositeKey(primary, secondary, b2))
    ensures secondary.Some? && primary(b1) == "" && primary(b2) == "" ==>
              (Less(CompositeKey(primary, secondary, b1), CompositeKey(primary, secondary, b2))
               <==> Less(secondary.value(b1), secondary.value(b2)))
  {
    var s1 := if secondary.Some? then secondary.value(b1) else "";
    var s2 := if secondary.Some? then secondary.value(b2) else "";
    if primary(b1) != "" && primary(b1)[0] < MaxChar && primary(b2) == "" {
      SentinelPrefixSortsLast(primary(b1), s2);
    }
    if primary(b1) == "" && primary(b2) == "" {
      LessCons(MaxChar, s1, s2);
    }
  }

  /**
    Insert `books` one after another through `InsertBook`, appending each to
    `AllBooks`; this is the loop of the CSV load and of the rebuild. `None`
    stands for one of the insertions throwing.
  */
  method InsertBooks(t: AvlTree, books: seq<Book>) returns (r: Option<AvlTree>)
    ensures r.Some? ==> r.value.sortFunc == t.sortFunc && r.value.allBooks == t.allBooks + books
    ensures r.Some? && HeightsOk(t.root) ==> HeightsOk(r.value.root)
    ensures Consistent(t) && (forall i :: 0 <= i < |books| ==> t.sortFunc(books[i]) != "") ==>
              && r.Some? && Consistent(r.value)
              && InOrder(r.value.root) == InsertAll(InOrder(t.root), books, t.sortFunc)
  {
    ghost var good := Consistent(t) && (forall j :: 0 <= j < |books| ==> t.sortFunc(books[j]) != "");
    var cur := t;
    var i := 0;
    while i < |books|
      invariant 0 <= i <= |books|
      invariant cur.sortFunc == t.sortFunc && cur.allBooks == t.allBooks + books[..i]
      invariant HeightsOk(t.root) ==> HeightsOk(cur.root)
      invariant good ==> Consistent(cur) && InOrder(cur.root) == InsertAll(InOrder(t.root), books[..i], t.sortFunc)
    {
      var next := InsertBook(cur, books[i], true);
      assert good ==> next.Some? by {
        if good {
          InsertBookValid(cur, books[i], true);
        }
      }
      if next.None? {
        return None;
      }
      assert good ==>
          && Consistent(next.value)
          && InOrder(next.value.root) == InsertAll(InOrder(t.root), books[..i + 1], t.sortFunc) by {
        if good {
          InsertBookValid(cur, books[i], true);
          assert books[..i + 1] == books[..i] + [books[i]];
          InsertAllSnoc(InOrder(t.root), books[..i], books[i], t.sortFunc);
        }
      }
      assert books[..i + 1] == books[..i] + [books[i]];
      cur := next.value;
      i := i + 1;
    }
    assert books[..i] == books;
    return Some(cur);
  }

  /**
    Re-key the index: take its books in order, install the composite selector,
    clear the tree and insert the books again through `InsertBook`. The rebuilt
    tree is valid under the new selector and holds exactly the first book, in
    the old order, of each new key, so it loses books precisely when two share
    a new key. `AllBooks` is not cleared, so it gains the books once more.
  */
  method ChangeSortingKey(t: AvlTree, primary: Selector, secondary: Option<Selector>) returns (r: AvlTree)
    ensures forall b :: r.sortFunc(b) == CompositeKey(primary, secondary, b)
    ensures Consistent(r)
    ensures InOrder(r.root) == InsertAll([], InOrder(t.root), r.sortFunc)
    ensures r.allBooks == t.allBooks + InOrder(t.root)
    ensures var s := InOrder(t.root);
      forall i :: 0 <= i < |s| && FirstOfKey(s, i, r.sortFunc) ==> s[i] in InOrder(r.root)
    ensures var s := InOrder(t.root);
      forall e :: e in InOrder(r.root) ==> exists i :: 0 <= i < |s| && s[i] == e && FirstOfKey(s, i, r.sortFunc)
    ensures |InOrder(r.root)| == |InOrder(t.root)| <==> KeyInjective(InOrder(t.root), r.sortFunc)
  {
    var books := StoreBooks(t.root, []);
    assert books == InOrder(t.root);
    var sel: Selector := b => CompositeKey(primary, secondary, b);
    var cleared := AvlTree(Leaf, sel, t.allBooks);
    assert Consistent(cleared) && InOrder(cleared.root) == [];
    assert forall i :: 0 <= i < |books| ==> cleared.sortFunc(books[i]) != "";
    var rebuilt := InsertBooks(cleared, books);
    r := rebuilt.value;
    assert r.sortFunc == sel && InOrder(r.root) == InsertAll([], books, sel);
    RebuildKeepsFirstOccurrences(books, sel);
    RebuildKeepsOnlyFirstOccurrences(books, sel);
    RebuildKeepsAllIffInjective(books, sel);
  }
}
