# LibraryKiosk AVL index in Dafny

This project models the index at the heart of the LibraryKiosk console
application: the AVL tree of `LibraryKiosk/Node.cs`. The tree stores `Book`
records under a string key computed by a replaceable key selector (`SortFunc`).
Alongside the tree, the `AllBooks` list records every book added through
`InsertBook`. The model covers:

- the node shape (`Node`, `Height`, `GetBalance`);
- both rotations;
- insertion, including duplicate rejection, the substitution of
  `char.MaxValue` for a missing key, and rebalancing driven by the position of
  the inserted key;
- deletion, with in-order-successor replacement (`minValueNode`) and
  rebalancing driven by the child's balance factor;
- lookup;
- re-keying (`ChangeSortingKey`): an in-order snapshot (`StoreBooks`), the
  composite "primary, or `char.MaxValue` followed by the secondary" selector,
  and the rebuild by reinsertion;
- the `AllBooks` bookkeeping of `InsertBook` and `DeleteBookByTitle`.

The model is functional. A subtree is the immutable datatype
`Leaf | Node(book, left, right, height)`. Every operation is a pure function
that returns the new subtree or the new `AvlTree` state. Where the C# throws
(a rotation of an absent node, or a read of `node.Left.Book` through a null
child), `Insert` and `InsertBook` return `None`. Correct cached heights alone
do not rule this out: on a sorted tree with correct heights that is not
balanced, a left-right case can rotate a node that has no right child.
`AvlInsert.InsertBalanced` proves insertion never throws when the tree has
correct heights and AVL balance and the book goes in under its own key, and
`AvlInsert.InsertAboveAll` does the same for a descent key above every stored
key (the missing-key case).

Layout, one module per file:

| file | module | contents |
|---|---|---|
| `string_order.dfy` | `StringOrder` | the total order on keys, the `char.MaxValue` sentinel |
| `books.dfy` | `Books` | `Book`, the `Selector` type, the default title selector |
| `wrappers.dfy` | `Wrappers` | `Option` |
| `sorted_seq.dfy` | `SortedSeq` | the reference model: strictly sorted book lists, insertion and removal by key, rebuilding |
| `avl_node.dfy` | `AvlNode` | node shape, heights, the three invariants, rotations |
| `avl_insert.dfy` | `AvlInsert` | `Insert` and its rebalancing |
| `avl_delete.dfy` | `AvlDelete` | `Delete`, `minValueNode` and delete-driven rebalancing |
| `avl_search.dfy` | `AvlSearch` | `Search` |
| `library.dfy` | `Library` | the `AVLTree` object: `InsertBook`, `DeleteBookByTitle`, `StoreBooks`, `ChangeSortingKey`, `AllBooks` |
| `scenarios.dfy` | `Scenarios` | two concrete runs |

The tree invariants are:

- `HeightsOk`: every cached height is 1 + max(child heights), and an absent
  child counts as 0.
- `Balanced`: the children's heights differ by at most one at every node.
- search order, stated as "the in-order sequence is strictly sorted by key".
  `AvlNode.SearchTreeIffSorted` proves this equivalent to the node-by-node
  definition.

Each tree operation is tied to a list operation of `SortedSeq`:

- insertion acts on the in-order sequence as `InsertInOrder` does;
- deletion acts as `RemoveKey` does;
- the rebuild acts as `InsertAll` does.

The list lemmas then give the key sets, the lengths and which books are kept.

Assumptions and deliberate readings of the code:

- **String order.** The C# compares keys with culture-sensitive
  `string.Compare` (`Insert`, `Delete`) and with `CompareTo` and ordinal `==`
  (`Search`). The model uses one total order for all of these:
  `StringOrder.Less`, lexicographic by code point, with a proper prefix first.
  The model's equality is plain string equality.
- **Null strings.** Strings are values, so a null key is not modelled
  separately from the empty key. A null secondary selector is `Option.None`.
- **Empty keys.** `InsertBook` descends with the sentinel key when the selected
  key is empty, but stored nodes are compared through the raw selector. The two
  double-rotation tests use `SortFunc(book)`, not the sentinel. `Insert`
  therefore takes the descent key and the book separately, as the source does.
  The validity theorems require a non-empty selected key. This always holds
  after `ChangeSortingKey` (`Library.CompositeKey`).
  `Library.InsertBookMissingKeyGoesLast` and
  `Library.MissingTitleIsUnreachable` show what happens otherwise. The book
  lands last, the in-order sequence is no longer sorted under the selector, and
  a search for the empty title misses a book the tree holds.
- **Re-keyed delete.** `Delete` compares its `title` argument with the
  current selector's key. After re-keying, "delete by title" matches on the new
  key. `AllBooks` is still searched by the `Title` field, so the two can remove
  different books.

Behaviour of the code worth knowing:

- `ChangeSortingKey` never clears `AllBooks`. Rebuilding through `InsertBook`
  appends the snapshot to it again, so afterwards
  `allBooks == old allBooks + snapshot`.
- `InsertBook` appends to `AllBooks` even when the tree rejects the book as a
  duplicate.
- `ChangeSortingKey` does not preserve the record count in general. The rebuilt
  tree keeps, for each new key, only the first snapshot book with that key. It
  keeps every book exactly when the new key is injective on the snapshot.
- Inserting keys "A", "B", "C" in that order is the right-right case, which the
  code fixes with a single left rotation, not a right rotation. It leaves "B"
  over "A" and "C" (`Scenarios.AscendingScenario`).

## Model

| member | source | states |
|---|---|---|
| `AvlNode.Height` | LibraryKiosk/Node.cs:163-168 | an absent subtree counts 0 and a node its cached height; `AvlNode.HeightIsDepth` and `AvlNode.HeightZeroIffLeaf` state what it means on a tree with correct heights |
| `AvlNode.HeightZeroIffLeaf` | LibraryKiosk/Node.cs:163-168 | with correct cached heights, `Height` is 0 exactly for an absent subtree |
| `AvlNode.Balance` | LibraryKiosk/Node.cs:170-175 | an absent subtree has balance 0; a node is AVL-balanced exactly when both children are and its balance factor lies in -1..1 |
| `AvlNode.InOrder` | LibraryKiosk/Node.cs:52-60 | the left-node-right order of `InOrderTraversal`; `Library.StoreBooks` proves the snapshot follows it and `AvlNode.SearchTreeIffSorted` ties its sortedness to the search-tree invariant |
| `AvlNode.NewNode` | LibraryKiosk/Node.cs:18-22 | a new node holds just its book, has height 1 and satisfies the height and balance invariants |
| `AvlNode.HeightIsDepth` | LibraryKiosk/Node.cs:163-168 | with correct cached heights, `Height` (0 for an absent subtree) equals the true number of levels |
| `AvlNode.SearchTreeIffSorted` | LibraryKiosk/Node.cs:128-133 | "left keys below, right keys above at every node" holds exactly when the in-order sequence is strictly sorted |
| `AvlNode.KeysEmptyIffLeaf` | LibraryKiosk/Node.cs:11-23 | a subtree holds no key exactly when it is absent |
| `AvlNode.RightRotate` | LibraryKiosk/Node.cs:177-203 | needs the node and its left child present; keeps the in-order sequence; both rotated nodes get 1 + max(child heights); keeps correct heights |
| `AvlNode.LeftRotate` | LibraryKiosk/Node.cs:205-225 | needs the node and its right child present; keeps the in-order sequence; both rotated nodes get 1 + max(child heights); keeps correct heights |
| `AvlNode.LeftUndoesRightRotate` | LibraryKiosk/Node.cs:177-225 | on a node with correct heights, a left rotation undoes a right rotation |
| `AvlNode.RightUndoesLeftRotate` | LibraryKiosk/Node.cs:177-225 | on a node with correct heights, a right rotation undoes a left rotation |
| `AvlNode.RotationRoundTrip` | LibraryKiosk/Node.cs:177-225 | the two rotations of the same three subtrees and two books are mutually inverse |
| `AvlNode.RightRotateRestoresBalance` | LibraryKiosk/Node.cs:140-141 | a node left-heavy by two whose left child does not lean right becomes balanced after one right rotation, with the resulting height |
| `AvlNode.LeftRotateRestoresBalance` | LibraryKiosk/Node.cs:143-144 | mirror image: a single left rotation repairs a right-heavy-by-two node whose right child does not lean left |
| `AvlNode.LeftRightRotateRestoresBalance` | LibraryKiosk/Node.cs:146-151 | a left-heavy node whose left child leans right is repaired by rotating the child left and the node right, one level lower |
| `AvlNode.RightLeftRotateRestoresBalance` | LibraryKiosk/Node.cs:153-158 | mirror image for the right-left case |
| `AvlInsert.Insert` | LibraryKiosk/Node.cs:123-161 | a successful insertion returns a node; correct cached heights stay correct |
| `AvlInsert.Rebalance` | LibraryKiosk/Node.cs:135-160 | the rebalancing tail never reorders the books and keeps correct heights; absent children read by the source are the `None` (throw) cases |
| `AvlInsert.InsertMatchesList` | LibraryKiosk/Node.cs:125-133 | on a search tree, insertion under key `k` changes the in-order sequence exactly as sorted-list insertion under `k` |
| `AvlInsert.InsertBalanced` | LibraryKiosk/Node.cs:123-161 | inserting a book under its own key into a tree with correct heights and AVL balance never throws, keeps both, and grows the height by at most one |
| `AvlInsert.InsertLeftRebalanced` | LibraryKiosk/Node.cs:140-151 | after insertion into the left subtree the key-driven rotation choice restores balance |
| `AvlInsert.InsertRightRebalanced` | LibraryKiosk/Node.cs:143-158 | after insertion into the right subtree the key-driven rotation choice restores balance |
| `AvlInsert.InsertAboveAll` | LibraryKiosk/Node.cs:110-115 | a descent key above every stored key and above the book's own key puts the book last in order and keeps heights and balance |
| `AvlInsert.InsertAboveAllRebalanced` | LibraryKiosk/Node.cs:143-144 | in that descent only single left rotations happen, and they restore balance |
| `AvlInsert.InsertDuplicateUnchanged` | LibraryKiosk/Node.cs:128-133 | inserting a key the valid tree already holds returns the tree unchanged: the stored book is kept and nothing rotates |
| `AvlInsert.InsertValid` | LibraryKiosk/Node.cs:123-161 | insertion into a valid tree gives a valid tree whose key set gains exactly the new key, growing by one book exactly when the key was new |
| `AvlSearch.Search` | LibraryKiosk/Node.cs:95-104 | a found node carries the sought key and a book of the tree |
| `AvlSearch.SearchFinds` | LibraryKiosk/Node.cs:95-104 | on a search tree the lookup succeeds exactly when the key is stored, and then returns the one book with that key |
| `AvlDelete.MinValueNode` | LibraryKiosk/Node.cs:300-308 | the leftmost node has no left child and holds the first book in order |
| `AvlDelete.MinValueNodeIsLeast` | LibraryKiosk/Node.cs:300-308 | in a search tree the leftmost node carries the least key |
| `AvlDelete.Delete` | LibraryKiosk/Node.cs:238-297 | deletion from a tree with correct cached heights keeps them correct |
| `AvlDelete.DeleteRebalance` | LibraryKiosk/Node.cs:275-296 | recomputing the height and rotating by the child's balance factor never reorders the books |
| `AvlDelete.DeleteRebalanceBalanced` | LibraryKiosk/Node.cs:282-294 | children differing in height by at most two are repaired into an AVL subtree at most one level lower |
| `AvlDelete.DeleteBalanced` | LibraryKiosk/Node.cs:238-297 | deletion keeps AVL balance and lowers the height by at most one, for a present or absent key |
| `AvlDelete.DeleteMatchesList` | LibraryKiosk/Node.cs:238-271 | on a search tree, deletion removes from the in-order sequence exactly the book keyed `title`, including the successor copy of the two-child case |
| `AvlDelete.DeleteAbsentUnchanged` | LibraryKiosk/Node.cs:240-246 | deleting a key the valid tree does not hold returns the tree unchanged |
| `AvlDelete.DeleteValid` | LibraryKiosk/Node.cs:238-297 | deletion from a valid tree gives a valid tree whose key set is the old one minus `title`, one book shorter exactly when `title` was present |
| `Library.NewTree` | LibraryKiosk/Node.cs:32-39 | a new index is empty, orders by title and is consistent |
| `Library.InsertionKey` | LibraryKiosk/Node.cs:110-114 | the descent key is never empty; it is the selected key whenever that is non-empty, and the sentinel `char.MaxValue` whenever it is empty |
| `Library.InsertBook` | LibraryKiosk/Node.cs:108-121 | when it does not throw, `AllBooks` gains the book exactly once if asked, even for a rejected duplicate, and the selector is unchanged |
| `Library.InsertBookValid` | LibraryKiosk/Node.cs:108-121 | a book with a non-empty key keeps the index consistent and adds exactly its key; a duplicate leaves the tree as it was |
| `Library.InsertBookMissingKeyGoesLast` | LibraryKiosk/Node.cs:111-115 | a book with an empty key is placed last in order with balance kept, and the in-order sequence stops being sorted under the selector |
| `Library.MissingTitleIsUnreachable` | LibraryKiosk/Node.cs:97-103 | after inserting an ordinary title and then an empty one, a search for the empty title misses the stored book |
| `Library.RemoveFirstTitle` | LibraryKiosk/Node.cs:231-235 | `FirstOrDefault` followed by `Remove`: the list loses at most one book |
| `Library.RemoveFirstTitleShrinks` | LibraryKiosk/Node.cs:231-235 | the list loses a book exactly when some book carries the title |
| `Library.RemoveFirstTitleTitles` | LibraryKiosk/Node.cs:231-235 | when some book carries the title, the list's titles lose exactly one copy of it |
| `Library.RemoveFirstTitleAbsent` | LibraryKiosk/Node.cs:231-235 | without a book titled `title`, `AllBooks` is unchanged |
| `Library.RemoveFirstTitleSplit` | LibraryKiosk/Node.cs:231-235 | books before the first titled `title` are kept, that book is dropped, the rest are kept |
| `Library.RemoveFirstTitleAt` | LibraryKiosk/Node.cs:231-235 | removal takes out exactly the first book titled `title` and keeps the rest in order |
| `Library.DeleteBookByTitle` | LibraryKiosk/Node.cs:227-236 | deletion keeps correct heights and the selector |
| `Library.DeleteBookByTitleValid` | LibraryKiosk/Node.cs:227-236 | a consistent index stays consistent, loses exactly the key `title` and the one book carrying it, and is unchanged when `title` is absent |
| `Library.DeleteBookByTitleAllBooks` | LibraryKiosk/Node.cs:231-235 | on `AllBooks`, deletion removes only the first book whose title is `title`, or nothing if there is none |
| `Library.DeleteBooksByTitleKeys` | LibraryKiosk/Node.cs:227-236 | deleting a list of titles in turn keeps the index consistent and removes exactly those keys |
| `Library.DeleteEveryKeyEmpties` | LibraryKiosk/Node.cs:227-236 | deleting every stored key, in any order, leaves the tree empty |
| `Library.DeleteAllTitlesEmptiesAllBooks` | LibraryKiosk/Node.cs:227-236 | deleting the titles of `AllBooks`, each as often as it occurs and in any order, leaves `AllBooks` empty, whatever the tree held |
| `Library.LoadThenDeleteAll` | LibraryKiosk/Node.cs:32-51 | loading books into a new index and then deleting every title they carry, with multiplicity and in any order, empties `AllBooks`; when no title is empty the load never throws and the tree ends empty too |
| `Library.StoreBooks` | LibraryKiosk/Node.cs:86-94 | the snapshot appends the subtree's books in left-node-right order |
| `Library.CompositeKey` | LibraryKiosk/Node.cs:66-76 | the composite selector never yields an empty key |
| `Library.CompositeOrder` | LibraryKiosk/Node.cs:66-76 | primary keys keep their order; books without a primary key sort after ordinary primary keys and among themselves by the secondary key |
| `Library.InsertBooks` | LibraryKiosk/Node.cs:80-83 | inserting a list appends it to `AllBooks`; on a consistent index with non-empty keys it never throws and yields a consistent index whose order is the list rebuild |
| `Library.ChangeSortingKey` | LibraryKiosk/Node.cs:61-84 | installs the composite selector; the rebuilt tree is valid and holds exactly the first snapshot book of each new key; it keeps every book iff the new key is injective; `AllBooks` gains the snapshot |
| `SortedSeq.RebuildKeepsAllIffInjective` | LibraryKiosk/Node.cs:78-83 | reinserting a list into an empty index keeps every book exactly when no two share a key, and never more |
| `StringOrder.SentinelPrefixSortsLast` | LibraryKiosk/Node.cs:111-114 | every key starting below `char.MaxValue` sorts before any key starting with `char.MaxValue`, including the sentinel |
| `Scenarios.DuneScenario` | LibraryKiosk/Node.cs:108-121 | inserting "Dune", "1984", "Emma" gives title order; deleting "Dune" leaves ["1984", "Emma"] in tree and list, and a search for it fails |
| `Scenarios.AscendingScenario` | LibraryKiosk/Node.cs:143-144 | inserting "A", "B", "C" in that order ends with "B" at the root over "A" and "C", by a single left rotation |

## Left out

- `LoadBooksFromCSV`: file and CSV parsing I/O. Its effect is a sequence of `InsertBook` calls, which `Library.InsertBooks` models.
- `InOrderTraversal`: it prints each book. The traversal order is `AvlNode.InOrder`, the same order `StoreBooks` produces.
- `Book.Print` and all of `Program.cs`: console menu and input parsing, which are callers of the index.
- Culture-sensitive string comparison: replaced by one lexicographic total order, as described above.
- Null strings: strings are values here, so a null key is modelled as the empty key. This matches `InsertBook` and `ChangeSortingKey`, which test with `string.IsNullOrEmpty`, but not `Search`: with a stored book whose selected key is null, `SortFunc(root.Book).CompareTo(key)` throws a `NullReferenceException`, while the model compares the empty key and keeps searching.
- Characters: keys are sequences of Unicode scalar values compared by code point, whereas C# strings are UTF-16 code units. A character above U+FFFF (a surrogate pair in C#) sorts above the sentinel `char.MaxValue` here but below it in C#, so records with a missing key sort last only after keys whose first character is below U+FFFF (the precondition of `StringOrder.SentinelPrefixSortsLast`).
- Heights are unbounded integers; the C# `int` height cannot overflow for any tree that fits in memory.
- Book identity: `AllBooks.Remove` removes by reference the book that `FirstOrDefault` found. The model removes the first book with that title, which is the same element.
- AvlNode.RightRotate: the `ArgumentNullException` throws are a precondition, not modelled behaviour.
- AvlNode.LeftRotate: the `ArgumentNullException` throw is a precondition, not modelled behaviour.
- AvlDelete.Delete: requires correct cached heights. Only under that condition is it certain that no rotation meets an absent child. On other trees the source may throw, and that case is not modelled.
- Library.DeleteBookByTitle: requires correct cached heights, for the same reason as AvlDelete.Delete.
- AvlInsert.Insert: correct heights are preserved only when the insertion does not throw. Success is proved for trees with correct heights and balance when the book is inserted under its own key (`AvlInsert.InsertBalanced`).
- Library.LoadThenDeleteAll: promises an empty tree only when no title is empty. A book with an empty title is stored under the sentinel but searched for under the empty key, so deleting "" can miss it (`Library.MissingTitleIsUnreachable`).
