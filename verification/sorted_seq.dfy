/**
  The reference model of the index: a sequence of books strictly sorted by key.
  The tree operations are proved to act on their in-order sequence exactly as
  the list operations below act on a sorted list.
*/
module SortedSeq {
  import opened StringOrder
  import opened Books

  /** Keys strictly increase along `s`, so no key occurs twice. */
  ghost predicate Sorted(s: seq<Book>, sel: Selector)
  {
    forall i, j :: 0 <= i < j < |s| ==> Less(sel(s[i]), sel(s[j]))
  }

  /** The set of keys of the books in `s`. */
  ghost function KeysOf(s: seq<Book>, sel: Selector): set<string>
  {
    set b | b in s :: sel(b)
  }

  /** Every key in `s` is below `k`. */
  ghost predicate AllBelow(s: seq<Book>, k: string, sel: Selector)
  {
    forall b :: b in s ==> Less(sel(b), k)
  }

  /** Every key in `s` is above `k`. */
  ghost predicate AllAbove(s: seq<Book>, k: string, sel: Selector)
  {
    forall b :: b in s ==> Less(k, sel(b))
  }

  lemma AllBelowKeys(s: seq<Book>, k: string, sel: Selector)
    ensures AllBelow(s, k, sel) <==> forall x :: x in KeysOf(s, sel) ==> Less(x, k)
    ensures AllAbove(s, k, sel) <==> forall x :: x in KeysOf(s, sel) ==> Less(k, x)
  {
    assert forall b :: b in s ==> sel(b) in KeysOf(s, sel);
  }

  /** No two books of `s` share a key. */
  ghost predicate KeyInjective(s: seq<Book>, sel: Selector)
  {
    forall i, j :: 0 <= i < j < |s| ==> sel(s[i]) != sel(s[j])
  }

  /** `s[i]` is the first book of `s` carrying its key. */
  ghost predicate FirstOfKey(s: seq<Book>, i: int, sel: Selector)
    requires 0 <= i < |s|
  {
    forall j :: 0 <= j < i ==> sel(s[j]) != sel(s[i])
  }

  lemma KeysOfAppend(a: seq<Book>, c: seq<Book>, sel: Selector)
    ensures KeysOf(a + c, sel) == KeysOf(a, sel) + KeysOf(c, sel)
  {
    forall k | k in KeysOf(a + c, sel)
      ensures k in KeysOf(a, sel) + KeysOf(c, sel)
    {
      var b :| b in a + c && sel(b) == k;
    }
  }

  /** A sorted sequence splits around any element into sorted parts below and above it. */
  lemma SortedSplit(a: seq<Book>, x: Book, c: seq<Book>, sel: Selector)
    requires Sorted(a + [x] + c, sel)
    ensures Sorted(a, sel) && Sorted(c, sel)
    ensures AllBelow(a, sel(x), sel) && AllAbove(c, sel(x), sel)
  {
    var s := a + [x] + c;
    forall i, j | 0 <= i < j < |a| ensures Less(sel(a[i]), sel(a[j])) {
      assert a[i] == s[i] && a[j] == s[j];
    }
    forall i, j | 0 <= i < j < |c| ensures Less(sel(c[i]), sel(c[j])) {
      assert c[i] == s[|a| + 1 + i] && c[j] == s[|a| + 1 + j];
    }
    forall b | b in a ensures Less(sel(b), sel(x)) {
      var i :| 0 <= i < |a| && a[i] == b;
      assert s[i] == b && s[|a|] == x;
    }
    forall b | b in c ensures Less(sel(x), sel(b)) {
      var i :| 0 <= i < |c| && c[i] == b;
      assert s[|a| + 1 + i] == b && s[|a|] == x;
    }
  }

  /** Conversely, sorted parts on either side of a separating key join into a sorted sequence. */
  lemma SortedJoin(a: seq<Book>, x: Book, c: seq<Book>, sel: Selector)
    requires Sorted(a, sel) && Sorted(c, sel)
    requires AllBelow(a, sel(x), sel) && AllAbove(c, sel(x), sel)
    ensures Sorted(a + [x] + c, sel)
  {
    var s := a + [x] + c;
    forall i, j | 0 <= i < j < |s| ensures Less(sel(s[i]), sel(s[j])) {
      if i < |a| && j > |a| {
        assert s[i] in a && s[j] in c;
        LessTransitive(sel(s[i]), sel(x), sel(s[j]));
      } else if i < |a| && j == |a| {
        assert s[i] in a;
      } else if i == |a| {
        assert s[j] in c;
      } else if j < |a| {
        assert s[i] == a[i] && s[j] == a[j];
      } else {
        assert s[i] == c[i - |a| - 1] && s[j] == c[j - |a| - 1];
      }
    }
  }

  lemma SortedTail(s: seq<Book>, sel: Selector)
    requires |s| > 0 && Sorted(s, sel)
    ensures Sorted(s[1..], sel) && AllAbove(s[1..], sel(s[0]), sel)
  {
    assert s == [] + [s[0]] + s[1..];
    SortedSplit([], s[0], s[1..], sel);
  }

  /** In a sorted sequence the first book carries the least key. */
  lemma SortedFirstIsLeast(s: seq<Book>, sel: Selector)
    requires |s| > 0 && Sorted(s, sel)
    ensures forall k :: k in KeysOf(s, sel) && k != sel(s[0]) ==> Less(sel(s[0]), k)
  {
    forall k | k in KeysOf(s, sel) && k != sel(s[0]) ensures Less(sel(s[0]), k) {
      var b :| b in s && sel(b) == k;
      var i :| 0 <= i < |s| && s[i] == b;
    }
  }

  /** A strictly sorted sequence is key-injective. */
  lemma SortedInjective(s: seq<Book>, sel: Selector)
    requires Sorted(s, sel)
    ensures KeyInjective(s, sel)
  {
    forall i, j | 0 <= i < j < |s| ensures sel(s[i]) != sel(s[j]) {
      LessIrreflexive(sel(s[i]));
    }
  }

  // ---------------------------------------------------------------------------
  // Insertion into a sorted list
  // ---------------------------------------------------------------------------

  /**
    Insert `b` at the place where key `k` belongs, scanning from the front:
    before the first book whose key is above `k`; if a book with key `k` is met
    first, the list is returned unchanged (the new book is dropped).
  */
  function InsertInOrder(s: seq<Book>, k: string, b: Book, sel: Selector): (r: seq<Book>)
    ensures |r| == |s| || |r| == |s| + 1
    decreases |s|
  {
    if |s| == 0 then [b]
    else if Less(k, sel(s[0])) then [b] + s
    else if Less(sel(s[0]), k) then [s[0]] + InsertInOrder(s[1..], k, b, sel)
    else s
  }

  /** Insertion adds `b` and nothing else, or changes nothing at all. */
  lemma {:induction false} InsertInOrderContents(s: seq<Book>, k: string, b: Book, sel: Selector)
    ensures var r := InsertInOrder(s, k, b, sel);
      && (r == s || multiset(r) == multiset(s) + multiset{b})
      && (forall e :: e in r ==> e in s || e == b)
      && (forall e :: e in s ==> e in r)
    decreases |s|
  {
    if |s| > 0 && !Less(k, sel(s[0])) && Less(sel(s[0]), k) {
      InsertInOrderContents(s[1..], k, b, sel);
      assert s == [s[0]] + s[1..];
    }
  }

  /** A prefix wholly below the key is passed over unchanged. */
  lemma {:induction false} InsertInOrderSkipsBelow(p: seq<Book>, c: seq<Book>, k: string, b: Book, sel: Selector)
    requires AllBelow(p, k, sel)
    ensures InsertInOrder(p + c, k, b, sel) == p + InsertInOrder(c, k, b, sel)
    decreases |p|
  {
    if |p| > 0 {
      var x, q := p[0], p[1..];
      assert AllBelow(q, k, sel) by {
        forall e | e in q ensures Less(sel(e), k) {
          assert e in p;
        }
      }
      InsertInOrderSkipsBelow(q, c, k, b, sel);
      assert InsertInOrder(p + c, k, b, sel) == [x] + InsertInOrder(q + c, k, b, sel) by {
        assert x in p;
        LessAsymmetric(sel(x), k);
        assert (p + c)[0] == x && (p + c)[1..] == q + c;
      }
      assert [x] + (q + InsertInOrder(c, k, b, sel)) == p + InsertInOrder(c, k, b, sel) by {
        assert p == [x] + q;
      }
    } else {
      assert p + c == c;
    }
  }

  /** When the key belongs before the first book of `c`, insertion never reaches `c`. */
  lemma {:induction false} InsertInOrderStopsBefore(p: seq<Book>, c: seq<Book>, k: string, b: Book, sel: Selector)
    requires |c| > 0 && Less(k, sel(c[0]))
    ensures InsertInOrder(p + c, k, b, sel) == InsertInOrder(p, k, b, sel) + c
    decreases |p|
  {
    if |p| == 0 {
      assert p + c == c;
    } else {
      assert (p + c)[0] == p[0] && (p + c)[1..] == p[1..] + c;
      if Less(k, sel(p[0])) {
      } else if Less(sel(p[0]), k) {
        InsertInOrderStopsBefore(p[1..], c, k, b, sel);
      } else {
      }
    }
  }

  /** A key wholly above a list is inserted at its end: the basis of "missing keys sort last". */
  lemma InsertInOrderAtEnd(s: seq<Book>, k: string, b: Book, sel: Selector)
    requires AllBelow(s, k, sel)
    ensures InsertInOrder(s, k, b, sel) == s + [b]
  {
    InsertInOrderSkipsBelow(s, [], k, b, sel);
    assert s + [] == s;
  }

  /** Inserting a book under its own key keeps a list sorted. */
  lemma {:induction false} InsertInOrderSorted(s: seq<Book>, b: Book, sel: Selector)
    requires Sorted(s, sel)
    ensures Sorted(InsertInOrder(s, sel(b), b, sel), sel)
    decreases |s|
  {
    var k := sel(b);
    if |s| == 0 {
    } else if Less(k, sel(s[0])) {
      SortedTail(s, sel);
      forall e | e in s ensures Less(k, sel(e)) {
        if e != s[0] {
          assert e in s[1..];
          LessTransitive(k, sel(s[0]), sel(e));
        }
      }
      assert [b] + s == [] + [b] + s;
      SortedJoin([], b, s, sel);
    } else if Less(sel(s[0]), k) {
      SortedTail(s, sel);
      InsertInOrderSorted(s[1..], b, sel);
      var r' := InsertInOrder(s[1..], k, b, sel);
      InsertInOrderContents(s[1..], k, b, sel);
      assert AllAbove(r', sel(s[0]), sel);
      assert [s[0]] + r' == [] + [s[0]] + r';
      SortedJoin([], s[0], r', sel);
    } else {
    }
  }

  /** Inserting a book under its own key adds exactly that key. */
  lemma InsertInOrderKeys(s: seq<Book>, b: Book, sel: Selector)
    ensures KeysOf(InsertInOrder(s, sel(b), b, sel), sel) == KeysOf(s, sel) + {sel(b)}
  {
    var r := InsertInOrder(s, sel(b), b, sel);
    InsertInOrderContents(s, sel(b), b, sel);
    if r == s {
      InsertInOrderKeptHasKey(s, sel(b), b, sel);
    } else {
      assert multiset(r) == multiset(s) + multiset{b};
      assert b in multiset(r);
    }
  }

  /** If the list came back unchanged, the key was already present. */
  lemma {:induction false} InsertInOrderKeptHasKey(s: seq<Book>, k: string, b: Book, sel: Selector)
    requires InsertInOrder(s, k, b, sel) == s
    ensures k in KeysOf(s, sel)
    decreases |s|
  {
    if |s| == 0 {
    } else if Less(k, sel(s[0])) {
      assert false;
    } else if Less(sel(s[0]), k) {
      var r' := InsertInOrder(s[1..], k, b, sel);
      assert [s[0]] + r' == s;
      assert r' == s[1..];
      InsertInOrderKeptHasKey(s[1..], k, b, sel);
      var e :| e in s[1..] && sel(e) == k;
      assert e in s;
    } else {
      LessTotal(k, sel(s[0]));
      assert s[0] in s;
    }
  }

  /** A key not yet present is always added: the new book enters the list. */
  lemma InsertInOrderNewKey(s: seq<Book>, k: string, b: Book, sel: Selector)
    requires k !in KeysOf(s, sel)
    ensures multiset(InsertInOrder(s, k, b, sel)) == multiset(s) + multiset{b}
  {
    InsertInOrderContents(s, k, b, sel);
    if InsertInOrder(s, k, b, sel) == s {
      InsertInOrderKeptHasKey(s, k, b, sel);
    }
  }

  /** In a sorted list a key already present stops the scan: the list is returned unchanged. */
  lemma {:induction false} InsertInOrderDuplicate(s: seq<Book>, k: string, b: Book, sel: Selector)
    requires Sorted(s, sel) && k in KeysOf(s, sel)
    ensures InsertInOrder(s, k, b, sel) == s
    decreases |s|
  {
    SortedFirstIsLeast(s, sel);
    if k == sel(s[0]) {
      LessIrreflexive(k);
    } else {
      LessAsymmetric(sel(s[0]), k);
      SortedTail(s, sel);
      var e :| e in s && sel(e) == k;
      assert e in s[1..] by { assert s == [s[0]] + s[1..]; }
      InsertInOrderDuplicate(s[1..], k, b, sel);
      assert s == [s[0]] + s[1..];
    }
  }

  // ---------------------------------------------------------------------------
  // Removal of a key
  // ---------------------------------------------------------------------------

  /** Drop every book whose key is `k`; the others keep their order. */
  function RemoveKey(s: seq<Book>, k: string, sel: Selector): (r: seq<Book>)
    ensures |r| <= |s|
    decreases |s|
  {
    if |s| == 0 then []
    else if sel(s[0]) == k then RemoveKey(s[1..], k, sel)
    else [s[0]] + RemoveKey(s[1..], k, sel)
  }

  /** Removal keeps exactly the books whose key is not `k`. */
  lemma {:induction false} RemoveKeyMembers(s: seq<Book>, k: string, sel: Selector)
    ensures forall e :: e in RemoveKey(s, k, sel) <==> e in s && sel(e) != k
    decreases |s|
  {
    if |s| > 0 {
      RemoveKeyMembers(s[1..], k, sel);
      assert s == [s[0]] + s[1..];
    }
  }

  lemma {:induction false} RemoveKeyAppend(a: seq<Book>, c: seq<Book>, k: string, sel: Selector)
    ensures RemoveKey(a + c, k, sel) == RemoveKey(a, k, sel) + RemoveKey(c, k, sel)
    decreases |a|
  {
    if |a| == 0 {
      assert a + c == c;
    } else {
      assert (a + c)[0] == a[0] && (a + c)[1..] == a[1..] + c;
      RemoveKeyAppend(a[1..], c, k, sel);
    }
  }

  /** Removing an absent key changes nothing. */
  lemma {:induction false} RemoveKeyAbsent(s: seq<Book>, k: string, sel: Selector)
    requires k !in KeysOf(s, sel)
    ensures RemoveKey(s, k, sel) == s
    decreases |s|
  {
    if |s| > 0 {
      assert s[0] in s;
      assert forall e :: e in s[1..] ==> e in s;
      RemoveKeyAbsent(s[1..], k, sel);
      assert s == [s[0]] + s[1..];
    }
  }

  lemma RemoveKeyKeys(s: seq<Book>, k: string, sel: Selector)
    ensures KeysOf(RemoveKey(s, k, sel), sel) == KeysOf(s, sel) - {k}
  {
    RemoveKeyMembers(s, k, sel);
  }

  /** Removal keeps a list sorted, and from a sorted list it removes at most one book. */
  lemma {:induction false} RemoveKeySorted(s: seq<Book>, k: string, sel: Selector)
    requires Sorted(s, sel)
    ensures Sorted(RemoveKey(s, k, sel), sel)
    ensures |RemoveKey(s, k, sel)| == |s| - (if k in KeysOf(s, sel) then 1 else 0)
    decreases |s|
  {
    if |s| > 0 {
      var x, q := s[0], s[1..];
      SortedTail(s, sel);
      RemoveKeySorted(q, k, sel);
      var r' := RemoveKey(q, k, sel);
      assert KeysOf(s, sel) == {sel(x)} + KeysOf(q, sel) by {
        assert s == [x] + q;
        KeysOfAppend([x], q, sel);
      }
      if sel(x) == k {
        assert k !in KeysOf(q, sel) by {
          LessIrreflexive(k);
        }
      } else {
        assert Sorted([x] + r', sel) by {
          assert AllAbove(r', sel(x), sel) by {
            RemoveKeyMembers(q, k, sel);
          }
          assert [x] + r' == [] + [x] + r';
          SortedJoin([], x, r', sel);
        }
      }
    }
  }

  /** Removing a key that occurs only before `x` leaves `x` and the rest untouched. */
  lemma RemoveKeyBefore(a: seq<Book>, x: Book, c: seq<Book>, k: string, sel: Selector)
    requires sel(x) != k && k !in KeysOf(c, sel)
    ensures RemoveKey(a + [x] + c, k, sel) == RemoveKey(a, k, sel) + [x] + c
  {
    RemoveKeyAbsent(c, k, sel);
    RemoveKeyAppend(a + [x], c, k, sel);
    RemoveKeyAppend(a, [x], k, sel);
    assert RemoveKey([x], k, sel) == [x];
  }

  /** Removing a key that occurs only after `x` leaves `x` and the prefix untouched. */
  lemma RemoveKeyAfter(a: seq<Book>, x: Book, c: seq<Book>, k: string, sel: Selector)
    requires sel(x) != k && k !in KeysOf(a, sel)
    ensures RemoveKey(a + [x] + c, k, sel) == a + [x] + RemoveKey(c, k, sel)
  {
    RemoveKeyAbsent(a, k, sel);
    RemoveKeyAppend(a + [x], c, k, sel);
    RemoveKeyAppend(a, [x], k, sel);
    assert RemoveKey([x], k, sel) == [x];
  }

  /** Removing the key of `x`, held by no other book, drops exactly `x`. */
  lemma RemoveKeyAt(a: seq<Book>, x: Book, c: seq<Book>, sel: Selector)
    requires sel(x) !in KeysOf(a, sel) && sel(x) !in KeysOf(c, sel)
    ensures RemoveKey(a + [x] + c, sel(x), sel) == a + c
  {
    RemoveKeyAbsent(a, sel(x), sel);
    RemoveKeyAbsent(c, sel(x), sel);
    RemoveKeyAppend(a + [x], c, sel(x), sel);
    RemoveKeyAppend(a, [x], sel(x), sel);
    assert RemoveKey([x], sel(x), sel) == [];
  }

  /** Removing the first key of a sorted list drops exactly its first book. */
  lemma RemoveKeyFirst(c: seq<Book>, sel: Selector)
    requires |c| > 0 && Sorted(c, sel)
    ensures RemoveKey(c, sel(c[0]), sel) == c[1..]
  {
    SortedTail(c, sel);
    AboveIsAbsent(c[1..], sel(c[0]), sel(c[0]), sel);
    RemoveKeyAbsent(c[1..], sel(c[0]), sel);
    assert c == [c[0]] + c[1..];
    RemoveKeyAppend([c[0]], c[1..], sel(c[0]), sel);
  }

  /** No key at or below `k` occurs among books wholly above `k`. */
  lemma AboveIsAbsent(s: seq<Book>, k: string, title: string, sel: Selector)
    requires AllAbove(s, k, sel) && (title == k || Less(title, k))
    ensures title !in KeysOf(s, sel)
  {
    LessIrreflexive(k);
    forall b | b in s ensures sel(b) != title {
      if title != k {
        LessAsymmetric(title, k);
        if sel(b) == title {
          LessAsymmetric(k, title);
        }
      }
    }
  }

  /** No key at or above `k` occurs among books wholly below `k`. */
  lemma BelowIsAbsent(s: seq<Book>, k: string, title: string, sel: Selector)
    requires AllBelow(s, k, sel) && (title == k || Less(k, title))
    ensures title !in KeysOf(s, sel)
  {
    LessIrreflexive(k);
    forall b | b in s ensures sel(b) != title {
      if title != k && sel(b) == title {
        LessAsymmetric(k, title);
      }
    }
  }

  // ---------------------------------------------------------------------------
  // Rebuilding: inserting a whole sequence, front to back
  // ---------------------------------------------------------------------------

  /** Insert every book of `s`, in order, each under its own key, starting from `acc`. */
  function InsertAll(acc: seq<Book>, s: seq<Book>, sel: Selector): (r: seq<Book>)
    decreases |s|
  {
    if |s| == 0 then acc
    else
      var last := s[|s| - 1];
      InsertInOrder(InsertAll(acc, s[..|s| - 1], sel), sel(last), last, sel)
  }

  /** Inserting one more book continues the rebuild where it stopped. */
  lemma InsertAllSnoc(acc: seq<Book>, s: seq<Book>, b: Book, sel: Selector)
    ensures InsertAll(acc, s + [b], sel) == InsertInOrder(InsertAll(acc, s, sel), sel(b), b, sel)
  {
    assert (s + [b])[..|s|] == s;
  }

  lemma {:induction false} InsertAllSorted(acc: seq<Book>, s: seq<Book>, sel: Selector)
    requires Sorted(acc, sel)
    ensures Sorted(InsertAll(acc, s, sel), sel)
    decreases |s|
  {
    if |s| > 0 {
      InsertAllSorted(acc, s[..|s| - 1], sel);
      InsertInOrderSorted(InsertAll(acc, s[..|s| - 1], sel), s[|s| - 1], sel);
    }
  }

  lemma {:induction false} InsertAllKeys(acc: seq<Book>, s: seq<Book>, sel: Selector)
    ensures KeysOf(InsertAll(acc, s, sel), sel) == KeysOf(acc, sel) + KeysOf(s, sel)
    decreases |s|
  {
    if |s| > 0 {
      var n := |s| - 1;
      InsertAllKeys(acc, s[..n], sel);
      InsertInOrderKeys(InsertAll(acc, s[..n], sel), s[n], sel);
      assert s == s[..n] + [s[n]];
      KeysOfAppend(s[..n], [s[n]], sel);
    }
  }

  /** The last book is the first of its key exactly when its key is new to the prefix. */
  lemma LastFirstOfKey(s: seq<Book>, sel: Selector)
    requires |s| > 0
    ensures FirstOfKey(s, |s| - 1, sel) <==> sel(s[|s| - 1]) !in KeysOf(s[..|s| - 1], sel)
  {
    var n := |s| - 1;
    var p := s[..n];
    if sel(s[n]) in KeysOf(p, sel) {
      var e :| e in p && sel(e) == sel(s[n]);
      var j :| 0 <= j < n && p[j] == e;
      assert s[j] == e;
    } else {
      forall j | 0 <= j < n ensures sel(s[j]) != sel(s[n]) {
        assert p[j] == s[j] && p[j] in p;
      }
    }
  }

  lemma FirstOfKeyPrefix(s: seq<Book>, n: int, i: int, sel: Selector)
    requires 0 <= i < n <= |s|
    ensures FirstOfKey(s[..n], i, sel) <==> FirstOfKey(s, i, sel)
    ensures s[..n][i] == s[i]
  {
    if FirstOfKey(s, i, sel) {
      forall j | 0 <= j < i ensures sel(s[..n][j]) != sel(s[..n][i]) {
        assert s[..n][j] == s[j];
      }
    }
    if FirstOfKey(s[..n], i, sel) {
      forall j | 0 <= j < i ensures sel(s[j]) != sel(s[i]) {
        assert s[..n][j] == s[j];
      }
    }
  }

  /** One rebuilding step: the facts about the prefix that the next insertion needs. */
  lemma RebuildStep(s: seq<Book>, sel: Selector)
    requires |s| > 0
    ensures var acc := InsertAll([], s[..|s| - 1], sel);
            && Sorted(acc, sel)
            && KeysOf(acc, sel) == KeysOf(s[..|s| - 1], sel)
            && InsertAll([], s, sel) == InsertInOrder(acc, sel(s[|s| - 1]), s[|s| - 1], sel)
  {
    var p := s[..|s| - 1];
    InsertAllSorted([], p, sel);
    InsertAllKeys([], p, sel);
    assert KeysOf([], sel) == {};
  }

  /** Rebuilding from nothing keeps the first book of `s` with each key. */
  lemma {:induction false} RebuildKeepsFirstOccurrences(s: seq<Book>, sel: Selector)
    ensures forall i :: 0 <= i < |s| && FirstOfKey(s, i, sel) ==> s[i] in InsertAll([], s, sel)
    decreases |s|
  {
    if |s| > 0 {
      var n := |s| - 1;
      var p := s[..n];
      var acc := InsertAll([], p, sel);
      var r := InsertInOrder(acc, sel(s[n]), s[n], sel);
      assert InsertAll([], s, sel) == r;
      forall i | 0 <= i < |s| && FirstOfKey(s, i, sel) ensures s[i] in r {
        if i < n {
          assert s[i] in acc by {
            RebuildKeepsFirstOccurrences(p, sel);
            FirstOfKeyPrefix(s, n, i, sel);
          }
          InsertInOrderContents(acc, sel(s[n]), s[n], sel);
        } else {
          assert s[n] in multiset(r) by {
            RebuildStep(s, sel);
            LastFirstOfKey(s, sel);
            InsertInOrderNewKey(acc, sel(s[n]), s[n], sel);
          }
        }
      }
    }
  }

  /** Every book that survives rebuilding is the first book of `s` with its key. */
  lemma {:induction false} RebuildKeepsOnlyFirstOccurrences(s: seq<Book>, sel: Selector)
    ensures forall e :: e in InsertAll([], s, sel) ==>
              exists i :: 0 <= i < |s| && s[i] == e && FirstOfKey(s, i, sel)
    decreases |s|
  {
    if |s| > 0 {
      var n := |s| - 1;
      var p := s[..n];
      var acc := InsertAll([], p, sel);
      RebuildKeepsOnlyFirstOccurrences(p, sel);
      RebuildStep(s, sel);
      var r := InsertInOrder(acc, sel(s[n]), s[n], sel);
      InsertInOrderContents(acc, sel(s[n]), s[n], sel);
      forall e | e in r ensures exists i :: 0 <= i < |s| && s[i] == e && FirstOfKey(s, i, sel) {
        if e in acc {
          var i :| 0 <= i < |p| && p[i] == e && FirstOfKey(p, i, sel);
          FirstOfKeyPrefix(s, n, i, sel);
        } else {
          assert e == s[n];
          if sel(s[n]) in KeysOf(acc, sel) {
            InsertInOrderDuplicate(acc, sel(s[n]), s[n], sel);
          }
          LastFirstOfKey(s, sel);
        }
      }
    }
  }

  /** In a sorted list, insertion grows the list by one exactly when the key is new. */
  lemma InsertInOrderLength(s: seq<Book>, k: string, b: Book, sel: Selector)
    requires Sorted(s, sel)
    ensures |InsertInOrder(s, k, b, sel)| == |s| + (if k in KeysOf(s, sel) then 0 else 1)
  {
    if k in KeysOf(s, sel) {
      InsertInOrderDuplicate(s, k, b, sel);
    } else {
      InsertInOrderNewKey(s, k, b, sel);
      assert |multiset(InsertInOrder(s, k, b, sel))| == |multiset(s)| + 1;
    }
  }

  /**
    Rebuilding keeps every book exactly when no two books share a key; otherwise
    some books are lost.
  */
  lemma {:induction false} RebuildKeepsAllIffInjective(s: seq<Book>, sel: Selector)
    ensures |InsertAll([], s, sel)| <= |s|
    ensures |InsertAll([], s, sel)| == |s| <==> KeyInjective(s, sel)
    decreases |s|
  {
    if |s| > 0 {
      var n := |s| - 1;
      var p := s[..n];
      RebuildKeepsAllIffInjective(p, sel);
      RebuildStep(s, sel);
      LastFirstOfKey(s, sel);
      InsertInOrderLength(InsertAll([], p, sel), sel(s[n]), s[n], sel);
      InjectiveExtend(s, sel);
    }
  }

  /** A sequence is key-injective iff its prefix is and its last key is new. */
  lemma InjectiveExtend(s: seq<Book>, sel: Selector)
    requires |s| > 0
    ensures KeyInjective(s, sel) <==> KeyInjective(s[..|s| - 1], sel) && FirstOfKey(s, |s| - 1, sel)
  {
    var n := |s| - 1;
    var p := s[..n];
    if KeyInjective(p, sel) && FirstOfKey(s, n, sel) {
      forall i, j | 0 <= i < j < |s| ensures sel(s[i]) != sel(s[j]) {
        if j < n {
          assert p[i] == s[i] && p[j] == s[j];
        }
      }
    }
    if KeyInjective(s, sel) {
      forall i, j | 0 <= i < j < |p| ensures sel(p[i]) != sel(p[j]) {
        assert p[i] == s[i] && p[j] == s[j];
      }
    }
  }
}
