/** End-to-end behaviour of the list screen: the engine and the edit path together. */
module Scenarios {
  import opened Options
  import opened Status
  import opened Books
  import opened Sorting
  import opened Catalog
  import opened Editing

  /** Three unread books added at times 1, 2 and 3 show newest first. */
  lemma NewestFirst(collate: Collation)
    requires TotalPreorder(collate)
    ensures var b1, b2, b3 := AddBook("1", 1, "A", "X", "", None), AddBook("2", 2, "B", "Y", "", None),
                             AddBook("3", 3, "C", "Z", "", None);
      Derive([b1, b2, b3], InitialView, collate) == [b3, b2, b1]
  {
    var b1, b2, b3 := AddBook("1", 1, "A", "X", "", None), AddBook("2", 2, "B", "Y", "", None),
                      AddBook("3", 3, "C", "Z", "", None);
    var books := [b1, b2, b3];
    var cmp := Comparator(ADDED_DATE_DESC, collate);
    ComparatorIsTotalPreorder(ADDED_DATE_DESC, collate);
    FilterKeepsAll(books, NotRead());
    FilterDropsAll(books, Not(NotRead()));
    assert Derive(books, InitialView, collate) == Sort(books, cmp) + Sort([], cmp);
    NewestFirstSort(collate, b1, b2, b3);
  }

  /** Sorting three books of increasing `addedDate` newest first reverses them. */
  lemma NewestFirstSort(collate: Collation, b1: Book, b2: Book, b3: Book)
    requires TotalPreorder(collate)
    requires b1.addedDate < b2.addedDate < b3.addedDate
    ensures Sort([b1, b2, b3], Comparator(ADDED_DATE_DESC, collate)) == [b3, b2, b1]
  {
    var cmp := Comparator(ADDED_DATE_DESC, collate);
    ComparatorIsTotalPreorder(ADDED_DATE_DESC, collate);
    NewestFirstPair(collate, b2, b3);
    assert [b1, b2, b3][1..] == [b2, b3];
    assert Insert(b1, [b2], cmp) == [b2, b1];
    assert Insert(b1, [b3, b2], cmp) == [b3] + Insert(b1, [b2], cmp);
  }

  /** Sorting two books of increasing `addedDate` newest first swaps them. */
  lemma NewestFirstPair(collate: Collation, b1: Book, b2: Book)
    requires TotalPreorder(collate)
    requires b1.addedDate < b2.addedDate
    ensures Sort([b1, b2], Comparator(ADDED_DATE_DESC, collate)) == [b2, b1]
  {
    var cmp := Comparator(ADDED_DATE_DESC, collate);
    ComparatorIsTotalPreorder(ADDED_DATE_DESC, collate);
    assert [b1, b2][1..] == [b2];
    assert Sort([b2], cmp) == [b2];
    assert Insert(b1, [b2], cmp) == [b2, b1];
  }

  /** Marking the middle book as read at time `t` stamps `t` and moves it to the bottom. */
  lemma ReadBookSinks(collate: Collation, t: Long)
    requires TotalPreorder(collate)
    ensures var b1, b2, b3 := AddBook("1", 1, "A", "X", "", None), AddBook("2", 2, "B", "Y", "", None),
                             AddBook("3", 3, "C", "Z", "", None);
      var done := UpdateBook([b3, b2, b1], "2", Edit("B", "Y", "", READ, NoNewImage, t));
      && done.Some? && done.value.readDate == Some(t)
      && Derive([b1, done.value, b3], InitialView, collate) == [b3, b1, done.value]
  {
    var b1, b2, b3 := AddBook("1", 1, "A", "X", "", None), AddBook("2", 2, "B", "Y", "", None),
                      AddBook("3", 3, "C", "Z", "", None);
    var done := UpdateBook([b3, b2, b1], "2", Edit("B", "Y", "", READ, NoNewImage, t));
    assert Find([b3, b2, b1], "2") == Some(b2) by {
      assert [b3, b2, b1][1..] == [b2, b1];
    }
    ReadSinksBelow(collate, b1, done.value, b3);
  }

  /** A read book is listed below unread ones, whatever its `addedDate`. */
  lemma ReadSinksBelow(collate: Collation, b1: Book, d: Book, b3: Book)
    requires TotalPreorder(collate)
    requires b1.status != READ && d.status == READ && b3.status != READ
    requires b1.addedDate < b3.addedDate
    ensures Derive([b1, d, b3], InitialView, collate) == [b3, b1, d]
  {
    var cmp := Comparator(ADDED_DATE_DESC, collate);
    ComparatorIsTotalPreorder(ADDED_DATE_DESC, collate);
    SplitReadMiddle(b1, d, b3);
    assert Derive([b1, d, b3], InitialView, collate) == Sort([b1, b3], cmp) + Sort([d], cmp);
    NewestFirstPair(collate, b1, b3);
    assert Sort([d], cmp) == [d];
  }

  /** The partition of a list whose middle book alone is read. */
  lemma SplitReadMiddle(b1: Book, d: Book, b3: Book)
    requires b1.status != READ && d.status == READ && b3.status != READ
    ensures Filter([b1, d, b3], NotRead()) == [b1, b3]
    ensures Filter([b1, d, b3], Not(NotRead())) == [d]
  {
    assert [b1, d, b3][1..] == [d, b3] && [d, b3][1..] == [b3];
    var p := NotRead();
    assert p(b1) && !p(d) && p(b3);
    assert Filter([b3], p) == [b3];
    assert Filter([d, b3], p) == [b3];
    assert Not(p)(d) && !Not(p)(b1) && !Not(p)(b3);
    assert Filter([b3], Not(p)) == [];
    assert Filter([d, b3], Not(p)) == [d];
  }

  /** Moving a read book back to unread clears its completion date. */
  lemma UnreadClearsDate(shown: seq<Book>, id: string, e: Edit)
    requires e.status == UNREAD
    requires exists i :: 0 <= i < |shown| && shown[i].id == id
    ensures UpdateBook(shown, id, e).Some? && UpdateBook(shown, id, e).value.readDate == None
  {
  }

  /** An empty result is not an error: filtering on READING when no book is being read
      shows nothing. */
  lemma EmptyFilterResult(books: seq<Book>, order: SortOrder, collate: Collation)
    requires TotalPreorder(collate)
    requires forall i :: 0 <= i < |books| ==> books[i].status != READING
    ensures Derive(books, ViewState(order, Some(READING)), collate) == []
  {
    FilterDropsAll(books, HasStatus(READING));
  }

  /** `updateBook` looks the id up in the list on screen, not in the store: while a
      filter hides a stored book, saving an edit of it writes nothing. */
  lemma UpdateIgnoresHiddenBook(store: seq<Book>, view: ViewState, collate: Collation, b: Book, e: Edit)
    requires TotalPreorder(collate)
    requires b in store && view.filter.Some? && b.status != view.filter.value
    requires forall c :: c in store && c.id == b.id ==> c == b
    ensures b in store && UpdateBook(Derive(store, view, collate), b.id, e) == None
  {
    var shown := Derive(store, view, collate);
    forall i | 0 <= i < |shown|
      ensures shown[i].id != b.id
    {
      DeriveMembers(store, view, collate, shown[i]);
    }
  }
}
