/** The catalog query engine: the body of the `combine` that turns the stored books,
    the sort order and the status filter into the list on screen. */
module Catalog {
  import opened Options
  import opened Status
  import opened Books
  import opened Sorting

  /** The six orders the list can be shown in. */
  datatype SortOrder = ADDED_DATE_DESC | ADDED_DATE_ASC | TITLE_ASC | TITLE_DESC | AUTHOR_ASC | AUTHOR_DESC

  /** The two user-selected inputs of the engine; `filter == None` shows every status. */
  datatype ViewState = ViewState(sort: SortOrder, filter: Option<BookStatus>)

  /** The view model starts with newest-first and no filter. */
  const InitialView: ViewState := ViewState(ADDED_DATE_DESC, None)

  /** The locale-aware string comparison (a Japanese collator) is not modelled: it is
      any comparison function, and the engine asks only that it be a total preorder. */
  type Collation = (string, string) -> int

  /** `Long.compareTo`, which `sortedBy` and `sortedByDescending` use on `addedDate`. */
  function CompareLong(a: Long, b: Long): (r: int)
    ensures r < 0 <==> a < b
    ensures r == 0 <==> a == b
  {
    if a < b then -1 else if a > b then 1 else 0
  }

  /** The comparator each sort order sorts with. Descending orders compare the keys
      the other way round; they do not reverse an ascending sort, so ties keep their
      input order in both directions. */
  function Comparator(order: SortOrder, collate: Collation): (cmp: (Book, Book) -> int)
    ensures forall a: Book, b: Book :: cmp(a, b) <= 0 <==> KeysInOrder(order, collate, a, b)
  {
    match order
    case ADDED_DATE_DESC => (a: Book, b: Book) => CompareLong(b.addedDate, a.addedDate)
    case ADDED_DATE_ASC => (a: Book, b: Book) => CompareLong(a.addedDate, b.addedDate)
    case TITLE_ASC => (a: Book, b: Book) => collate(a.title, b.title)
    case TITLE_DESC => (a: Book, b: Book) => collate(b.title, a.title)
    case AUTHOR_ASC => (a: Book, b: Book) => collate(a.author, b.author)
    case AUTHOR_DESC => (a: Book, b: Book) => collate(b.author, a.author)
  }

  /** Every order's comparator is a valid comparator when the collator is. */
  lemma ComparatorIsTotalPreorder(order: SortOrder, collate: Collation)
    requires TotalPreorder(collate)
    ensures TotalPreorder(Comparator(order, collate))
  {
    var cmp := Comparator(order, collate);
    forall a: Book, b: Book
      ensures cmp(a, b) <= 0 || cmp(b, a) <= 0
    {
      match order
      case ADDED_DATE_DESC =>
      case ADDED_DATE_ASC =>
      case TITLE_ASC => assert collate(a.title, b.title) <= 0 || collate(b.title, a.title) <= 0;
      case TITLE_DESC => assert collate(a.title, b.title) <= 0 || collate(b.title, a.title) <= 0;
      case AUTHOR_ASC => assert collate(a.author, b.author) <= 0 || collate(b.author, a.author) <= 0;
      case AUTHOR_DESC => assert collate(a.author, b.author) <= 0 || collate(b.author, a.author) <= 0;
    }
    forall a: Book, b: Book, c: Book | Chain(cmp, a, b, c)
      ensures cmp(a, c) <= 0
    {
      match order
      case ADDED_DATE_DESC =>
      case ADDED_DATE_ASC =>
      case TITLE_ASC => Transitive(collate, a.title, b.title, c.title);
      case TITLE_DESC => Transitive(collate, c.title, b.title, a.title);
      case AUTHOR_ASC => Transitive(collate, a.author, b.author, c.author);
      case AUTHOR_DESC => Transitive(collate, c.author, b.author, a.author);
    }
  }

  /** The status filter's predicate. */
  function HasStatus(st: BookStatus): Book -> bool {
    (b: Book) => b.status == st
  }

  /** The partition predicate: `true` for the books that stay above the read ones. */
  function NotRead(): Book -> bool {
    (b: Book) => b.status != READ
  }

  /** Step 1: a null filter keeps the list, otherwise only books of that status. */
  function Filtered(books: seq<Book>, filter: Option<BookStatus>): (r: seq<Book>)
    ensures filter.None? ==> r == books
    ensures |r| <= |books|
    ensures forall i :: 0 <= i < |r| ==> Shows(filter, r[i])
    ensures filter.Some? ==> forall b :: b in r <==> b in books && b.status == filter.value
  {
    match filter
    case None => books
    case Some(st) =>
      var kept := Filter(books, HasStatus(st));
      assert forall b :: b in kept <==> b in books && b.status == st by {
        forall b
          ensures b in kept <==> b in books && b.status == st
        {
          FilterMembers(books, HasStatus(st), b);
        }
      }
      kept
  }

  /** Whether the filter lets a book through. */
  predicate Shows(filter: Option<BookStatus>, b: Book) {
    filter.None? || b.status == filter.value
  }

  /** Steps 2 to 5: split into unread-or-reading and read books, sort each part with the
      selected comparator, and show the read books last. */
  function Derive(books: seq<Book>, view: ViewState, collate: Collation): (r: seq<Book>)
    requires TotalPreorder(collate)
    ensures multiset(r) == multiset(Filtered(books, view.filter))
    ensures forall i :: 0 <= i < |r| ==> Shows(view.filter, r[i])
    ensures forall i, j :: 0 <= i < j < |r| && r[i].status == READ ==> r[j].status == READ
  {
    var shown := Filtered(books, view.filter);
    var parts := Partition(shown, NotRead());
    ComparatorIsTotalPreorder(view.sort, collate);
    var cmp := Comparator(view.sort, collate);
    var active, completed := Sort(parts.0, cmp), Sort(parts.1, cmp);
    PartsKeepStatus(parts.0, active, true);
    PartsKeepStatus(parts.1, completed, false);
    FilteredShows(books, view.filter, active + completed);
    active + completed
  }

  /** A permutation of a part whose books are all (not) read is all (not) read. */
  lemma PartsKeepStatus(part: seq<Book>, sorted: seq<Book>, active: bool)
    requires forall i :: 0 <= i < |part| ==> (part[i].status != READ) == active
    requires multiset(sorted) == multiset(part)
    ensures forall i :: 0 <= i < |sorted| ==> (sorted[i].status != READ) == active
  {
    forall i | 0 <= i < |sorted|
      ensures (sorted[i].status != READ) == active
    {
      assert sorted[i] in multiset(part);
      var j :| 0 <= j < |part| && part[j] == sorted[i];
    }
  }

  lemma FilteredShows(books: seq<Book>, filter: Option<BookStatus>, r: seq<Book>)
    requires multiset(r) == multiset(Filtered(books, filter))
    ensures forall i :: 0 <= i < |r| ==> Shows(filter, r[i])
  {
    var shown := Filtered(books, filter);
    forall i | 0 <= i < |r|
      ensures Shows(filter, r[i])
    {
      assert r[i] in multiset(shown);
      var j :| 0 <= j < |shown| && shown[j] == r[i];
    }
  }

  // ---------------------------------------------------------------------------
  // Properties of the derived list

  /** Filter correctness: a book is shown exactly when it is stored and passes the
      filter; without a filter the shown list is a permutation of the stored one. */
  lemma DeriveMembers(books: seq<Book>, view: ViewState, collate: Collation, b: Book)
    requires TotalPreorder(collate)
    ensures b in Derive(books, view, collate) <==> b in books && Shows(view.filter, b)
    ensures view.filter == None ==> multiset(Derive(books, view, collate)) == multiset(books)
  {
    var r := Derive(books, view, collate);
    var shown := Filtered(books, view.filter);
    assert b in r <==> b in multiset(shown);
    match view.filter
    case None =>
    case Some(st) => FilterMembers(books, HasStatus(st), b);
  }

  /** The sorted halves the derived list is made of, and the status of each. */
  lemma DeriveShape(books: seq<Book>, view: ViewState, collate: Collation)
    returns (active: seq<Book>, completed: seq<Book>)
    requires TotalPreorder(collate)
    ensures TotalPreorder(Comparator(view.sort, collate))
    ensures Derive(books, view, collate) == active + completed
    ensures Sorted(active, Comparator(view.sort, collate))
    ensures Sorted(completed, Comparator(view.sort, collate))
    ensures SameClasses(active, Filter(Filtered(books, view.filter), NotRead()), Comparator(view.sort, collate))
    ensures SameClasses(completed, Filter(Filtered(books, view.filter), Not(NotRead())), Comparator(view.sort, collate))
    ensures forall i :: 0 <= i < |active| ==> active[i].status != READ
    ensures forall i :: 0 <= i < |completed| ==> completed[i].status == READ
  {
    var parts := Partition(Filtered(books, view.filter), NotRead());
    ComparatorIsTotalPreorder(view.sort, collate);
    var cmp := Comparator(view.sort, collate);
    active, completed := Sort(parts.0, cmp), Sort(parts.1, cmp);
    PartsKeepStatus(parts.0, active, true);
    PartsKeepStatus(parts.1, completed, false);
  }

  /** Within each half, the books are in the selected comparator's order. */
  lemma DeriveOrdered(books: seq<Book>, view: ViewState, collate: Collation)
    requires TotalPreorder(collate)
    ensures var r := Derive(books, view, collate);
      forall i, j :: 0 <= i < j < |r| && (r[i].status == READ) == (r[j].status == READ)
        ==> Comparator(view.sort, collate)(r[i], r[j]) <= 0
  {
    var active, completed := DeriveShape(books, view, collate);
    var r := active + completed;
    var cmp := Comparator(view.sort, collate);
    forall i, j | 0 <= i < j < |r| && (r[i].status == READ) == (r[j].status == READ)
      ensures cmp(r[i], r[j]) <= 0
    {
      if j < |active| {
        assert r[i] == active[i] && r[j] == active[j];
      } else if |active| <= i {
        assert r[i] == completed[i - |active|] && r[j] == completed[j - |active|];
      }
    }
  }

  /** What each of the six orders means for the keys inside each half. */
  lemma DeriveKeyOrder(books: seq<Book>, view: ViewState, collate: Collation)
    requires TotalPreorder(collate)
    ensures var r := Derive(books, view, collate);
      forall i, j :: 0 <= i < j < |r| && (r[i].status == READ) == (r[j].status == READ) ==>
        && (view.sort == ADDED_DATE_DESC ==> r[i].addedDate >= r[j].addedDate)
        && (view.sort == ADDED_DATE_ASC ==> r[i].addedDate <= r[j].addedDate)
        && (view.sort == TITLE_ASC ==> collate(r[i].title, r[j].title) <= 0)
        && (view.sort == TITLE_DESC ==> collate(r[j].title, r[i].title) <= 0)
        && (view.sort == AUTHOR_ASC ==> collate(r[i].author, r[j].author) <= 0)
        && (view.sort == AUTHOR_DESC ==> collate(r[j].author, r[i].author) <= 0)
  {
    DeriveOrdered(books, view, collate);
    var r := Derive(books, view, collate);
    var cmp := Comparator(view.sort, collate);
    forall i, j | 0 <= i < j < |r| && (r[i].status == READ) == (r[j].status == READ)
      ensures KeysInOrder(view.sort, collate, r[i], r[j])
    {
      assert cmp(r[i], r[j]) <= 0;
    }
  }

  /** What "`a` may precede `b`" means for each order. */
  predicate KeysInOrder(order: SortOrder, collate: Collation, a: Book, b: Book) {
    && (order == ADDED_DATE_DESC ==> a.addedDate >= b.addedDate)
    && (order == ADDED_DATE_ASC ==> a.addedDate <= b.addedDate)
    && (order == TITLE_ASC ==> collate(a.title, b.title) <= 0)
    && (order == TITLE_DESC ==> collate(b.title, a.title) <= 0)
    && (order == AUTHOR_ASC ==> collate(a.author, b.author) <= 0)
    && (order == AUTHOR_DESC ==> collate(b.author, a.author) <= 0)
  }

  /** Stability: inside each half, books the comparator ranks equal appear in the order
      they had in the stored list. */
  lemma DeriveStable(books: seq<Book>, view: ViewState, collate: Collation)
    requires TotalPreorder(collate)
    ensures var r := Derive(books, view, collate);
      var shown := Filtered(books, view.filter);
      var cmp := Comparator(view.sort, collate);
      && SameClasses(Filter(r, NotRead()), Filter(shown, NotRead()), cmp)
      && SameClasses(Filter(r, Not(NotRead())), Filter(shown, Not(NotRead())), cmp)
  {
    var active, completed := DeriveShape(books, view, collate);
    FilterConcat(active, completed, NotRead());
    FilterKeepsAll(active, NotRead());
    FilterDropsAll(completed, NotRead());
    FilterConcat(active, completed, Not(NotRead()));
    FilterDropsAll(active, Not(NotRead()));
    FilterKeepsAll(completed, Not(NotRead()));
    var r := Derive(books, view, collate);
    assert Filter(r, NotRead()) == active + [] == active;
    assert Filter(r, Not(NotRead())) == [] + completed == completed;
  }
}
