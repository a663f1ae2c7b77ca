# TsumiDoku catalog core in Dafny

TsumiDoku keeps a personal list of books that are owned but not yet read. This
project models the logic behind its book list screen:

- **the catalog query engine**: from the stored books, the selected sort order and the
  optional status filter, it computes the list on screen. Filter by status, split into
  not-yet-read and read books, sort each half stably by added date, title or author
  (ascending or descending), then show the read books last;
- **the status policy**: how saving a book with a new status sets, keeps or clears its
  completion date (`readDate`);
- **the record construction** of `addBook` and `updateBook`: defaults, a blank memo
  stored as null, the old cover kept when no image is picked, and the lookup that drops
  an edit of a book not on screen;
- **the downsampling factor** (`calculateInSampleSize`) chosen before a cover image is
  decoded;
- **the `Book` record**: its defaults, its content-based `equals` and `hashCode`, and the
  `BookStatus` enum stored by name.

Modules, one per concern:

| file | module | models |
|---|---|---|
| options.dfy | Options | Kotlin nullable values |
| status.dfy | Status | `BookStatus` and the Room type converter |
| books.dfy | Books | the `Book` record, `equals`, `hashCode`, JVM integer ranges |
| sorting.dfy | Sorting | `filter`, `partition`, and stable `sortedWith` |
| catalog.dfy | Catalog | `SortOrder`, the comparators, and the body of the `combine` |
| editing.dfy | Editing | the `readDate` rule and the records built by `addBook` / `updateBook` |
| thumbnail.dfy | Thumbnail | `calculateInSampleSize` |
| scenarios.dfy | Scenarios | worked examples of the engine and the edit path together |

Modelling choices:

- The Japanese collator is a parameter `collate: (string, string) -> int`. It is asked to be
  a total preorder: "compares at most" (`<= 0`) is total and transitive
  (`Sorting.TotalPreorder`), as it is for every valid `Comparator`.
- Kotlin's `sortedBy`, `sortedByDescending` and `sortedWith` are stable merge sorts.
  They are modelled by a stable insertion sort, `Sorting.Sort`.
  `Sorting.StableSortIsUnique` shows that every sorted, stable permutation of the input
  equals it, so the two sorts produce the same list.
- The clock (`System.currentTimeMillis`) and the random id (`UUID.randomUUID`) are
  parameters (`now`, `id`). So is the outcome of making a thumbnail from a picked image:
  the `thumbnail` argument of `Editing.AddBook`, and `Editing.ImagePick` in an edit.
- `String.hashCode` and the enum's identity hash are parameters (`Books.Hashing`).
  `Long.hashCode` and `ByteArray.contentHashCode` are written out, with 32-bit `Int`
  overflow (`Books.Wrap`). The `result = 31 * result + x` chain is `Books.Fold31`; its
  contract gives its closed form, the polynomial in 31 reduced into `Int`.
- JVM `Int`, `Long` and `Byte` are subset types of `int` with their signed ranges.
  Kotlin's truncating `/` is `Thumbnail.Quot`.
- `calculateInSampleSize` is private. Its one caller asks for 300 x 450, so `Thumbnail.InSampleSize`
  requires positive request sizes. The image size is any `Int`, including the -1 reported for an unreadable image.
- `isBlank` uses the JVM's `Char.isWhitespace`: `Character.isWhitespace` or
  `Character.isSpaceChar`, taken from a fixed table of code points.

Two behaviours of `updateBook`:

- A picked image whose thumbnail cannot be made gives `null`, and `updateBook` stores that
  `null`. So a failed image on edit clears the existing cover. It does not keep the
  previous one.
- `updateBook` looks the id up in the derived list on screen (`books.value`), not in the
  store. An edit of a book that the current filter hides is dropped
  (`Scenarios.UpdateIgnoresHiddenBook`).

## Model

| member | source | states |
|---|---|---|
| Status.Name | app/src/main/java/com/takanakonbu/tsumidoku/data/Converters.kt:13-15 | each status is stored as its own enum name: UNREAD as "UNREAD", READ as "READ", and READING as the remaining name "READING" |
| Status.ValueOf | app/src/main/java/com/takanakonbu/tsumidoku/data/Converters.kt:21-23 | reading a string gives a status exactly when the string is one of the three names (any other string is the `valueOf` exception), and that status's name is the string |
| Status.RoundTrip | app/src/main/java/com/takanakonbu/tsumidoku/data/Converters.kt:13-23 | storing a status and reading it back gives the same status |
| Status.NameInjective | app/src/main/java/com/takanakonbu/tsumidoku/data/Converters.kt:13-15 | distinct statuses are stored as distinct strings |
| Books.WithDefaults | app/src/main/java/com/takanakonbu/tsumidoku/data/Book.kt:14-45 | a record built from id, title, author and added date is UNREAD, with no cover, read date or memo, and satisfies the read-date invariant |
| Books.ContentEquals | app/src/main/java/com/takanakonbu/tsumidoku/data/Book.kt:63 | `contentEquals` holds exactly when the two byte arrays have the same contents |
| Books.CoverEquals | app/src/main/java/com/takanakonbu/tsumidoku/data/Book.kt:61-64 | two null covers are equal, a null and a non-null cover are not, and two present covers are equal exactly when their bytes are |
| Books.Equals | app/src/main/java/com/takanakonbu/tsumidoku/data/Book.kt:52-71 | `equals` holds exactly when the other object is a Book with all eight fields equal (covers compared by content) |
| Books.EqualsReflexive | app/src/main/java/com/takanakonbu/tsumidoku/data/Book.kt:53 | every record equals itself |
| Books.DistinctIdsNeverEqual | app/src/main/java/com/takanakonbu/tsumidoku/data/Book.kt:58 | records with different ids are never equal, in either direction |
| Books.LongHash | app/src/main/java/com/takanakonbu/tsumidoku/data/Book.kt:79 | `Long.hashCode` of a value in the `Int` range is the value itself when non-negative and its bitwise complement `-1 - v` when negative; other values are stated only through the definition (exclusive-or of the two 32-bit halves) |
| Books.ContentHash | app/src/main/java/com/takanakonbu/tsumidoku/data/Book.kt:77 | `contentHashCode` of `n` bytes is `31^n + a[0]*31^(n-1) + ... + a[n-1]` reduced into `Int` |
| Books.Fold31 | app/src/main/java/com/takanakonbu/tsumidoku/data/Book.kt:74-81 | the `result = 31 * result + x` chain with `Int` overflow equals the exact polynomial `start*31^n + x0*31^(n-1) + ... + x(n-1)` reduced into `Int` once at the end |
| Books.HashCode | app/src/main/java/com/takanakonbu/tsumidoku/data/Book.kt:73-83 | `hashCode` is the eight field hashes (0 for a null field), weighted by powers of 31 in declaration order and reduced into `Int`; `String.hashCode` and the enum hash are parameters, so nothing more is stated about those field hashes |
| Books.EqualRecordsHashAlike | app/src/main/java/com/takanakonbu/tsumidoku/data/Book.kt:73-83 | equal records have equal `hashCode`, for every choice of string and enum hash |
| Sorting.Filter | app/src/main/java/com/takanakonbu/tsumidoku/ui/list/BookListViewModel.kt:57-61 | every kept element satisfies the predicate, and no more elements come out than went in |
| Sorting.FilterMembers | app/src/main/java/com/takanakonbu/tsumidoku/ui/list/BookListViewModel.kt:60 | an element is kept exactly when it occurs in the input and satisfies the predicate |
| Sorting.Partition | app/src/main/java/com/takanakonbu/tsumidoku/ui/list/BookListViewModel.kt:68 | the two parts together are a permutation of the input; the first part holds only matching elements and the second only non-matching ones |
| Sorting.Sort | app/src/main/java/com/takanakonbu/tsumidoku/ui/list/BookListViewModel.kt:71-80 | the sorted list is a permutation of the input, ordered by the comparator, and keeps every group of tied elements in input order |
| Sorting.StableSortIsUnique | app/src/main/java/com/takanakonbu/tsumidoku/ui/list/BookListViewModel.kt:73-78 | any sorted permutation that keeps ties in input order is the modelled sort's output, so every stable sort gives the same list |
| Catalog.CompareLong | app/src/main/java/com/takanakonbu/tsumidoku/ui/list/BookListViewModel.kt:73-74 | the added-date comparison is negative, zero or positive as the first date is earlier, equal or later |
| Catalog.ComparatorIsTotalPreorder | app/src/main/java/com/takanakonbu/tsumidoku/ui/list/BookListViewModel.kt:71-80 | each of the six orders gives a valid comparator when the collator is one |
| Catalog.Comparator | app/src/main/java/com/takanakonbu/tsumidoku/ui/list/BookListViewModel.kt:71-80 | each order lets `a` precede `b` (`<= 0`) exactly when its key is in order: added date non-increasing for ADDED_DATE_DESC and non-decreasing for ADDED_DATE_ASC, the collator for TITLE and AUTHOR with the arguments swapped for the descending orders |
| Catalog.Filtered | app/src/main/java/com/takanakonbu/tsumidoku/ui/list/BookListViewModel.kt:57-61 | with no filter the list is unchanged; otherwise a book is kept exactly when it is stored and has the filter's status, and the result is no longer than the stored list |
| Catalog.Derive | app/src/main/java/com/takanakonbu/tsumidoku/ui/list/BookListViewModel.kt:54-88 | the list on screen is a permutation of the filtered books, every shown book passes the filter, and no read book is followed by an unread or reading one |
| Catalog.DeriveMembers | app/src/main/java/com/takanakonbu/tsumidoku/ui/list/BookListViewModel.kt:57-61 | a book is shown exactly when it is stored and passes the filter; with no filter the shown list is a permutation of the stored list |
| Catalog.DeriveShape | app/src/main/java/com/takanakonbu/tsumidoku/ui/list/BookListViewModel.kt:68-87 | the shown list is a sorted, stable arrangement of the non-read books followed by one of the read books |
| Catalog.DeriveOrdered | app/src/main/java/com/takanakonbu/tsumidoku/ui/list/BookListViewModel.kt:71-84 | any two books in the same half are in comparator order |
| Catalog.DeriveKeyOrder | app/src/main/java/com/takanakonbu/tsumidoku/ui/list/BookListViewModel.kt:71-80 | in each half: ADDED_DATE_DESC gives non-increasing and ADDED_DATE_ASC non-decreasing added dates; TITLE and AUTHOR orders follow the collator, ascending or descending |
| Catalog.DeriveStable | app/src/main/java/com/takanakonbu/tsumidoku/ui/list/BookListViewModel.kt:73-84 | in each half, books ranked equal by the comparator appear in the order they have in the store |
| Editing.StoredMemo | app/src/main/java/com/takanakonbu/tsumidoku/ui/list/BookListViewModel.kt:162 | a blank memo (empty or whitespace only) is stored as null, and any other memo is stored as typed |
| Editing.MemoText | app/src/main/java/com/takanakonbu/tsumidoku/ui/edit/EditBookDialog.kt:54 | the edit form shows the stored memo, or the empty string for none; saving that text unchanged stores the same memo |
| Editing.MemoRoundTrip | app/src/main/java/com/takanakonbu/tsumidoku/ui/edit/EditBookDialog.kt:54 | opening a record in the edit form (`memo ?: ""`) and saving the memo unchanged stores the same memo again |
| Editing.NextReadDate | app/src/main/java/com/takanakonbu/tsumidoku/ui/list/BookListViewModel.kt:150-156 | entering READ stamps `now`; any non-READ status clears the date; READ to READ keeps it; and a date present exactly when READ stays so |
| Editing.AddBook | app/src/main/java/com/takanakonbu/tsumidoku/ui/list/BookListViewModel.kt:117-122 | an added book has the given id, title, author, cover and added date, is UNREAD with no read date, stores its memo as `StoredMemo` does (null when blank, as typed otherwise), and satisfies the read-date invariant |
| Editing.Rebuild | app/src/main/java/com/takanakonbu/tsumidoku/ui/list/BookListViewModel.kt:142-167 | the rebuilt record keeps id and added date, takes the form's title, author and status, keeps the old cover when no image was picked and takes the thumbnail outcome (null on failure) when one was, stores the memo as `StoredMemo` does, sets the read date by `NextReadDate` from the old status and date, and keeps the read-date invariant |
| Editing.Find | app/src/main/java/com/takanakonbu/tsumidoku/ui/list/BookListViewModel.kt:136 | the lookup fails exactly when no listed book has the id; otherwise it gives the first listed book with that id |
| Editing.UpdateBook | app/src/main/java/com/takanakonbu/tsumidoku/ui/list/BookListViewModel.kt:136-168 | nothing is written exactly when the id is not in the shown list; otherwise the written record has that id, the edited title, author and status, the memo as `StoredMemo` stores it, the thumbnail outcome as cover when an image was picked, and, from the first listed book with that id, its added date, its cover when no image was picked and the read date `NextReadDate` computes from its status and date; the read-date invariant is kept |
| Editing.History | app/src/main/java/com/takanakonbu/tsumidoku/ui/list/BookListViewModel.kt:158-167 | saving any sequence of edits never changes a record's id or added date |
| Editing.ReadDateTracksLastCompletion | app/src/main/java/com/takanakonbu/tsumidoku/ui/list/BookListViewModel.kt:150-156 | from an unread record, after any sequence of edits the read date is present exactly when the status is READ, and it is then the time of the most recent transition into READ |
| Editing.AddedBookStaysConsistent | app/src/main/java/com/takanakonbu/tsumidoku/ui/list/BookListViewModel.kt:117-122 | an added book satisfies "read date present iff READ" after every sequence of edits |
| Thumbnail.InSampleSize | app/src/main/java/com/takanakonbu/tsumidoku/ui/list/BookListViewModel.kt:203-214 | the factor is a power of two; it is 1 when the image is no larger than the request; on return the halved size divided by the factor falls short of the request in some dimension; and when the factor exceeds 1, both halved dimensions divided by half the factor still reach the request |
| Thumbnail.Doubling | app/src/main/java/com/takanakonbu/tsumidoku/ui/list/BookListViewModel.kt:209-210 | while the loop runs, doubling the factor gives the next power of two and cannot overflow `Int` |
| Thumbnail.SampleSizeIsLargestFit | app/src/main/java/com/takanakonbu/tsumidoku/ui/list/BookListViewModel.kt:203-214 | the factor is the largest power of two at which the image divided by the factor still covers the request: it does at the factor (when above 1), and at no larger power of two |
| Scenarios.NewestFirst | app/src/main/java/com/takanakonbu/tsumidoku/ui/list/BookListViewModel.kt:73 | three unread books added at times 1, 2, 3 are shown in the order 3, 2, 1 by default |
| Scenarios.ReadBookSinks | app/src/main/java/com/takanakonbu/tsumidoku/ui/list/BookListViewModel.kt:150-167 | marking the middle book read at time t stamps t and moves it below the other two: 3, 1, 2 |
| Scenarios.ReadSinksBelow | app/src/main/java/com/takanakonbu/tsumidoku/ui/list/BookListViewModel.kt:68-87 | a read book is shown below unread ones whatever its added date |
| Scenarios.UnreadClearsDate | app/src/main/java/com/takanakonbu/tsumidoku/ui/list/BookListViewModel.kt:152-153 | saving a listed book as UNREAD clears its read date |
| Scenarios.EmptyFilterResult | app/src/main/java/com/takanakonbu/tsumidoku/ui/list/BookListViewModel.kt:57-61 | filtering on READING when no book is being read shows an empty list |
| Scenarios.UpdateIgnoresHiddenBook | app/src/main/java/com/takanakonbu/tsumidoku/ui/list/BookListViewModel.kt:136-140 | a stored book hidden by the filter is not updated by an edit |

## Left out

- `createThumbnailByteArray` (bitmap decoding, JPEG compression, content-resolver streams) is platform I/O. Its result is a parameter: the `thumbnail` argument of `Editing.AddBook`, and the `NewImage(thumbnail)` case of `Editing.ImagePick` in an edit. This covers `null` on an exception and an empty array when decoding gives no bitmap.
- `StateFlow`, `combine`, `stateIn` and the coroutine launches are reactive plumbing. The engine is a pure function of one snapshot. `changeSortOrder` and `changeFilterStatus` only assign the two inputs in `ViewState`. The `emptyList()` that `books` holds before its first computation is covered because `UpdateBook` takes any shown list, the empty one included.
- `deleteBook` only hands the record to the store. The store (Room DAO and repository), the dependency-injection wiring, the Compose screens, dialogs and ads are not part of this model.
- The Japanese `Collator` is not implemented. It is an abstract comparison assumed to be a total preorder.
- The blank-title and blank-author checks live in the dialogs, not in the view model. So `AddBook` and `UpdateBook` accept any strings, as the view model does.
- The `println` warning in `updateBook` is output only and is not modelled.
- Books.Equals: the reference-identity shortcut `this === other` is not modelled separately. Values here have no identity, and the field comparison already holds for an object compared with itself.
- Books.HashCode: `String.hashCode` and the enum's identity hash code are parameters, not the JVM's functions. The `hashCode` contract and its closed form hold for every choice of them.
- Books.LongHash: its contract states the value only for arguments in the `Int` range, which is about 24.8 days either side of the epoch. No real timestamp (`System.currentTimeMillis()`, about 1.7e12 today) falls in it. So the closed form is only a spot check; for the added and read dates the definition (exclusive-or of the two 32-bit halves) carries the meaning.
- Sorting.StableSortIsUnique: the collator is required to be a total preorder, not also sign-antisymmetric (`cmp(a, b) < 0` exactly when `cmp(b, a) > 0`). Java's `Comparator` contract asks for that too, and the sort used on the JVM places ties as modelled only for comparators that honour it.
- Editing.IsWhitespace: fixes the whitespace table at the current Unicode data (U+180E is not whitespace). The JVM's answer depends on the Unicode version it ships.
- Kotlin strings are UTF-16, while Dafny strings here are sequences of Unicode scalar values. Nothing modelled depends on the difference: none of the whitespace characters is outside the Basic Multilingual Plane.
