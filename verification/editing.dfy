/** Building the records that `addBook` inserts and `updateBook` writes back,
    including the rule that keeps `readDate` in step with `status`. */
module Editing {
  import opened Options
  import opened Status
  import opened Books

  // ---------------------------------------------------------------------------
  // Memo

  /** Kotlin's `Char.isWhitespace()` on the JVM: `Character.isWhitespace` or
      `Character.isSpaceChar`, i.e. the ASCII controls TAB to CR and FS to US, and the
      space, line and paragraph separators (no-break spaces included). */
  predicate IsWhitespace(c: char) {
    var n := c as int;
    || 0x09 <= n <= 0x0D
    || 0x1C <= n <= 0x20
    || n == 0xA0
    || n == 0x1680
    || 0x2000 <= n <= 0x200A
    || n == 0x2028 || n == 0x2029 || n == 0x202F || n == 0x205F
    || n == 0x3000
  }

  /** `isBlank()`: empty or whitespace only. */
  predicate IsBlank(s: string) {
    forall i :: 0 <= i < |s| ==> IsWhitespace(s[i])
  }

  /** `memo.ifBlank { null }`: a blank memo is stored as null, any other memo as typed. */
  function StoredMemo(memo: string): (r: Option<string>)
    ensures r.None? <==> IsBlank(memo)
    ensures r.Some? ==> r.value == memo && !IsBlank(r.value)
  {
    if IsBlank(memo) then None else Some(memo)
  }

  /** The edit form starts from `book.memo ?: ""`: the stored memo, or an empty field.
      Saving that text unchanged stores the same memo again. */
  function MemoText(stored: Option<string>): (r: string)
    ensures stored.Some? ==> r == stored.value
    ensures stored.None? ==> r == ""
    ensures (stored.None? || !IsBlank(stored.value)) ==> StoredMemo(r) == stored
  {
    stored.GetOr("")
  }

  /** Opening a record in the edit form and saving the memo unchanged stores the same
      memo again. */
  lemma MemoRoundTrip(memo: string)
    ensures StoredMemo(MemoText(StoredMemo(memo))) == StoredMemo(memo)
  {
  }

  // ---------------------------------------------------------------------------
  // Completion date

  /** The completion date after a status change, given the current clock reading:
      entering READ stamps `now`, leaving or staying outside READ clears the date,
      and staying READ keeps the date it had. */
  function NextReadDate(prevStatus: BookStatus, prevReadDate: Option<Long>, newStatus: BookStatus, now: Long)
    : (r: Option<Long>)
    ensures prevStatus != READ && newStatus == READ ==> r == Some(now)
    ensures newStatus != READ ==> r == None
    ensures prevStatus == READ && newStatus == READ ==> r == prevReadDate
    ensures (prevReadDate.Some? <==> prevStatus == READ) ==> (r.Some? <==> newStatus == READ)
  {
    if prevStatus != READ && newStatus == READ then Some(now)
    else if newStatus != READ then None
    else prevReadDate
  }

  // ---------------------------------------------------------------------------
  // addBook and updateBook

  /** What the edit form hands over for the cover: no new image (`newImageUri == null`),
      or the outcome of making a thumbnail of the picked image, which is `None` when
      the image could not be read or decoded. */
  datatype ImagePick = NoNewImage | NewImage(thumbnail: Option<Bytes>)

  /** One save of the edit form, with the clock reading taken while saving. */
  datatype Edit = Edit(title: string, author: string, memo: string, status: BookStatus, image: ImagePick, now: Long)

  /** The record `addBook` inserts: the given fields, a blank memo as null, and every
      other field at its default. `id` and `now` stand for the random UUID and the
      clock reading. */
  function AddBook(id: string, now: Long, title: string, author: string, memo: string, thumbnail: Option<Bytes>)
    : (b: Book)
    ensures b.id == id && b.addedDate == now
    ensures b.title == title && b.author == author && b.coverImage == thumbnail
    ensures b.status == UNREAD && b.readDate == None
    ensures b.memo == StoredMemo(memo)
    ensures ReadDateConsistent(b)
  {
    WithDefaults(id, title, author, now).(memo := StoredMemo(memo), coverImage := thumbnail)
  }

  /** The record `updateBook` writes once it has found the current one. */
  function Rebuild(current: Book, e: Edit): (b: Book)
    ensures b.id == current.id && b.addedDate == current.addedDate
    ensures b.title == e.title && b.author == e.author && b.status == e.status
    ensures e.image == NoNewImage ==> b.coverImage == current.coverImage
    ensures e.image.NewImage? ==> b.coverImage == e.image.thumbnail
    ensures b.memo == StoredMemo(e.memo)
    ensures b.readDate == NextReadDate(current.status, current.readDate, e.status, e.now)
    ensures ReadDateConsistent(current) ==> ReadDateConsistent(b)
  {
    var cover := match e.image
      case NoNewImage => current.coverImage
      case NewImage(thumbnail) => thumbnail;
    Book(
      id := current.id,
      title := e.title,
      author := e.author,
      memo := StoredMemo(e.memo),
      status := e.status,
      coverImage := cover,
      addedDate := current.addedDate,
      readDate := NextReadDate(current.status, current.readDate, e.status, e.now))
  }

  /** `find { it.id == id }`: the first listed book with that id. */
  function Find(shown: seq<Book>, id: string): (r: Option<Book>)
    ensures r.None? <==> forall i :: 0 <= i < |shown| ==> shown[i].id != id
    ensures r.Some? ==> exists i :: 0 <= i < |shown| && shown[i] == r.value && r.value.id == id
                                    && forall j :: 0 <= j < i ==> shown[j].id != id
  {
    if |shown| == 0 then None
    else if shown[0].id == id then Some(shown[0])
    else
      var r := Find(shown[1..], id);
      assert r.Some? ==> exists i :: 0 <= i < |shown| && shown[i] == r.value && r.value.id == id
                                    && forall j :: 0 <= j < i ==> shown[j].id != id by {
        if r.Some? {
          var i :| 0 <= i < |shown[1..]| && shown[1..][i] == r.value && r.value.id == id
                   && forall j :: 0 <= j < i ==> shown[1..][j].id != id;
          assert shown[i + 1] == r.value;
          assert forall j :: 0 <= j < i + 1 ==> shown[j].id != id by {
            forall j | 0 <= j < i + 1
              ensures shown[j].id != id
            {
              if j > 0 {
                assert shown[j] == shown[1..][j - 1];
              }
            }
          }
        }
      }
      r
  }

  /** `updateBook`: the record to write, or `None` when the id is not in the list the
      screen currently shows (the derived list, not the store), in which case nothing
      is written. */
  function UpdateBook(shown: seq<Book>, id: string, e: Edit): (r: Option<Book>)
    ensures r.None? <==> forall i :: 0 <= i < |shown| ==> shown[i].id != id
    ensures r.Some? ==> r.value.id == id && r.value.title == e.title
                        && r.value.author == e.author && r.value.status == e.status
                        && r.value.memo == StoredMemo(e.memo)
    ensures r.Some? && e.image.NewImage? ==> r.value.coverImage == e.image.thumbnail
    ensures r.Some? ==> exists i :: 0 <= i < |shown| && shown[i].id == id
                                    && r.value.addedDate == shown[i].addedDate
                                    && (e.image == NoNewImage ==> r.value.coverImage == shown[i].coverImage)
                                    && r.value.readDate == NextReadDate(shown[i].status, shown[i].readDate, e.status, e.now)
                                    && (forall j :: 0 <= j < i ==> shown[j].id != id)
    ensures r.Some? && (forall i :: 0 <= i < |shown| ==> ReadDateConsistent(shown[i]))
            ==> ReadDateConsistent(r.value)
  {
    match Find(shown, id)
    case None => None
    case Some(current) => Some(Rebuild(current, e))
  }

  // ---------------------------------------------------------------------------
  // The completion date over a record's life

  /** The record after saving each edit in turn. */
  function History(b: Book, edits: seq<Edit>): (r: Book)
    ensures r.id == b.id && r.addedDate == b.addedDate
  {
    if |edits| == 0 then b
    else Rebuild(History(b, edits[..|edits| - 1]), edits[|edits| - 1])
  }

  /** The status after the edits, starting from `start`. */
  function StatusAfter(start: BookStatus, edits: seq<Edit>): BookStatus {
    if |edits| == 0 then start else edits[|edits| - 1].status
  }

  /** The clock reading of the most recent edit that moved the book into READ from
      another status, if there was one. */
  function LastCompletion(start: BookStatus, edits: seq<Edit>): Option<Long> {
    if |edits| == 0 then None
    else
      var prior := edits[..|edits| - 1];
      var e := edits[|edits| - 1];
      if StatusAfter(start, prior) != READ && e.status == READ then Some(e.now)
      else LastCompletion(start, prior)
  }

  /** From a record that is not read (as every added record is), the completion date
      after any sequence of edits is present exactly when the record is read, and is
      then the time of the most recent transition into READ. */
  lemma {:induction false} ReadDateTracksLastCompletion(b: Book, edits: seq<Edit>)
    requires b.status != READ && b.readDate == None
    ensures var h := History(b, edits);
      && h.status == StatusAfter(b.status, edits)
      && h.readDate == (if h.status == READ then LastCompletion(b.status, edits) else None)
      && ReadDateConsistent(h)
  {
    if |edits| > 0 {
      var prior := edits[..|edits| - 1];
      ReadDateTracksLastCompletion(b, prior);
    }
  }

  /** The record invariant holds after every sequence of edits of an added book. */
  lemma AddedBookStaysConsistent(id: string, now: Long, title: string, author: string, memo: string,
                                 thumbnail: Option<Bytes>, edits: seq<Edit>)
    ensures ReadDateConsistent(History(AddBook(id, now, title, author, memo, thumbnail), edits))
  {
    ReadDateTracksLastCompletion(AddBook(id, now, title, author, memo, thumbnail), edits);
  }
}
