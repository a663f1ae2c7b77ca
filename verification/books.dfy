/** The book record: its fields and defaults, its content equality and its hash code. */
module Books {
  import opened Options
  import opened Status

  /** JVM `Int`, `Long` and `Byte` (signed two's-complement ranges). */
  const IntRange: int := 0x1_0000_0000
  type Int = x: int | -0x8000_0000 <= x < 0x8000_0000
  type Long = x: int | -0x8000_0000_0000_0000 <= x < 0x8000_0000_0000_0000
  type Byte = x: int | -128 <= x < 128

  /** A `ByteArray`, compared by content where the record says so. */
  type Bytes = seq<Byte>

  /** The `books` table row. Timestamps are milliseconds since the epoch. */
  datatype Book = Book(
    id: string,
    title: string,
    author: string,
    coverImage: Option<Bytes>,
    status: BookStatus,
    addedDate: Long,
    readDate: Option<Long>,
    memo: Option<string>)

  /** The record invariant the status policy keeps: a completion date is present
      exactly when the book is read. */
  predicate ReadDateConsistent(b: Book) {
    b.readDate.Some? <==> b.status == READ
  }

  /** The primary constructor called with only `id`, `title`, `author` and `addedDate`:
      every other field takes its declared default. The random UUID and the clock
      reading that supply `id` and `addedDate` by default are parameters here. */
  function WithDefaults(id: string, title: string, author: string, addedDate: Long): (b: Book)
    ensures b.id == id && b.title == title && b.author == author && b.addedDate == addedDate
    ensures b.status == UNREAD
    ensures b.coverImage == None && b.readDate == None && b.memo == None
    ensures ReadDateConsistent(b)
  {
    Book(id, title, author, None, UNREAD, addedDate, None, None)
  }

  // ---------------------------------------------------------------------------
  // equals

  /** `ByteArray.contentEquals`: same length and the same byte at every index. */
  function ContentEquals(a: Bytes, b: Bytes): (r: bool)
    ensures r <==> a == b
  {
    |a| == |b| && forall i :: 0 <= i < |a| ==> a[i] == b[i]
  }

  /** The null-aware cover comparison inside `equals`. */
  function CoverEquals(mine: Option<Bytes>, theirs: Option<Bytes>): (r: bool)
    ensures mine.None? && theirs.None? ==> r
    ensures mine.None? != theirs.None? ==> !r
    ensures mine.Some? && theirs.Some? ==> (r <==> mine.value == theirs.value)
  {
    if mine.Some? then
      if theirs.None? then false
      else ContentEquals(mine.value, theirs.value)
    else theirs.None?
  }

  /** `Book.equals(other: Any?)`. `None` is `null` or an object of another class.
      The reference-identity shortcut `this === other` is subsumed: values have no
      identity here, and the field comparison already holds of identical objects. */
  function Equals(b: Book, other: Option<Book>): (r: bool)
    ensures r <==> other == Some(b)
  {
    if other.None? then false
    else
      var that := other.value;
      if b.id != that.id then false
      else if b.title != that.title then false
      else if b.author != that.author then false
      else if !CoverEquals(b.coverImage, that.coverImage) then false
      else if b.status != that.status then false
      else if b.addedDate != that.addedDate then false
      else if b.readDate != that.readDate then false
      else if b.memo != that.memo then false
      else true
  }

  /** Every record equals itself. */
  lemma EqualsReflexive(b: Book)
    ensures Equals(b, Some(b))
  {
  }

  /** Records with different ids are never equal, whatever their other fields. */
  lemma DistinctIdsNeverEqual(a: Book, b: Book)
    requires a.id != b.id
    ensures !Equals(a, Some(b)) && !Equals(b, Some(a))
  {
  }

  // ---------------------------------------------------------------------------
  // hashCode

  /** Reduction of an integer into the JVM `Int` range, as 32-bit overflow does: the
      one `Int` that differs from `x` by a multiple of 2^32. */
  function Wrap(x: int): (r: Int)
    ensures Congruent(x, r)
  {
    var m := x % IntRange;
    if m < 0x8000_0000 then m else m - IntRange
  }

  /** An `Int` is its own reduction. */
  lemma WrapInRange(x: int)
    ensures -0x8000_0000 <= x < 0x8000_0000 ==> Wrap(x) == x
  {
  }

  /** No other `Int` agrees with `x` modulo 2^32. */
  lemma WrapUnique(x: int, y: Int)
    requires Congruent(x, y)
    ensures y == Wrap(x)
  {
  }

  /** `x` and `y` agree modulo 2^32, so 32-bit arithmetic cannot tell them apart. */
  predicate Congruent(x: int, y: int) {
    (x - y) % IntRange == 0
  }

  /** `Long.hashCode`: the exclusive-or of the two 32-bit halves of the 64-bit pattern,
      read as a signed `Int`. On the `Int` range it is the value itself when
      non-negative and its bitwise complement (`-1 - v`) when negative. */
  function LongHash(v: Long): (r: Int)
    ensures 0 <= v < 0x8000_0000 ==> r == v
    ensures -0x8000_0000 <= v < 0 ==> r == -1 - v
  {
    var u := v % 0x1_0000_0000_0000_0000;
    var mixed := Xor(u % IntRange, u / IntRange, 32);
    XorOfIntHalves(v);
    WrapInRange(mixed);
    Wrap(mixed)
  }

  /** For a `Long` that holds an `Int`, the high half of the 64-bit pattern is the sign
      extension (all zeros or all ones), so the exclusive-or is the low half itself or
      its complement. */
  lemma XorOfIntHalves(v: Long)
    ensures 0 <= v < 0x8000_0000 ==>
      var u := v % 0x1_0000_0000_0000_0000; Xor(u % IntRange, u / IntRange, 32) == v
    ensures -0x8000_0000 <= v < 0 ==>
      var u := v % 0x1_0000_0000_0000_0000; Xor(u % IntRange, u / IntRange, 32) == -1 - v
  {
    var u := v % 0x1_0000_0000_0000_0000;
    Pow2Of32();
    if 0 <= v < 0x8000_0000 {
      assert u % IntRange == v && u / IntRange == 0;
      XorZero(v, 32);
    } else if -0x8000_0000 <= v < 0 {
      assert u == v + 0x1_0000_0000_0000_0000;
      assert u % IntRange == v + IntRange && u / IntRange == IntRange - 1;
      XorOnes(v + IntRange, 32);
    }
  }

  /** 2 to the power `n`. */
  function Pow2(n: nat): nat {
    if n == 0 then 1 else 2 * Pow2(n - 1)
  }

  /** Powers of two multiply by adding exponents. */
  lemma {:induction false} Pow2Add(m: nat, n: nat)
    ensures Pow2(m + n) == Pow2(m) * Pow2(n)
  {
    if m > 0 {
      Pow2Add(m - 1, n);
    }
  }

  /** A 32-bit number is below `IntRange`. */
  lemma Pow2Of32()
    ensures Pow2(32) == IntRange
  {
    assert Pow2(4) == 16;
    Pow2Add(4, 4);
    Pow2Add(8, 8);
    Pow2Add(16, 16);
  }

  /** Bitwise exclusive-or of the low `width` bits of `a` and `b`. */
  function Xor(a: nat, b: nat, width: nat): nat {
    if width == 0 then 0
    else (if a % 2 == b % 2 then 0 else 1) + 2 * Xor(a / 2, b / 2, width - 1)
  }

  /** Exclusive-or with zero keeps a `width`-bit number. */
  lemma {:induction false} XorZero(a: nat, width: nat)
    requires a < Pow2(width)
    ensures Xor(a, 0, width) == a
  {
    if width > 0 {
      XorZero(a / 2, width - 1);
    }
  }

  /** Exclusive-or with all ones is the bitwise complement, `2^width - 1 - a`. */
  lemma {:induction false} XorOnes(a: nat, width: nat)
    requires a < Pow2(width)
    ensures Xor(a, Pow2(width) - 1, width) == Pow2(width) - 1 - a
  {
    if width > 0 {
      var ones := Pow2(width) - 1;
      assert ones % 2 == 1 && ones / 2 == Pow2(width - 1) - 1;
      XorOnes(a / 2, width - 1);
    }
  }

  /** 31 to the power `n`. */
  function Pow31(n: nat): nat {
    if n == 0 then 1 else 31 * Pow31(n - 1)
  }

  /** The polynomial `s[0] * 31^(n-1) + ... + s[n-1] * 31^0`, summed front to back: the
      value the `31 * h + x` chain computes before 32-bit overflow. */
  function Weighted(s: seq<int>): int {
    if |s| == 0 then 0 else s[0] * Pow31(|s| - 1) + Weighted(s[1..])
  }

  /** Appending a term multiplies the earlier terms by 31. */
  lemma {:induction false} WeightedSnoc(s: seq<int>, x: int)
    ensures Weighted(s + [x]) == 31 * Weighted(s) + x
  {
    if |s| == 0 {
      assert s + [x] == [x];
    } else {
      assert (s + [x])[1..] == s[1..] + [x];
      WeightedSnoc(s[1..], x);
      assert s[0] * Pow31(|s|) == 31 * (s[0] * Pow31(|s| - 1));
    }
  }

  /** Agreement modulo 2^32 survives one `31 * h + x` step. */
  lemma CongruentStep(a: int, b: int, x: int)
    requires Congruent(a, b)
    ensures Congruent(31 * a + x, 31 * b + x)
  {
    var q := (a - b) / IntRange;
    assert (31 * a + x) - (31 * b + x) == (31 * q) * IntRange;
  }

  /** Agreement modulo 2^32 is transitive. */
  lemma CongruentTrans(a: int, b: int, c: int)
    requires Congruent(a, b) && Congruent(b, c)
    ensures Congruent(a, c)
  {
    var q1, q2 := (a - b) / IntRange, (b - c) / IntRange;
    assert a - c == (q1 + q2) * IntRange;
  }

  /** One `31 * h + x` step with `Int` overflow respects agreement modulo 2^32. */
  lemma MixCongruent(w: int, acc: int, x: int)
    requires Congruent(w, acc)
    ensures Congruent(31 * w + x, Wrap(31 * acc + x))
  {
    CongruentStep(w, acc, x);
    CongruentTrans(31 * w + x, 31 * acc + x, Wrap(31 * acc + x));
  }

  /** A chain step on the reduced value is the reduction of the step on the exact one. */
  lemma MixWrapped(w: int, acc: Int, x: Int)
    requires acc == Wrap(w)
    ensures Mix(acc, x) == Wrap(31 * w + x)
  {
    MixCongruent(w, acc, x);
    WrapUnique(31 * w + x, Mix(acc, x));
  }

  /** The polynomial of one more term, before any reduction. */
  lemma PolyStep(start: int, prior: seq<int>, x: int)
    ensures start * Pow31(|prior| + 1) + Weighted(prior + [x])
         == 31 * (start * Pow31(|prior|) + Weighted(prior)) + x
  {
    WeightedSnoc(prior, x);
    PowScale(start, |prior|);
  }

  /** `start * 31^(n+1)` is 31 times `start * 31^n`. */
  lemma PowScale(start: int, n: nat)
    ensures start * Pow31(n + 1) == 31 * (start * Pow31(n))
  {
    var p := Pow31(n);
    assert Pow31(n + 1) == 31 * p;
    assert start * (31 * p) == 31 * (start * p);
  }

  /** The polynomial of a non-empty sequence, one term at a time. */
  lemma PolyStepAt(start: int, s: seq<int>)
    requires |s| > 0
    ensures var prior := s[..|s| - 1];
      start * Pow31(|s|) + Weighted(s) == 31 * (start * Pow31(|prior|) + Weighted(prior)) + s[|s| - 1]
  {
    var prior, x := s[..|s| - 1], s[|s| - 1];
    assert s == prior + [x];
    PolyStep(start, prior, x);
  }

  /** One step of the `result = 31 * result + x` chain, with `Int` overflow. */
  function Mix(acc: Int, x: Int): Int {
    Wrap(31 * acc + x)
  }

  /** The chain `result = start; for x in s: result = 31 * result + x` in `Int`
      arithmetic: the polynomial `start * 31^n + Weighted(s)` reduced into `Int`. */
  function Fold31(start: Int, s: seq<Int>): (r: Int)
    ensures r == Wrap(start * Pow31(|s|) + Weighted(s))
    decreases |s|
  {
    if |s| == 0 then start
    else
      var prior := s[..|s| - 1];
      var acc := Fold31(start, prior);
      PolyStepAt(start, s);
      MixWrapped(start * Pow31(|prior|) + Weighted(prior), acc, s[|s| - 1]);
      Mix(acc, s[|s| - 1])
  }

  /** `ByteArray.contentHashCode` (`java.util.Arrays.hashCode(byte[])`): the chain
      started from 1 over the signed bytes, i.e. `31^n + Weighted(a)` reduced into `Int`. */
  function ContentHash(a: Bytes): (r: Int)
    ensures r == Wrap(Pow31(|a|) + Weighted(a))
  {
    Fold31(1, a)
  }

  /** `String.hashCode` and the enum's identity hash code are not modelled: they are
      supplied as functions, so the facts below hold for every choice of them. */
  datatype Hashing = Hashing(text: string -> Int, status: BookStatus -> Int)

  /** The eight field hashes `hashCode` combines, in declaration order, with `0` for a
      null cover, read date or memo. */
  function FieldHashes(b: Book, h: Hashing): seq<Int> {
    [ h.text(b.id),
      h.text(b.title),
      h.text(b.author),
      match b.coverImage case Some(c) => ContentHash(c) case None => 0,
      h.status(b.status),
      LongHash(b.addedDate),
      match b.readDate case Some(d) => LongHash(d) case None => 0,
      match b.memo case Some(m) => h.text(m) case None => 0 ]
  }

  /** `Book.hashCode`: the chain starts from the id's hash and folds in the other seven
      field hashes, so the result is `Weighted` of all eight reduced into `Int`. */
  function HashCode(b: Book, h: Hashing): (r: Int)
    ensures r == Wrap(Weighted(FieldHashes(b, h)))
  {
    var f := FieldHashes(b, h);
    assert Weighted(f) == f[0] * Pow31(7) + Weighted(f[1..]);
    Fold31(f[0], f[1..])
  }

  /** The `equals`/`hashCode` contract: equal records hash alike. */
  lemma EqualRecordsHashAlike(a: Book, b: Book, h: Hashing)
    requires Equals(a, Some(b))
    ensures HashCode(a, h) == HashCode(b, h)
  {
  }
}
