/** The reading status enum and its name-based string converter (the Room type converter). */
module Status {
  import opened Options

  /** The three reading states, in declaration order. */
  datatype BookStatus = UNREAD | READING | READ

  /** The three enum names, the only strings the converter accepts. */
  const Names: set<string> := {"UNREAD", "READING", "READ"}

  /** `fromBookStatus`: the status is stored as its enum name. */
  function Name(s: BookStatus): (r: string)
    ensures r in Names
    ensures r == "UNREAD" <==> s == UNREAD
    ensures r == "READ" <==> s == READ
  {
    match s
    case UNREAD => "UNREAD"
    case READING => "READING"
    case READ => "READ"
  }

  /** `toBookStatus`: `BookStatus.valueOf`, which throws for any string that is not
      exactly one of the enum names; the exception is `None` here. */
  function ValueOf(text: string): (r: Option<BookStatus>)
    ensures r.Some? <==> text in Names
    ensures r.Some? ==> Name(r.value) == text
  {
    if text == "UNREAD" then Some(UNREAD)
    else if text == "READING" then Some(READING)
    else if text == "READ" then Some(READ)
    else None
  }

  /** Storing a status and reading it back gives the same status. */
  lemma RoundTrip(s: BookStatus)
    ensures ValueOf(Name(s)) == Some(s)
  {
  }

  /** Distinct statuses are stored as distinct strings. */
  lemma NameInjective(s: BookStatus, t: BookStatus)
    ensures Name(s) == Name(t) ==> s == t
  {
  }
}
