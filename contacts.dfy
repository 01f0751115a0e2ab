/** The two pieces of logic in the contact store that are not SQL: the
    page window of the listing queries and the mapping of a failed insert
    or update to the application error. */
module Contacts {
  import opened Model

  const PageSize: int := 10

  const TwoTo63: int := 0x8000_0000_0000_0000
  const TwoTo64: int := 0x1_0000_0000_0000_0000

  /** `x` reduced to a signed 64-bit value, as a two's-complement wrap. */
  function WrapI64(x: int): (r: int)
    ensures -TwoTo63 <= r < TwoTo63
    ensures -TwoTo63 <= x < TwoTo63 ==> r == x
    ensures (x - r) % TwoTo64 == 0
  {
    (x + TwoTo63) % TwoTo64 - TwoTo63
  }

  /** Congruence modulo 2^64 is kept by subtracting one and by scaling. */
  lemma CongruentSteps(a: int, b: int, k: int)
    requires (a - b) % TwoTo64 == 0
    ensures ((a - 1) - (b - 1)) % TwoTo64 == 0
    ensures (k * a - k * b) % TwoTo64 == 0
  {
    var q := (a - b) / TwoTo64;
    assert a - b == q * TwoTo64;
    assert k * a - k * b == (k * q) * TwoTo64;
  }

  lemma CongruentTrans(a: int, b: int, c: int)
    requires (a - b) % TwoTo64 == 0 && (b - c) % TwoTo64 == 0
    ensures (a - c) % TwoTo64 == 0
  {
    var q, p := (a - b) / TwoTo64, (b - c) / TwoTo64;
    assert a - c == (q + p) * TwoTo64;
  }

  /** The OFFSET of a listing query for `page`, a 64-bit unsigned number:
      `(page as i64 - 1) * pagesize` with wrapping arithmetic. The result is
      the one 64-bit value congruent to `(page - 1) * 10` modulo 2^64. */
  function Offset(page: nat): (r: int)
    requires page < TwoTo64
    ensures -TwoTo63 <= r < TwoTo63
    ensures ((page - 1) * PageSize - r) % TwoTo64 == 0
  {
    var a := WrapI64(page);
    var b := WrapI64(a - 1);
    var c := WrapI64(b * PageSize);
    CongruentSteps(page, a, PageSize);
    CongruentTrans(page - 1, a - 1, b);
    CongruentSteps(page - 1, b, PageSize);
    CongruentTrans((page - 1) * PageSize, b * PageSize, c);
    c
  }

  /** The window a listing query asks the database for. */
  datatype Window = Window(limit: int, offset: int)

  /** The window of the unfiltered listing. */
  function GetPage(page: nat): (w: Window)
    requires page < TwoTo64
    ensures w.limit == PageSize && w.offset == Offset(page)
    ensures page <= MaxPlainPage ==> w.offset == (page - 1) * PageSize
  {
    Window(PageSize, Offset(page))
  }

  /** The window of the listing filtered by a search term; the term only
      changes the WHERE clause. */
  function GetFilteredPage(searchTerm: string, page: nat): (w: Window)
    requires page < TwoTo64
    ensures w == GetPage(page)
  {
    Window(PageSize, Offset(page))
  }

  /** The largest page whose offset does not wrap around. */
  const MaxPlainPage: int := (TwoTo63 - 1) / PageSize + 1

  /** Page `p` starts at row `(p - 1) * 10` for every page that does not
      wrap; in particular page 1 starts at 0 and page 0 is not rejected but
      asks for offset -10. */
  lemma OffsetOfPage(page: nat)
    requires page <= MaxPlainPage
    ensures Offset(page) == (page - 1) * PageSize
    ensures page == 1 ==> Offset(page) == 0
    ensures page == 0 ==> Offset(page) == -10
  {
  }

  /** Consecutive pages are exactly one page apart, so the windows of two
      different pages never overlap. */
  lemma PagesDoNotOverlap(p: nat, q: nat)
    requires p < q <= MaxPlainPage
    ensures Offset(p) + PageSize <= Offset(q)
    ensures q == p + 1 ==> Offset(q) - Offset(p) == PageSize
  {
    OffsetOfPage(p);
    OffsetOfPage(q);
  }

  /** Beyond that, the signed cast and the multiplication wrap around: the
      first page past the last plain one asks for a negative offset. */
  lemma OffsetWraps()
    ensures Offset(MaxPlainPage + 1) < 0
  {
  }

  /** The outcome of an INSERT or UPDATE ... RETURNING id: a unique
      violation reported by the database becomes `DuplicateEmail`, every
      other failure is passed on as a database error, and success returns
      the id. */
  function MapWriteResult(q: Result<ContactId, SqlError>): (r: Result<ContactId, Error>)
    ensures q.Ok? <==> r.Ok?
    ensures q.Ok? ==> r.value == q.value
    ensures r == Err(DuplicateEmail) <==> q.Err? && q.error.DatabaseError? && q.error.uniqueViolation
    ensures r.Err? && r.error != DuplicateEmail ==> q.Err? && r.error == Database(q.error)
  {
    match q
    case Ok(id) => Ok(id)
    case Err(e) =>
      if e.DatabaseError? && e.uniqueViolation then Err(DuplicateEmail) else Err(Database(e))
  }
}
