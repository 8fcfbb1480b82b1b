/** Book records, the request payload that creates or replaces them, the
    two payload checks, and lookup by id over the ordered list of records. */
module Books {

  datatype Option<T> = None | Some(value: T)

  /** Ids come from an external generator; timestamps from an external clock. */
  type BookId = string
  type Timestamp = string

  /** One stored record. */
  datatype Book = Book(
    id: BookId,
    name: string,
    year: int,
    author: string,
    summary: string,
    publisher: string,
    pageCount: int,
    readPage: int,
    finished: bool,
    reading: bool,
    insertedAt: Timestamp,
    updatedAt: Timestamp)

  /** The eight user-supplied fields of an add or edit request. */
  datatype Payload = Payload(
    name: Option<string>,
    year: int,
    author: string,
    summary: string,
    publisher: string,
    pageCount: int,
    readPage: int,
    reading: bool)

  /** The `{id, name, publisher}` projection used by the list handler. */
  datatype Summary = Summary(id: BookId, name: string, publisher: string)

  /** What a payload must satisfy to be stored. */
  ghost predicate Acceptable(p: Payload)
  {
    p.readPage <= p.pageCount && p.name.Some? && |p.name.value| > 0
  }

  datatype PayloadError = PageRangeError | MissingName

  /** The two checks shared by add and edit, page range first. */
  function CheckPayload(p: Payload): (r: Option<PayloadError>)
    ensures r.None? <==> Acceptable(p)
    ensures p.readPage > p.pageCount ==> r == Some(PageRangeError)
    ensures r == Some(MissingName) <==> p.readPage <= p.pageCount && !Acceptable(p)
  {
    if p.readPage > p.pageCount then Some(PageRangeError)
    // an absent, null or empty name is falsy: all three are `None` or `Some("")`
    else if p.name.None? || p.name.value == "" then Some(MissingName)
    else None
  }

  /** The user-supplied fields a record carries, as a payload. */
  function PayloadOf(b: Book): Payload
  {
    Payload(Some(b.name), b.year, b.author, b.summary, b.publisher,
            b.pageCount, b.readPage, b.reading)
  }

  /** A record is well formed when its page range is valid, `finished` agrees
      with the page counts and its name is present. */
  ghost predicate WellFormed(b: Book)
  {
    b.readPage <= b.pageCount && b.finished == (b.readPage == b.pageCount) && b.name != ""
  }

  /** The record the add handler builds for an accepted payload. */
  function NewBook(id: BookId, p: Payload, now: Timestamp): (b: Book)
    requires Acceptable(p)
    ensures PayloadOf(b) == p
    ensures b.id == id && b.insertedAt == now && b.updatedAt == now
    ensures b.finished <==> p.pageCount == p.readPage
    ensures WellFormed(b)
  {
    Book(id, p.name.value, p.year, p.author, p.summary, p.publisher,
         p.pageCount, p.readPage, p.pageCount == p.readPage, p.reading, now, now)
  }

  /** The record the edit handler writes over `b` for an accepted payload:
      the spread of `b` with the payload fields, `finished` and `updatedAt`
      replaced. */
  function Edited(b: Book, p: Payload, now: Timestamp): (e: Book)
    requires Acceptable(p)
    ensures PayloadOf(e) == p
    ensures e.id == b.id && e.insertedAt == b.insertedAt && e.updatedAt == now
    ensures e.finished <==> p.pageCount == p.readPage
    ensures WellFormed(e)
  {
    b.(name := p.name.value, year := p.year, author := p.author, summary := p.summary,
       publisher := p.publisher, pageCount := p.pageCount, readPage := p.readPage,
       reading := p.reading, finished := p.pageCount == p.readPage, updatedAt := now)
  }

  ghost predicate HasId(s: seq<Book>, id: BookId)
  {
    exists i :: 0 <= i < |s| && s[i].id == id
  }

  /** `i` is the first position of a record with this id (what `findIndex` finds). */
  ghost predicate IsFirstWithId(s: seq<Book>, id: BookId, i: int)
  {
    0 <= i < |s| && s[i].id == id && forall j :: 0 <= j < i ==> s[j].id != id
  }

  ghost predicate UniqueIds(s: seq<Book>)
  {
    forall i, j :: 0 <= i < j < |s| ==> s[i].id != s[j].id
  }

  /** The store invariant every handler preserves. */
  ghost predicate Invariant(s: seq<Book>)
  {
    (forall i :: 0 <= i < |s| ==> WellFormed(s[i])) && UniqueIds(s)
  }

  /** The records whose id equals `id`, in list order: `books.filter(b => b.id === id)`. */
  function WithId(s: seq<Book>, id: BookId): (r: seq<Book>)
    ensures forall b :: b in r ==> b in s && b.id == id
    ensures |r| > 0 <==> HasId(s, id)
    ensures |r| > 0 ==> exists i :: IsFirstWithId(s, id, i) && r[0] == s[i]
  {
    if s == [] then []
    else if s[0].id == id then
      assert IsFirstWithId(s, id, 0);
      [s[0]] + WithId(s[1..], id)
    else
      var t := WithId(s[1..], id);
      assert HasId(s[1..], id) ==> HasId(s, id) by {
        if HasId(s[1..], id) {
          var k :| 0 <= k < |s[1..]| && s[1..][k].id == id;
          assert s[k + 1].id == id;
        }
      }
      assert HasId(s, id) ==> HasId(s[1..], id) by {
        if HasId(s, id) {
          var k :| 0 <= k < |s| && s[k].id == id;
          assert k != 0 && s[1..][k - 1].id == id;
        }
      }
      assert |t| > 0 ==> exists i :: IsFirstWithId(s, id, i) && t[0] == s[i] by {
        if |t| > 0 {
          var k :| IsFirstWithId(s[1..], id, k) && t[0] == s[1..][k];
          assert IsFirstWithId(s, id, k + 1);
        }
      }
      t
  }
}
