/** The two read-only handlers: listing with optional filters, and fetching
    one record by id. Both are functions of the current list of records. */
module Queries {
  import opened Books
  import opened Text
  import opened Responses

  /** The optional query filters of a list request. `reading` and `finished`
      are the numbers 0 or 1 (or any other number, which matches nothing). */
  datatype Query = Query(name: Option<string>, reading: Option<int>, finished: Option<int>)

  const NoFilter := Query(None, None, None)

  /** `Number(flag)`: true is 1, false is 0. */
  function Flag(b: bool): (n: int)
    ensures n == 1 <==> b
    ensures n == 0 <==> !b
  {
    if b then 1 else 0
  }

  /** The filter callback: only the first supplied filter, in the order
      name, reading, finished, is consulted. With none supplied the callback
      returns `[]`, which JavaScript treats as true, so every record is kept. */
  predicate Keep(q: Query, b: Book)
    ensures q == NoFilter ==> Keep(q, b)
    ensures q.name.Some? ==> (Keep(q, b) <==> Occurs(Lower(q.name.value), Lower(b.name)))
    ensures q.name.None? && q.reading.Some? ==>
      (Keep(q, b) <==> (q.reading.value == 1 && b.reading) || (q.reading.value == 0 && !b.reading))
    ensures q.name.None? && q.reading.None? && q.finished.Some? ==>
      (Keep(q, b) <==> (q.finished.value == 1 && b.finished) || (q.finished.value == 0 && !b.finished))
  {
    if q.name.Some? then Includes(Lower(b.name), Lower(q.name.value))
    else if q.reading.Some? then Flag(b.reading) == q.reading.value
    else if q.finished.Some? then Flag(b.finished) == q.finished.value
    else true
  }

  /** `books.filter(callback)`. */
  function FilterBooks(s: seq<Book>, q: Query): (r: seq<Book>)
    ensures |r| <= |s|
    ensures forall b :: b in r <==> b in s && Keep(q, b)
  {
    if s == [] then []
    else
      var t := FilterBooks(s[1..], q);
      assert forall b :: b in s <==> b == s[0] || b in s[1..];
      if Keep(q, s[0]) then [s[0]] + t else t
  }

  /** Filtering keeps list order: it distributes over concatenation. */
  lemma {:induction false} FilterAppend(s: seq<Book>, t: seq<Book>, q: Query)
    ensures FilterBooks(s + t, q) == FilterBooks(s, q) + FilterBooks(t, q)
  {
    if s != [] {
      assert (s + t)[1..] == s[1..] + t;
      FilterAppend(s[1..], t, q);
    } else {
      assert s + t == t;
    }
  }

  /** `books.map(book => ({id, name, publisher}))`. */
  function Summaries(s: seq<Book>): (r: seq<Summary>)
    ensures |r| == |s|
    ensures forall i :: 0 <= i < |s| ==> r[i] == Summary(s[i].id, s[i].name, s[i].publisher)
  {
    if s == [] then [] else [Summary(s[0].id, s[0].name, s[0].publisher)] + Summaries(s[1..])
  }

  /** The list handler: the summaries of the filtered records, or of the
      whole list when the filter kept nothing. */
  function GetAllBooks(s: seq<Book>, q: Query): (r: Response)
    ensures r.status == Success && r.code == 200 && r.message.None? && r.data.BookList?
    ensures |r.data.summaries| == 0 <==> |s| == 0
    ensures (exists b :: b in s && Keep(q, b)) ==> r.data.summaries == Summaries(FilterBooks(s, q))
    ensures (forall b :: b in s ==> !Keep(q, b)) ==> r.data.summaries == Summaries(s)
  {
    var matched := FilterBooks(s, q);
    if |matched| != 0 then
      assert matched[0] in matched;
      Response(Success, 200, None, BookList(Summaries(matched)))
    else
      Response(Success, 200, None, BookList(Summaries(s)))
  }

  /** With no filter supplied every record is listed. */
  lemma {:induction false} NoFilterKeepsAll(s: seq<Book>)
    ensures FilterBooks(s, NoFilter) == s
  {
    if s != [] {
      NoFilterKeepsAll(s[1..]);
    }
  }

  lemma NoFilterListsAll(s: seq<Book>)
    ensures GetAllBooks(s, NoFilter).data == BookList(Summaries(s))
  {
    NoFilterKeepsAll(s);
  }

  /** Two queries whose callbacks agree on every record filter alike. */
  lemma {:induction false} SameKeepSameFilter(s: seq<Book>, q: Query, q': Query)
    requires forall b :: Keep(q, b) == Keep(q', b)
    ensures FilterBooks(s, q) == FilterBooks(s, q')
  {
    if s != [] {
      SameKeepSameFilter(s[1..], q, q');
    }
  }

  /** A name filter hides the reading and finished filters. */
  lemma NameFilterWins(s: seq<Book>, q: Query)
    requires q.name.Some?
    ensures GetAllBooks(s, q) == GetAllBooks(s, Query(q.name, None, None))
  {
    SameKeepSameFilter(s, q, Query(q.name, None, None));
  }

  /** Without a name filter, a reading filter hides the finished filter. */
  lemma ReadingFilterWins(s: seq<Book>, q: Query)
    requires q.name.None? && q.reading.Some?
    ensures GetAllBooks(s, q) == GetAllBooks(s, Query(None, q.reading, None))
  {
    SameKeepSameFilter(s, q, Query(None, q.reading, None));
  }

  /** Filtering "hobbit" lists a book named "The Hobbit". */
  lemma HobbitIsListed(s: seq<Book>, b: Book)
    requires b in s && b.name == "The Hobbit"
    ensures Summary(b.id, b.name, b.publisher) in GetAllBooks(s, Query(Some("hobbit"), None, None)).data.summaries
  {
    var q := Query(Some("hobbit"), None, None);
    assert Lower("hobbit") == "hobbit";
    assert Lower(b.name) == "the hobbit";
    assert "the hobbit"[4..10] == "hobbit";
    assert OccursAt("hobbit", "the hobbit", 4);
    assert Keep(q, b);
    var m := FilterBooks(s, q);
    var i :| 0 <= i < |m| && m[i] == b;
    assert GetAllBooks(s, q).data.summaries[i] == Summary(b.id, b.name, b.publisher);
  }

  /** The read handler: the first record with the id, or 404. */
  function GetBookById(s: seq<Book>, id: BookId): (r: Response)
    ensures !HasId(s, id) ==> r == Failed(404, NotFoundMessage)
    ensures HasId(s, id) ==> r.status == Success && r.code == 200 && r.message.None?
    ensures HasId(s, id) ==> exists i :: IsFirstWithId(s, id, i) && r.data == OneBook(s[i])
  {
    var matched := WithId(s, id);
    if |matched| == 0 then Failed(404, NotFoundMessage)
    else Response(Success, 200, None, OneBook(matched[0]))
  }
}
