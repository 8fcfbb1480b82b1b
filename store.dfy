/** The shared list of records and the three handlers that change it:
    add (push), edit (assignment at the found index) and delete (splice). */
module Store {
  import opened Books
  import opened Responses
  import opened Queries

  /** `books.findIndex(b => b.id === id)`: the first position, or -1. */
  method FindIndex(s: seq<Book>, id: BookId) returns (index: int)
    ensures index == -1 <==> !HasId(s, id)
    ensures index != -1 ==> IsFirstWithId(s, id, index)
  {
    index := 0;
    while index < |s|
      invariant 0 <= index <= |s|
      invariant forall j :: 0 <= j < index ==> s[j].id != id
    {
      if s[index].id == id {
        return;
      }
      index := index + 1;
    }
    index := -1;
  }

  /** `s.splice(i, 1)`: the list without its `i`-th record. */
  function Removed(s: seq<Book>, i: int): (r: seq<Book>)
    requires 0 <= i < |s|
    ensures |r| == |s| - 1
    ensures forall j :: 0 <= j < i ==> r[j] == s[j]
    ensures forall j :: i <= j < |r| ==> r[j] == s[j + 1]
  {
    s[..i] + s[i + 1..]
  }

  /** The 400 answer of the add handler for the check that failed. */
  function AddFailure(e: PayloadError): (r: Response)
    ensures r.status == Fail && r.code == 400 && r.data == NoData
    ensures r.message == Some(AddPageRangeMessage) <==> e == PageRangeError
    ensures r.message == Some(AddMissingNameMessage) <==> e == MissingName
  {
    match e
    case PageRangeError => Failed(400, AddPageRangeMessage)
    case MissingName => Failed(400, AddMissingNameMessage)
  }

  /** The 400 answer of the edit handler for the check that failed. */
  function EditFailure(e: PayloadError): (r: Response)
    ensures r.status == Fail && r.code == 400 && r.data == NoData
    ensures r.message == Some(EditPageRangeMessage) <==> e == PageRangeError
    ensures r.message == Some(EditMissingNameMessage) <==> e == MissingName
  {
    match e
    case PageRangeError => Failed(400, EditPageRangeMessage)
    case MissingName => Failed(400, EditMissingNameMessage)
  }

  class BookStore {
    /** The shared ordered list of records. */
    var books: seq<Book>

    ghost predicate Valid()
      reads this
    {
      Invariant(books)
    }

    constructor ()
      ensures books == [] && Valid()
    {
      books := [];
    }

    /** The add handler. `id` is the generator's fresh id and `now` the clock's
        reading; both are only used once the payload has passed its checks. */
    method AddBook(p: Payload, id: BookId, now: Timestamp) returns (r: Response)
      modifies this
      ensures CheckPayload(p).Some? ==> books == old(books) && r == AddFailure(CheckPayload(p).value)
      ensures CheckPayload(p).None? ==>
        books == old(books) + [NewBook(id, p, now)] && r == Response(Success, 201, Some(AddedMessage), Created(id))
      ensures old(Valid()) && !HasId(old(books), id) ==> Valid()
    {
      var check := CheckPayload(p);
      if check.Some? {
        r := AddFailure(check.value);
        return;
      }
      var book := NewBook(id, p, now);
      if Valid() && !HasId(books, id) {
        AddPreservesInvariant(books, id, p, now);
      }
      books := books + [book];
      PushedIsFound(old(books), book);
      var isSuccess := |WithId(books, id)| > 0;
      if isSuccess {
        r := Response(Success, 201, Some(AddedMessage), Created(id));
      } else {
        r := Response(Error, 500, Some(AddFailedMessage), NoData);
      }
    }

    /** The edit handler: both payload checks, then the lookup, then the
        in-place replacement of the first record with the id. */
    method EditBookById(id: BookId, p: Payload, now: Timestamp) returns (r: Response)
      modifies this
      ensures CheckPayload(p).Some? ==> books == old(books) && r == EditFailure(CheckPayload(p).value)
      ensures CheckPayload(p).None? && !HasId(old(books), id) ==>
        books == old(books) && r == Failed(404, EditNotFoundMessage)
      ensures CheckPayload(p).None? && HasId(old(books), id) ==>
        r == Response(Success, 200, Some(EditedMessage), NoData) &&
        exists i :: IsFirstWithId(old(books), id, i) && books == old(books)[i := Edited(old(books)[i], p, now)]
      ensures old(Valid()) ==> Valid()
    {
      var check := CheckPayload(p);
      if check.Some? {
        r := EditFailure(check.value);
        return;
      }
      var index := FindIndex(books, id);
      if index == -1 {
        r := Failed(404, EditNotFoundMessage);
        return;
      }
      if Valid() {
        EditPreservesInvariant(books, index, p, now);
      }
      books := books[index := Edited(books[index], p, now)];
      r := Response(Success, 200, Some(EditedMessage), NoData);
    }

    /** The delete handler: removes the first record with the id. */
    method DeleteBookById(id: BookId) returns (r: Response)
      modifies this
      ensures !HasId(old(books), id) ==> books == old(books) && r == Failed(404, DeleteNotFoundMessage)
      ensures HasId(old(books), id) ==>
        r == Response(Success, 200, Some(DeletedMessage), NoData) &&
        exists i :: IsFirstWithId(old(books), id, i) && books == Removed(old(books), i)
      ensures old(Valid()) ==> Valid()
    {
      var index := FindIndex(books, id);
      if index == -1 {
        r := Failed(404, DeleteNotFoundMessage);
        return;
      }
      if Valid() {
        DeletePreservesInvariant(books, index);
      }
      books := Removed(books, index);
      r := Response(Success, 200, Some(DeletedMessage), NoData);
    }
  }

  /** After the push, the filter by the new id is never empty: the 500
      branch of the add handler cannot be taken. */
  lemma PushedIsFound(s: seq<Book>, b: Book)
    ensures |WithId(s + [b], b.id)| > 0
  {
    assert (s + [b])[|s|].id == b.id;
  }

  lemma AddPreservesInvariant(s: seq<Book>, id: BookId, p: Payload, now: Timestamp)
    requires Invariant(s) && !HasId(s, id) && Acceptable(p)
    ensures Invariant(s + [NewBook(id, p, now)])
  {
  }

  lemma EditPreservesInvariant(s: seq<Book>, i: int, p: Payload, now: Timestamp)
    requires Invariant(s) && 0 <= i < |s| && Acceptable(p)
    ensures Invariant(s[i := Edited(s[i], p, now)])
  {
  }

  lemma DeletePreservesInvariant(s: seq<Book>, i: int)
    requires Invariant(s) && 0 <= i < |s|
    ensures Invariant(Removed(s, i))
  {
  }

  /** Reading the id an add returned gives back the new record, which
      carries exactly the submitted fields. */
  lemma AddThenRead(s: seq<Book>, id: BookId, p: Payload, now: Timestamp)
    requires !HasId(s, id) && Acceptable(p)
    ensures GetBookById(s + [NewBook(id, p, now)], id) == Response(Success, 200, None, OneBook(NewBook(id, p, now)))
  {
    var t := s + [NewBook(id, p, now)];
    assert t[|s|].id == id;
    assert IsFirstWithId(t, id, |s|);
  }

  /** Reading an id after editing it gives the edited record. */
  lemma EditThenRead(s: seq<Book>, id: BookId, i: int, p: Payload, now: Timestamp)
    requires IsFirstWithId(s, id, i) && Acceptable(p)
    ensures GetBookById(s[i := Edited(s[i], p, now)], id) == Response(Success, 200, None, OneBook(Edited(s[i], p, now)))
  {
    var t := s[i := Edited(s[i], p, now)];
    assert IsFirstWithId(t, id, i);
  }

  /** With unique ids, reading an id after deleting it gives 404. */
  lemma DeleteThenRead(s: seq<Book>, id: BookId, i: int)
    requires UniqueIds(s) && IsFirstWithId(s, id, i)
    ensures GetBookById(Removed(s, i), id) == Failed(404, NotFoundMessage)
  {
    var t := Removed(s, i);
    forall j | 0 <= j < |t|
      ensures t[j].id != id
    {
      if j >= i {
        assert t[j] == s[j + 1];
      }
    }
  }
}
