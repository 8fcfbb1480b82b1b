# Bookshelf handlers, modelled in Dafny

This project models the five request handlers of a small in-memory bookshelf
service (`src/handler/handler.js`). They all work on one shared, ordered list of
book records:

- **add** checks the payload (page range first, then the name) and pushes a new
  record;
- **list** filters the records by the first supplied query filter and returns
  their `{id, name, publisher}` summaries. If the filter keeps nothing, it lists
  the whole store;
- **read** returns the first record with a given id;
- **edit** checks the payload, finds the first record with the id and replaces
  its fields in place;
- **delete** splices out the first record with the id.

Modules:

- `Books` (books.dfy): the record, the payload, the shared payload checks, and
  the records an add or edit writes. It also holds lookup by id and the store
  invariant: page ranges are valid, `finished` agrees with the page counts,
  names are present and ids are unique.
- `Text` (text.dfy): ASCII lower-casing and substring search, used by the name
  filter.
- `Responses` (responses.dfy): the status kind (`success`/`fail`/`error`), the
  numeric code, the handlers' messages and the data returned.
- `Queries` (queries.dfy): the list and read handlers. They only read the
  list, so they are functions of it.
- `Store` (store.dfy): the class `BookStore`, whose field `books` is the shared
  list. Its methods are the add, edit and delete handlers. The file also has
  `FindIndex` (the `findIndex` search, written as a loop) and the lemmas that
  the handlers preserve the invariant and agree with the read handler.

The list handler's filter callback is reproduced as written. Only the first
supplied filter (name, then reading, then finished) is consulted. When no
filter is supplied, the callback returns `[]`. JavaScript treats `[]` as true,
so every record passes the filter; no record is dropped and then restored by
the fallback. The listed result is the same either way.

## Model

| member | source | states |
|---|---|---|
| `Books.CheckPayload` | src/handler/handler.js:15-31 | a payload passes exactly when readPage <= pageCount and the name is present and non-empty (an absent, null or empty name is falsy); readPage > pageCount gives the page-range error whatever the name; the missing-name error only when the page range is valid |
| `Books.NewBook` | src/handler/handler.js:32-49 | the new record carries exactly the submitted fields, the given id, insertedAt == updatedAt == the clock reading, finished iff pageCount == readPage, and is well formed |
| `Books.Edited` | src/handler/handler.js:177-190 | the replacement record carries exactly the submitted fields, keeps the old id and insertedAt, takes the new updatedAt, recomputes finished, and is well formed |
| `Books.WithId` | src/handler/handler.js:52 | filtering by id keeps only records of the store with that id, is non-empty iff some record has the id, and starts with the first such record |
| `Text.Lower` | src/handler/handler.js:76 | lower-casing keeps the length and lowers each character |
| `Text.Includes` | src/handler/handler.js:76 | `includes` is true iff the needle occurs at some offset of the haystack |
| `Queries.Flag` | src/handler/handler.js:79 | `Number(flag)` is 1 exactly for true and 0 exactly for false |
| `Queries.Keep` | src/handler/handler.js:74-85 | the filter callback consults only the first supplied filter: with a name, it keeps a record iff the lowered name occurs in the lowered record name; else with reading, iff reading is 1 and the record is being read or reading is 0 and it is not; else with finished, likewise for finished; with none supplied it keeps every record |
| `Queries.FilterBooks` | src/handler/handler.js:74-85 | the filtered list holds exactly the records of the store that pass the callback, and is no longer than the store |
| `Queries.FilterAppend` | src/handler/handler.js:74-85 | filtering distributes over concatenation, so it keeps store order |
| `Queries.Summaries` | src/handler/handler.js:91-95 | the projection has one summary per record, in order, carrying exactly that record's id, name and publisher |
| `Queries.GetAllBooks` | src/handler/handler.js:72-111 | the list handler always answers 200/success; it lists the filtered records when some record passes, the whole store when none does, and is empty only for an empty store |
| `Queries.NoFilterKeepsAll` | src/handler/handler.js:84 | with no filter supplied the callback keeps every record |
| `Queries.NoFilterListsAll` | src/handler/handler.js:72-111 | with no filter supplied the whole store is listed |
| `Queries.SameKeepSameFilter` | src/handler/handler.js:74 | two queries whose callbacks agree on every record filter every list alike |
| `Queries.NameFilterWins` | src/handler/handler.js:75-77 | a supplied name filter makes the reading and finished filters irrelevant |
| `Queries.ReadingFilterWins` | src/handler/handler.js:78-80 | without a name filter, a supplied reading filter makes the finished filter irrelevant |
| `Queries.HobbitIsListed` | src/handler/handler.js:76 | the query name "hobbit" lists a stored book named "The Hobbit" |
| `Queries.GetBookById` | src/handler/handler.js:114-135 | read answers 404/fail when no record has the id, else 200/success with the first record that has it |
| `Store.FindIndex` | src/handler/handler.js:168 | `findIndex` returns -1 iff no record has the id, else the first position holding it |
| `Store.Removed` | src/handler/handler.js:211 | `splice(i, 1)` drops position i, keeps the records before it and shifts the ones after it down by one |
| `Store.AddFailure` | src/handler/handler.js:15-31 | a failed add check answers 400 with status fail and no data, with the page-range message exactly for the page-range error and the missing-name message exactly for the missing name |
| `Store.EditFailure` | src/handler/handler.js:151-167 | a failed edit check answers 400 with status fail and no data, with the page-range message exactly for the page-range error and the missing-name message exactly for the missing name |
| `Store.BookStore.constructor` | src/handler/handler.js:2 | the shared list starts empty and satisfies the invariant |
| `Store.BookStore.AddBook` | src/handler/handler.js:4-70 | a failed check answers 400/fail with that check's message and leaves the list unchanged; otherwise exactly the new record is appended and the answer is 201/success with its id (never 500); the invariant is kept when the id is fresh |
| `Store.BookStore.EditBookById` | src/handler/handler.js:137-197 | both checks come before the lookup (400 even for an unknown id); an unknown id answers 404; failures leave the list unchanged; success replaces only the first record with the id, by the edited record, and keeps the invariant |
| `Store.BookStore.DeleteBookById` | src/handler/handler.js:199-218 | an unknown id answers 404 and changes nothing; otherwise exactly the first record with the id is removed, the others keep their order, and the invariant is kept |
| `Store.PushedIsFound` | src/handler/handler.js:50-69 | after the push the filter by the new id is non-empty, so the 500 branch is unreachable |
| `Store.AddPreservesInvariant` | src/handler/handler.js:32-50 | appending the record of an accepted payload under a fresh id keeps the invariant |
| `Store.EditPreservesInvariant` | src/handler/handler.js:177-190 | replacing a record by its edited version keeps the invariant |
| `Store.DeletePreservesInvariant` | src/handler/handler.js:211 | removing a record keeps the invariant |
| `Store.AddThenRead` | src/handler/handler.js:32-62 | reading a freshly added id returns 200 with the new record |
| `Store.EditThenRead` | src/handler/handler.js:168-190 | reading an id after editing it returns 200 with the edited record |
| `Store.DeleteThenRead` | src/handler/handler.js:202-211 | with unique ids, reading a deleted id returns 404 |

## Left out

- Id generation (`nanoid`) is an input to the add handler. Uniqueness of ids is kept only when the supplied id is not already in the store.
- The clock (`new Date().toISOString()`) is an opaque timestamp input. ISO-8601 formatting is not modelled.
- The web framework's response builder, routing, the request objects and JSON encoding are not modelled. Handlers take plain inputs and return a `Response` value.
- JavaScript value coercion is not modelled. Numbers are integers, never `undefined`. A name that is absent, null or empty is one case, `None` or `""`. Query values `reading`/`finished` are integers compared with 0/1. The route code that might turn query strings into numbers is not part of this model.
- Text.Lower: lowers ASCII letters only; JavaScript's Unicode `toLowerCase` is wider.
- The `../books/books` module is not part of this model: it becomes the `books` field, starting empty.
- Concurrency: the handlers are synchronous and the host runs them one at a time.
