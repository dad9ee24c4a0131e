# Book catalog model

A Dafny model of the book catalog of a small library web service. The
service keeps one table of books (id, title, author, optional review from 1
to 5). It offers handlers to list the books (optionally sorted by review),
get one, add one (from a JSON body or from form fields), update one, set its
review, delete one, and delete them all.

The model has four modules:

- `Outcomes` (outcomes.dfy): `Option`, the error kinds (`NotFound`,
  `ValidationError`, `ServerError`), `Result` for handlers that answer with
  a value, and `Status` for handlers that answer with a confirmation only.
- `BookModel` (book_model.dfy): the record shapes of app/models/book.py.
  `BookCreate` is the creation payload, with the base fields and no id.
  `Book` is a stored row and `BookPublic` is the returned shape; both are
  the base fields plus an `int` id. `ValidReview` is the field constraint
  on `review`, and `NewBookCreate` builds a payload and validates it.
- `ReviewSort` (review_sort.dfy): the stable sort `get_all_books` applies
  when `sort` is true. The key is the review, or -1 when the review is
  absent. The module proves that, on every input, the result is a
  permutation of it and is non-decreasing by the key. For input in
  increasing id order, which is how the store keeps its rows, it also
  proves that ties keep their input order and that these properties pin
  the result down completely.
- `BooksRouter` (book_table.dfy): the class `BookTable`, with one method per
  handler of app/routers/books.py. The ORM session is replaced by two
  fields: `rows`, a map from primary key to row, and `order`, the ids in
  the order the store keeps its rows. `TableInvariant` is preserved by
  every method. Under it, each row sits under its own id and meets the
  review constraint, and `order` lists every stored id once, in increasing
  order.

How the model reads the store:

- New ids follow SQLite's rule for an integer primary key without
  AUTOINCREMENT: one more than the largest id in the table, or 1 when the
  table is empty (`NextRowId`). So ids can be reused after the largest row
  is deleted, and they restart at 1 after the table is cleared.
- New rows go at the end of the store, so the store order is increasing id
  order. A select without ORDER BY is read as returning rows in that order.
  Because Python's `sorted` is stable, "ties keep store order" becomes
  "ties are in increasing id order".
- Each write takes effect immediately, because every handler commits before
  it answers.
- A JSON body is validated against `BookCreate` before the handler runs.
  So an invalid body on an update is a `ValidationError` even when the id
  is also absent.

Two points of the code's behaviour:

- Title and author carry no emptiness constraint (app/models/book.py:6-7),
  so the model accepts the empty string.
- For a bad review, the payload built at app/routers/books.py:115 raises
  pydantic's `ValidationError`, and nothing in the handler catches it. The
  model classifies the failure by that exception's kind and reports
  `ValidationError` with no change to the table; it does not model the HTTP
  status the framework would send.

`BooksRouter.CatalogScenario` is a client of the class. It walks through a
worked example: add a book, review it, add an unreviewed book, which then
comes first in the sorted listing, delete everything, then delete a
missing id.

## Model

| member | source | states |
|---|---|---|
| `BookModel.NewBookCreate` | app/models/book.py:5-8 | building a payload succeeds exactly when the review is absent or in 1..5, and then keeps title, author and review as given; otherwise the result is `ValidationError`; title and author are never rejected |
| `BookModel.OmittedReviewIsAbsent` | app/models/book.py:8 | a payload built without a review has an absent review, for any title and author, empty ones included |
| `BookModel.ToBookKeepsFields` | app/models/book.py:10-16 | the row a payload becomes under an id has that id and exactly the payload's three fields; the row is valid exactly when the payload is |
| `BookModel.ToPublicPreserves` | app/models/book.py:18-20 | the public projection keeps id, title, author and review, so different rows have different projections |
| `ReviewSort.ReviewKey` | app/routers/books.py:20 | the sort key of a present review is the rating; for an absent review it is below 1, so below every rating the constraint allows |
| `ReviewSort.SortByReview` | app/routers/books.py:20 | the sorted list is a permutation of the input (same multiset, same length) |
| `ReviewSort.InsertSorted` | app/routers/books.py:20 | inserting a book into a list sorted by the key keeps it sorted, whatever the ids |
| `ReviewSort.SortByReviewSorted` | app/routers/books.py:20 | on every input, the sorted list is non-decreasing by the key (absent review as -1) |
| `ReviewSort.SortByReviewOrdered` | app/routers/books.py:19-20 | for input in increasing id order, the sorted list is non-decreasing by the key, and books with equal keys stay in increasing id order (stability) |
| `ReviewSort.UnreviewedFirst` | app/routers/books.py:20 | in a list sorted by the key whose reviews are all valid, every unreviewed book comes before every reviewed one |
| `ReviewSort.OrderedPermutationUnique` | app/routers/books.py:20 | two permutations of one another that are both sorted by the key, with ties by id, are equal |
| `ReviewSort.SortByReviewCharacterized` | app/routers/books.py:19-20 | any permutation of the stored rows that is sorted by review with ties in store order is exactly `SortByReview` of them, so the model's sort is the one a stable sort by this key yields |
| `BooksRouter.NextRowId` | app/routers/books.py:60-62 | the id the store assigns on insert is at least 1, above every stored id (so fresh), and 1 on an empty table |
| `BooksRouter.RowsInOrder` | app/routers/books.py:17 | reading all books gives the row of each id in store order |
| `BooksRouter.PublishedListing` | app/routers/books.py:23 | converting a rearrangement of the stored rows with no repeated id gives one public record per stored book: as many records as rows, each the projection of the row stored under its id, no id twice, and every stored book's record present |
| `BooksRouter.InsertKeepsInvariant` | app/models/book.py:12 | appending a valid row under the next id keeps the primary-key invariant, and that id was not in use |
| `BooksRouter.ReplaceKeepsInvariant` | app/routers/books.py:76-79 | replacing a stored row by a valid row with the same id keeps the invariant |
| `BooksRouter.RemoveKeepsInvariant` | app/routers/books.py:101-102 | removing a stored row and its id keeps the invariant and leaves exactly one row fewer |
| `BooksRouter.WithoutIncreasing` | app/routers/books.py:101 | removing an id from the store order keeps it increasing and shortens it by one exactly when the id was there |
| `BooksRouter.StoreOrderListing` | app/routers/books.py:17-23 | the unsorted listing has one public record per stored book, with no id twice, every stored book present, and the records in store order |
| `BooksRouter.SortedListing` | app/routers/books.py:17-23 | the sorted listing has one public record per stored book, with no id twice and every stored book present; it is non-decreasing by review, with ties in increasing id order |
| `BooksRouter.DeleteAllAsWrittenKeepsRows` | app/routers/books.py:87-89 | on every valid table that holds a book, the handler as written fails (`ServerError`) and leaves rows and order non-empty, unlike `BookTable.DeleteAllBooks`, which ends with an empty table |
| `BooksRouter.BookTable.constructor` | app/data/db.py:17-18 | a freshly created table is empty and satisfies the invariant |
| `BooksRouter.BookTable.ListBooks` | app/routers/books.py:11-23 | as many records as stored books; each is the projection of the stored row with its id; no id twice; every stored book appears; unsorted, they follow store order; sorted, reviews are non-decreasing with an absent review keyed -1, and ties are in store (increasing id) order; the table is not changed |
| `BooksRouter.BookTable.GetBook` | app/routers/books.py:26-36 | the result is the stored row's projection exactly when the id is present, otherwise `NotFound`; the table is not changed |
| `BooksRouter.BookTable.AddReview` | app/routers/books.py:39-51 | an absent id gives `NotFound` and no change; a present id gets that review, with title, author, id, every other row and the order unchanged |
| `BooksRouter.BookTable.InsertRow` | app/routers/books.py:58-62 | a valid payload becomes one new row under `NextRowId`, an id not in the table, appended to the store order; other rows are unchanged |
| `BooksRouter.BookTable.AddBook` | app/routers/books.py:54-64 | an invalid payload gives `ValidationError` and no change; a valid one adds exactly one row under a fresh id with the payload's title, author and review, leaves existing rows unchanged, and returns the created book |
| `BooksRouter.BookTable.UpdateBook` | app/routers/books.py:66-81 | an invalid payload gives `ValidationError`, then an absent id gives `NotFound`, neither with a change; otherwise title, author and review are replaced in full (an absent review clears it), the id and position are kept, and other rows are untouched |
| `BooksRouter.BookTable.DeleteAllBooks` | app/routers/books.py:84-89 | the table is empty afterwards, and the call succeeds on an already empty table (idempotent) |
| `BooksRouter.BookTable.DeleteBook` | app/routers/books.py:92-103 | an absent id gives `NotFound` and no change; otherwise exactly that key is removed, the rest of the map is unchanged, the order loses just that id, and one row fewer remains |
| `BooksRouter.BookTable.AddBookFromForm` | app/routers/books.py:107-120 | a review outside 1..5 gives `ValidationError` and no change (an omitted review is absent); otherwise the effect on the table is that of `AddBook`: one new row under the next id with the form's fields, appended to the order |

## Findings

| source | as written | input that shows it | evidently intended | confidence | as-written member | corrected member |
|---|---|---|---|---|---|---|
| app/routers/books.py:87 | the handler calls `delete()` on the result of `session.exec(select(Book))`; that result object has no such method, so the call raises and the commit on the next line never runs | any request to delete all books, whatever the table holds: on a table with a book every row stays, and on an empty table the call fails instead of confirming, so it is not idempotent either | every row is removed and the handler confirms | high, not executed | `BooksRouter.DeleteAllAsWritten` (shown by `BooksRouter.DeleteAllAsWrittenKeepsRows`) | `BooksRouter.BookTable.DeleteAllBooks` |

## Left out

- BooksRouter.BookTable.AddReview: the 1..5 bound on the review payload is a precondition, not a checked error path. The payload class is app/models/review.py, which is not part of this model, so its validation (a validation error before the handler runs) is not modelled.
- app/data/db.py: the SQLite engine, the `check_same_thread` flag, schema creation and the per-request session lifecycle are I/O and library plumbing. The model starts from an empty table (`BookTable.constructor`).
- app/main.py: the startup hook, router registration and static files are framework wiring.
- app/routers/frontend.py: rendering HTML templates is UI. Its one query, reading all books, is `ListBooks(false)`.
- ORM mechanics: `add`, `commit`, `refresh`, the SQL `select` and the session identity map. Only their effect on the table is modelled.
- HTTP concerns: status codes, parsing of paths, queries, bodies and forms (including missing required fields), and response message strings. Errors are datatype variants, and confirmations are `Status.Done`.
- Concurrent requests and last-writer-wins updates: the model is one table changed by one request at a time.
- Uploading a book from a file, downloading a book, and downloading the database: these handlers are not in the source files modelled here, and they are file I/O.
- Seeding the store with sample books on first start: this is not in the db.py modelled here, and it uses randomness.
- BooksRouter.NextRowId: does not model SQLite's fallback once the largest id reaches 2^63 - 1 (it then picks an unused id at random), because ids here are unbounded integers.
- Store order: SQL gives no order to a select without ORDER BY. The model fixes it to insertion (increasing id) order, which is what SQLite does for a scan of such a table.
