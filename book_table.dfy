/** The catalog handlers of app/routers/books.py over an abstract book table.
    The ORM session is replaced by an in-memory table: a map from primary key
    to row, and the order in which the store keeps its rows. Every write takes
    effect at once, as each handler commits before it answers. */
module BooksRouter {
  import opened Outcomes
  import opened BookModel
  import opened ReviewSort

  /** The payload of the review handler; its class is app/models/review.py,
      which is not part of this model. */
  datatype Review = Review(review: int)

  /** Strictly increasing ids. */
  predicate Increasing(s: seq<int>) {
    forall i, j :: 0 <= i < j < |s| ==> s[i] < s[j]
  }

  /** The id the store gives the next inserted row: one more than the largest
      id in the table, or 1 when the table is empty. */
  function NextRowId(order: seq<int>): (id: int)
    requires Increasing(order)
    requires forall i :: 0 <= i < |order| ==> order[i] >= 1
    ensures id >= 1
    ensures forall k :: k in order ==> k < id
    ensures order == [] ==> id == 1
  {
    if order == [] then 1 else order[|order| - 1] + 1
  }

  /** `s` without `x`. */
  function Without(s: seq<int>, x: int): (r: seq<int>)
    ensures forall y :: y in r <==> y in s && y != x
  {
    if s == [] then []
    else if s[0] == x then Without(s[1..], x)
    else [s[0]] + Without(s[1..], x)
  }

  /** Removing an id from an increasing list keeps it increasing and, when
      the id was there, shortens it by exactly one. */
  lemma {:induction false} WithoutIncreasing(s: seq<int>, x: int)
    requires Increasing(s)
    ensures Increasing(Without(s, x))
    ensures |Without(s, x)| == if x in s then |s| - 1 else |s|
  {
    if s != [] {
      WithoutIncreasing(s[1..], x);
      var t := Without(s[1..], x);
      if s[0] == x {
        assert x !in s[1..];
      } else {
        assert Without(s, x) == [s[0]] + t;
        forall j | 0 <= j < |t|
          ensures s[0] < t[j]
        {
          assert t[j] in t;
        }
      }
    }
  }

  /** The table invariant: each row is stored under its own id and
      satisfies the field constraint; `order` lists every stored id once,
      increasing, since the store appends each new row with an id above all
      others. */
  ghost predicate TableInvariant(rows: map<int, Book>, order: seq<int>) {
    && (forall id :: id in rows ==> rows[id].id == id && ValidBook(rows[id]))
    && (forall i :: 0 <= i < |order| ==> order[i] in rows && order[i] >= 1)
    && (forall id :: id in rows ==> id in order)
    && Increasing(order)
    && |order| == |rows|
  }

  /** Appending a valid row under the next id keeps the invariant. */
  lemma InsertKeepsInvariant(rows: map<int, Book>, order: seq<int>, b: Book)
    requires TableInvariant(rows, order) && ValidBook(b)
    requires b.id == NextRowId(order)
    ensures b.id !in rows
    ensures TableInvariant(rows[b.id := b], order + [b.id])
  {
  }

  /** Replacing a stored row by a valid row with the same id keeps the
      invariant. */
  lemma ReplaceKeepsInvariant(rows: map<int, Book>, order: seq<int>, b: Book)
    requires TableInvariant(rows, order) && ValidBook(b)
    requires b.id in rows
    ensures TableInvariant(rows[b.id := b], order)
  {
  }

  /** Removing a stored row and its id keeps the invariant. */
  lemma RemoveKeepsInvariant(rows: map<int, Book>, order: seq<int>, id: int)
    requires TableInvariant(rows, order)
    requires id in rows
    ensures TableInvariant(rows - {id}, Without(order, id))
    ensures |rows - {id}| == |rows| - 1
  {
    var rows', order' := rows - {id}, Without(order, id);
    WithoutIncreasing(order, id);
    RemoveOneKey(rows, id);
    forall i | 0 <= i < |order'|
      ensures order'[i] in rows' && order'[i] >= 1
    {
      assert order'[i] in order';
      var k :| 0 <= k < |order| && order[k] == order'[i];
    }
  }

  /** The rows of `m` under the ids of `ids`, in that order. */
  function RowsInOrder(m: map<int, Book>, ids: seq<int>): (r: seq<Book>)
    requires forall i :: 0 <= i < |ids| ==> ids[i] in m
    ensures |r| == |ids|
    ensures forall i :: 0 <= i < |ids| ==> r[i] == m[ids[i]]
  {
    if ids == [] then [] else [m[ids[0]]] + RowsInOrder(m, ids[1..])
  }

  /** Removing a present key leaves one entry fewer. */
  lemma RemoveOneKey(m: map<int, Book>, k: int)
    requires k in m
    ensures |m - {k}| == |m| - 1
  {
    assert (m - {k}).Keys == m.Keys - {k};
    assert |m.Keys - {k}| == |m.Keys| - 1;
  }

  /** The public records of `books`, one per book, in the same order (the
      list comprehension of `get_all_books`). */
  function Publish(books: seq<Book>): (r: seq<BookPublic>)
    ensures |r| == |books|
    ensures forall i :: 0 <= i < |books| ==> r[i] == ToPublic(books[i])
  {
    seq(|books|, i requires 0 <= i < |books| => ToPublic(books[i]))
  }

  /** A rearrangement of the stored rows holds each row under its own id,
      and holds every stored row. */
  lemma {:induction false} RearrangedRows(rows: map<int, Book>, order: seq<int>, books: seq<Book>)
    requires TableInvariant(rows, order)
    requires multiset(books) == multiset(RowsInOrder(rows, order))
    ensures |books| == |rows|
    ensures forall i :: 0 <= i < |books| ==> books[i].id in rows && books[i] == rows[books[i].id]
    ensures forall id :: id in rows ==> rows[id] in books
  {
    var stored := RowsInOrder(rows, order);
    assert |books| == |multiset(books)| == |multiset(stored)| == |stored|;
    forall i | 0 <= i < |books|
      ensures books[i].id in rows && books[i] == rows[books[i].id]
    {
      assert books[i] in multiset(stored);
      var k :| 0 <= k < |stored| && stored[k] == books[i];
    }
    forall id | id in rows
      ensures rows[id] in books
    {
      var k :| 0 <= k < |order| && order[k] == id;
      assert stored[k] == rows[id];
      assert rows[id] in multiset(books);
    }
  }

  /** Rows stored under their own ids and ordered with ties by id never
      repeat an id. */
  lemma TiesByIdDistinct(rows: map<int, Book>, books: seq<Book>)
    requires TiesById(books)
    requires forall i :: 0 <= i < |books| ==> books[i].id in rows && books[i] == rows[books[i].id]
    ensures forall i, j :: 0 <= i < j < |books| ==> books[i].id != books[j].id
  {
    forall i, j | 0 <= i < j < |books|
      ensures books[i].id != books[j].id
    {
      if books[i].id == books[j].id {
        assert false;
      }
    }
  }

  /** The public records of a rearrangement of the stored rows with no
      repeated id: one record per stored book, each with that book's fields. */
  lemma PublishedListing(rows: map<int, Book>, books: seq<Book>)
    requires |books| == |rows|
    requires forall i :: 0 <= i < |books| ==> books[i].id in rows && books[i] == rows[books[i].id]
    requires forall id :: id in rows ==> rows[id] in books
    requires forall i, j :: 0 <= i < j < |books| ==> books[i].id != books[j].id
    ensures var out := Publish(books);
      && |out| == |rows|
      && (forall i :: 0 <= i < |out| ==> out[i].id in rows && out[i] == ToPublic(rows[out[i].id]))
      && (forall i, j :: 0 <= i < j < |out| ==> out[i].id != out[j].id)
      && (forall id :: id in rows ==> ToPublic(rows[id]) in out)
  {
    var out := Publish(books);
    forall id | id in rows
      ensures ToPublic(rows[id]) in out
    {
      var i :| 0 <= i < |books| && books[i] == rows[id];
      assert out[i] == ToPublic(rows[id]);
    }
  }

  /** Publishing keeps the sort key and the id of every book. */
  lemma PublishedOrder(books: seq<Book>)
    requires SortedByKey(books) && TiesById(books)
    ensures var out := Publish(books);
      && (forall i, j :: 0 <= i < j < |out| ==> ReviewKey(out[i].review) <= ReviewKey(out[j].review))
      && (forall i, j :: 0 <= i < j < |out| && ReviewKey(out[i].review) == ReviewKey(out[j].review)
            ==> out[i].id < out[j].id)
  {
  }

  /** The listing in store order: one public record per stored book, in
      the order of `order`. */
  lemma StoreOrderListing(rows: map<int, Book>, order: seq<int>)
    requires TableInvariant(rows, order)
    ensures var out := Publish(RowsInOrder(rows, order));
      && |out| == |rows|
      && (forall i :: 0 <= i < |out| ==> out[i].id in rows && out[i] == ToPublic(rows[out[i].id]))
      && (forall i, j :: 0 <= i < j < |out| ==> out[i].id != out[j].id)
      && (forall id :: id in rows ==> ToPublic(rows[id]) in out)
      && (forall i :: 0 <= i < |out| ==> out[i].id == order[i])
  {
    var books := RowsInOrder(rows, order);
    RearrangedRows(rows, order, books);
    PublishedListing(rows, books);
  }

  /** The sorted listing: one public record per stored book, non-decreasing
      by review, ties in increasing id order. */
  lemma SortedListing(rows: map<int, Book>, order: seq<int>)
    requires TableInvariant(rows, order)
    ensures var out := Publish(SortByReview(RowsInOrder(rows, order)));
      && |out| == |rows|
      && (forall i :: 0 <= i < |out| ==> out[i].id in rows && out[i] == ToPublic(rows[out[i].id]))
      && (forall i, j :: 0 <= i < j < |out| ==> out[i].id != out[j].id)
      && (forall id :: id in rows ==> ToPublic(rows[id]) in out)
      && (forall i, j :: 0 <= i < j < |out| ==> ReviewKey(out[i].review) <= ReviewKey(out[j].review))
      && (forall i, j :: 0 <= i < j < |out| && ReviewKey(out[i].review) == ReviewKey(out[j].review)
            ==> out[i].id < out[j].id)
  {
    var stored := RowsInOrder(rows, order);
    SortByReviewOrdered(stored);
    var books := SortByReview(stored);
    RearrangedRows(rows, order, books);
    TiesByIdDistinct(rows, books);
    PublishedOrder(books);
    PublishedListing(rows, books);
  }

  /** `delete_all_books` as written: it calls `delete()` on the result of a
      select, an object without that method, so on every table, the empty
      one included, the handler raises before it commits and every row
      stays. `BookTable.DeleteAllBooks` is the handler as intended. */
  function DeleteAllAsWritten(rows: map<int, Book>, order: seq<int>): (r: (Status, map<int, Book>, seq<int>))
    ensures r.0 == Failed(ServerError)
    ensures r.1 == rows && r.2 == order
  {
    (Failed(ServerError), rows, order)
  }

  /** On every valid table that holds a book, the handler as written fails
      and leaves the table non-empty, where `BookTable.DeleteAllBooks`, the
      handler as intended, ends with an empty table. */
  lemma DeleteAllAsWrittenKeepsRows(rows: map<int, Book>, order: seq<int>)
    requires TableInvariant(rows, order) && rows != map[]
    ensures DeleteAllAsWritten(rows, order).0 == Failed(ServerError)
    ensures DeleteAllAsWritten(rows, order).1 != map[]
    ensures DeleteAllAsWritten(rows, order).2 != []
  {
    assert |rows| != 0;
    assert order[0] in rows;
  }

  class BookTable {
    /** The rows by primary key. */
    var rows: map<int, Book>
    /** The ids of the rows in the order the store keeps them. */
    var order: seq<int>

    ghost predicate Valid()
      reads this
    {
      TableInvariant(rows, order)
    }

    /** An empty table. */
    constructor ()
      ensures Valid() && rows == map[] && order == []
    {
      rows := map[];
      order := [];
    }

    /** `get_all_books`: one public record per stored book. Unsorted, they
        come in store order; sorted, they come non-decreasing by review (an
        absent review below every rating), ties in store order. */
    method ListBooks(sort: bool := false) returns (out: seq<BookPublic>)
      requires Valid()
      ensures |out| == |rows|
      ensures forall i :: 0 <= i < |out| ==> out[i].id in rows && out[i] == ToPublic(rows[out[i].id])
      ensures forall i, j :: 0 <= i < j < |out| ==> out[i].id != out[j].id
      ensures forall id :: id in rows ==> ToPublic(rows[id]) in out
      ensures !sort ==> forall i :: 0 <= i < |out| ==> out[i].id == order[i]
      ensures sort ==> forall i, j :: 0 <= i < j < |out| ==> ReviewKey(out[i].review) <= ReviewKey(out[j].review)
      ensures sort ==> forall i, j :: 0 <= i < j < |out| && ReviewKey(out[i].review) == ReviewKey(out[j].review)
                         ==> out[i].id < out[j].id
    {
      if sort {
        SortedListing(rows, order);
        out := Publish(SortByReview(RowsInOrder(rows, order)));
      } else {
        StoreOrderListing(rows, order);
        out := Publish(RowsInOrder(rows, order));
      }
    }

    /** `get_book_by_id`: the stored row when the id is present, otherwise
        NotFound; the table is not changed either way. */
    method GetBook(id: int) returns (r: Result<BookPublic>)
      requires Valid()
      ensures r.Ok? <==> id in rows
      ensures r.Ok? ==> r.value == ToPublic(rows[id]) && r.value.id == id
      ensures r.Err? ==> r.error == NotFound
    {
      if id in rows {
        r := Ok(ToPublic(rows[id]));
      } else {
        r := Err(NotFound);
      }
    }

    /** `add_review`: sets the review of the row with the given id, touching
        nothing else; NotFound and no change when the id is absent. */
    method AddReview(id: int, review: Review) returns (r: Status)
      requires Valid()
      requires 1 <= review.review <= 5
      modifies this
      ensures Valid()
      ensures r == Done <==> id in old(rows)
      ensures r.Failed? ==> r.error == NotFound && rows == old(rows)
      ensures r == Done ==> rows == old(rows)[id := old(rows)[id].(review := Some(review.review))]
      ensures order == old(order)
    {
      if id !in rows {
        return Failed(NotFound);
      }
      ReplaceKeepsInvariant(rows, order, rows[id].(review := Some(review.review)));
      rows := rows[id := rows[id].(review := Some(review.review))];
      r := Done;
    }

    /** Stores a valid payload under a fresh id at the end of the store. */
    method InsertRow(payload: BookCreate) returns (book: Book)
      requires Valid() && ValidCreate(payload)
      modifies this
      ensures Valid()
      ensures book.id !in old(rows) && book.id == NextRowId(old(order))
      ensures book == ToBook(book.id, payload)
      ensures rows == old(rows)[book.id := book] && order == old(order) + [book.id]
    {
      var id := NextRowId(order);
      book := ToBook(id, payload);
      InsertKeepsInvariant(rows, order, book);
      rows := rows[id := book];
      order := order + [id];
    }

    /** `add_book`: a valid payload becomes one new row under an id that
        was not in the table, and the created book is returned; an invalid
        payload is a validation error and changes nothing. */
    method AddBook(payload: BookCreate) returns (r: Result<BookPublic>)
      requires Valid()
      modifies this
      ensures Valid()
      ensures r.Ok? <==> ValidCreate(payload)
      ensures r.Err? ==> r.error == ValidationError && rows == old(rows) && order == old(order)
      ensures r.Ok? ==>
        && r.value.id !in old(rows) && r.value.id == NextRowId(old(order))
        && rows == old(rows)[r.value.id := ToBook(r.value.id, payload)]
        && order == old(order) + [r.value.id]
        && r.value == ToPublic(rows[r.value.id])
    {
      if !ValidCreate(payload) {
        return Err(ValidationError);
      }
      var book := InsertRow(payload);
      r := Ok(ToPublic(book));
    }

    /** `update_book`: replaces title, author and review of the row in full
        (a payload without a review clears it) and keeps its id and place;
        an invalid payload is a validation error, tested first, and an
        absent id is NotFound; neither changes anything. */
    method UpdateBook(id: int, payload: BookCreate) returns (r: Status)
      requires Valid()
      modifies this
      ensures Valid()
      ensures r == Done <==> ValidCreate(payload) && id in old(rows)
      ensures r.Failed? ==> r.error == (if ValidCreate(payload) then NotFound else ValidationError)
      ensures r.Failed? ==> rows == old(rows)
      ensures r == Done ==> rows == old(rows)[id := ToBook(id, payload)]
      ensures order == old(order)
    {
      if !ValidCreate(payload) {
        return Failed(ValidationError);
      }
      if id !in rows {
        return Failed(NotFound);
      }
      ReplaceKeepsInvariant(rows, order, ToBook(id, payload));
      rows := rows[id := ToBook(id, payload)];
      r := Done;
    }

    /** `delete_all_books`: the table is empty afterwards, also when it
        already was. */
    method DeleteAllBooks() returns (r: Status)
      requires Valid()
      modifies this
      ensures Valid()
      ensures r == Done
      ensures rows == map[] && order == []
    {
      rows := map[];
      order := [];
      r := Done;
    }

    /** `delete_book`: removes exactly the row with the given id and keeps
        the others in order; NotFound and no change when the id is absent. */
    method DeleteBook(id: int) returns (r: Status)
      requires Valid()
      modifies this
      ensures Valid()
      ensures r == Done <==> id in old(rows)
      ensures r.Failed? ==> r.error == NotFound && rows == old(rows) && order == old(order)
      ensures r == Done ==> rows == old(rows) - {id} && order == Without(old(order), id)
      ensures r == Done ==> |rows| == |old(rows)| - 1
    {
      if id !in rows {
        return Failed(NotFound);
      }
      RemoveKeepsInvariant(rows, order, id);
      rows := rows - {id};
      order := Without(order, id);
      r := Done;
    }

    /** `add_book_from_form`: the form fields are built into a creation
        payload (review absent unless given); a review outside 1..5 is a
        validation error with no change, otherwise the effect on the table
        is that of `AddBook`. */
    method AddBookFromForm(title: string, author: string, review: Option<int> := None) returns (r: Status)
      requires Valid()
      modifies this
      ensures Valid()
      ensures r == Done <==> ValidReview(review)
      ensures r.Failed? ==> r.error == ValidationError && rows == old(rows) && order == old(order)
      ensures r == Done ==>
        var id := NextRowId(old(order));
        && id !in old(rows)
        && rows == old(rows)[id := Book(id, title, author, review)]
        && order == old(order) + [id]
    {
      var bookData := NewBookCreate(title, author, review);
      if bookData.Err? {
        return Failed(bookData.error);
      }
      var _ := InsertRow(bookData.value);
      r := Done;
    }
  }

  /** The catalog's worked example: a book added without a review gets id 1
      and no review, a review of 5 is then stored on it, a second book
      without a review is listed first when sorting, and after deleting all
      books the listing is empty and deleting book 1 is NotFound. */
  method CatalogScenario() {
    var table := new BookTable();
    var added := table.AddBook(BookCreate("Il Nome della Rosa", "Umberto Eco", None));
    assert added == Ok(BookPublic(1, "Il Nome della Rosa", "Umberto Eco", None));
    var reviewed := table.AddReview(1, Review(5));
    assert reviewed == Done;
    var got := table.GetBook(1);
    assert got == Ok(BookPublic(1, "Il Nome della Rosa", "Umberto Eco", Some(5)));
    var second := table.AddBook(BookCreate("Il pendolo di Foucault", "Umberto Eco", None));
    assert second.Ok? && second.value.id == 2;
    var listing := table.ListBooks(true);
    assert |listing| == 2 && table.rows.Keys == {1, 2};
    assert listing[0].id == 2 && listing[1].id == 1;
    var cleared := table.DeleteAllBooks();
    var empty := table.ListBooks(false);
    assert empty == [];
    var missing := table.DeleteBook(1);
    assert missing == Failed(NotFound);
  }
}
