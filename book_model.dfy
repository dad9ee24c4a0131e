/** The book record and its two API projections (app/models/book.py).
    `BookBase` holds the three fields every shape shares; the creation shape
    is exactly those fields, while the stored row and the public shape add an
    integer id. */
module BookModel {
  import opened Outcomes

  /** The field constraint on `review`: absent, or a rating from 1 to 5. */
  predicate ValidReview(review: Option<int>) {
    review.None? || 1 <= review.value <= 5
  }

  /** The creation payload: title, author and an optional review, no id. */
  datatype BookCreate = BookCreate(title: string, author: string, review: Option<int>)

  /** A row of the book table; `id` is its primary key. */
  datatype Book = Book(id: int, title: string, author: string, review: Option<int>)

  /** The shape a book is returned in: the base fields plus its id. */
  datatype BookPublic = BookPublic(id: int, title: string, author: string, review: Option<int>)

  predicate ValidCreate(c: BookCreate) {
    ValidReview(c.review)
  }

  predicate ValidBook(b: Book) {
    ValidReview(b.review)
  }

  /** Builds a creation payload from its fields, as the model's constructor
      does: the review defaults to absent, title and author are accepted as
      they are, and a review outside 1..5 is a validation error. */
  function NewBookCreate(title: string, author: string, review: Option<int> := None): (r: Result<BookCreate>)
    ensures r.Ok? <==> ValidReview(review)
    ensures r.Ok? ==> r.value.title == title && r.value.author == author && r.value.review == review
    ensures r.Ok? ==> ValidCreate(r.value)
    ensures r.Err? ==> r.error == ValidationError
  {
    if ValidReview(review) then Ok(BookCreate(title, author, review)) else Err(ValidationError)
  }

  /** The row a creation payload becomes once the store has given it `id`. */
  function ToBook(id: int, c: BookCreate): (b: Book) {
    Book(id, c.title, c.author, c.review)
  }

  /** The base fields of a stored row. */
  function Fields(b: Book): (c: BookCreate) {
    BookCreate(b.title, b.author, b.review)
  }

  /** The public projection of a stored row. */
  function ToPublic(b: Book): (p: BookPublic) {
    BookPublic(b.id, b.title, b.author, b.review)
  }

  /** A payload omitted review is absent, and any title and author (the
      empty string included) are accepted. */
  lemma OmittedReviewIsAbsent(title: string, author: string)
    ensures NewBookCreate(title, author) == Ok(BookCreate(title, author, None))
  {
  }

  /** Storing a payload under an id keeps exactly its fields, and a valid
      payload gives a valid row. */
  lemma ToBookKeepsFields(id: int, c: BookCreate)
    ensures ToBook(id, c).id == id && Fields(ToBook(id, c)) == c
    ensures ValidCreate(c) <==> ValidBook(ToBook(id, c))
  {
  }

  /** The public projection keeps id, title, author and review, so two rows
      with the same projection are the same row. */
  lemma ToPublicPreserves(a: Book, b: Book)
    ensures ToPublic(a).id == a.id && ToPublic(a).title == a.title
    ensures ToPublic(a).author == a.author && ToPublic(a).review == a.review
    ensures ToPublic(a) == ToPublic(b) ==> a == b
  {
  }
}
