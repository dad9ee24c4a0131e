/** The ordering of `get_all_books` with `sort=true` (app/routers/books.py:19-20):
    a stable sort of the stored rows by the key "review, or -1 when absent".
    The stable sort is written as an insertion sort; its properties below
    (a permutation and non-decreasing in the key on every input; for input
    in increasing id order, as the store keeps it, also ties in that input
    order and the only such ordering) are what makes it agree with Python's `sorted`. */
module ReviewSort {
  import opened Outcomes
  import opened BookModel

  /** The sort key: the rating itself, or -1 for a book without a review,
      which is below every rating a valid review can carry. */
  function ReviewKey(review: Option<int>): (k: int)
    ensures review.Some? ==> k == review.value
    ensures review.None? ==> k < 1
    ensures review.None? ==> forall v :: ValidReview(Some(v)) ==> k < v
  {
    if review.Some? then review.value else -1
  }

  function SortKey(b: Book): (k: int) {
    ReviewKey(b.review)
  }

  /** Non-decreasing by the sort key. */
  predicate SortedByKey(s: seq<Book>) {
    forall i, j :: 0 <= i < j < |s| ==> SortKey(s[i]) <= SortKey(s[j])
  }

  /** Books with equal keys stand in strictly increasing id order. */
  predicate TiesById(s: seq<Book>) {
    forall i, j :: 0 <= i < j < |s| && SortKey(s[i]) == SortKey(s[j]) ==> s[i].id < s[j].id
  }

  /** Strictly increasing ids: the order the store keeps its rows in. */
  predicate IdsIncreasing(s: seq<Book>) {
    forall i, j :: 0 <= i < j < |s| ==> s[i].id < s[j].id
  }

  /** Puts `b` in front of the first book whose key is not below its own. */
  function Insert(b: Book, s: seq<Book>): (r: seq<Book>)
    ensures multiset(r) == multiset(s) + multiset{b}
  {
    if s == [] || SortKey(b) <= SortKey(s[0]) then [b] + s
    else
      assert s == [s[0]] + s[1..];
      [s[0]] + Insert(b, s[1..])
  }

  /** The stable sort by review. */
  function SortByReview(s: seq<Book>): (r: seq<Book>)
    ensures multiset(r) == multiset(s)
    ensures |r| == |s|
  {
    if s == [] then []
    else
      assert s == [s[0]] + s[1..];
      Insert(s[0], SortByReview(s[1..]))
  }

  lemma TailOrdered(s: seq<Book>)
    requires s != [] && SortedByKey(s) && TiesById(s)
    ensures SortedByKey(s[1..]) && TiesById(s[1..])
  {
  }

  lemma TailElements(s: seq<Book>)
    requires s != []
    ensures multiset(s[1..]) == multiset(s) - multiset{s[0]}
  {
    assert s == [s[0]] + s[1..];
  }

  /** Putting in front a book that is below every book of an ordered list,
      in key and, on equal keys, in id, keeps the list ordered. */
  lemma PrependOrdered(x: Book, t: seq<Book>)
    requires SortedByKey(t) && TiesById(t)
    requires forall y :: y in t ==> SortKey(x) <= SortKey(y)
    requires forall y :: y in t && SortKey(x) == SortKey(y) ==> x.id < y.id
    ensures SortedByKey([x] + t) && TiesById([x] + t)
  {
    forall j | 0 < j < |t| + 1
      ensures ([x] + t)[j] in t
    {
      assert ([x] + t)[j] == t[j - 1];
    }
  }

  lemma {:induction false} InsertOrdered(b: Book, s: seq<Book>)
    requires SortedByKey(s) && TiesById(s)
    requires forall x :: x in s ==> b.id < x.id
    ensures SortedByKey(Insert(b, s)) && TiesById(Insert(b, s))
  {
    if s == [] || SortKey(b) <= SortKey(s[0]) {
      forall y | y in s
        ensures SortKey(b) <= SortKey(y)
      {
        var j :| 0 <= j < |s| && s[j] == y;
      }
      PrependOrdered(b, s);
    } else {
      TailOrdered(s);
      var t := Insert(b, s[1..]);
      InsertOrdered(b, s[1..]);
      forall x | x in t
        ensures SortKey(s[0]) <= SortKey(x)
        ensures SortKey(s[0]) == SortKey(x) ==> s[0].id < x.id
      {
        assert x in multiset(t);
        if x != b {
          var j :| 1 <= j < |s| && s[j] == x;
        }
      }
      PrependOrdered(s[0], t);
    }
  }

  /** Inserting into a list sorted by the key keeps it sorted, whatever
      the ids. */
  lemma {:induction false} InsertSorted(b: Book, s: seq<Book>)
    requires SortedByKey(s)
    ensures SortedByKey(Insert(b, s))
  {
    if s == [] || SortKey(b) <= SortKey(s[0]) {
      forall j | 0 < j < |s| + 1
        ensures SortKey(b) <= SortKey(([b] + s)[j])
      {
        assert ([b] + s)[j] == s[j - 1];
      }
    } else {
      var t := Insert(b, s[1..]);
      InsertSorted(b, s[1..]);
      forall x | x in t
        ensures SortKey(s[0]) <= SortKey(x)
      {
        assert x in multiset(t);
        if x != b {
          var j :| 1 <= j < |s| && s[j] == x;
        }
      }
      forall j | 0 < j < |t| + 1
        ensures ([s[0]] + t)[j] in t
      {
        assert ([s[0]] + t)[j] == t[j - 1];
      }
    }
  }

  /** The sort is non-decreasing by review on every input. */
  lemma {:induction false} SortByReviewSorted(s: seq<Book>)
    ensures SortedByKey(SortByReview(s))
  {
    if s != [] {
      SortByReviewSorted(s[1..]);
      InsertSorted(s[0], SortByReview(s[1..]));
    }
  }

  /** Sorting rows kept in increasing id order gives a list that is
      non-decreasing by review, with ties still in increasing id order (the
      input order, since the sort is stable). */
  lemma {:induction false} SortByReviewOrdered(s: seq<Book>)
    requires IdsIncreasing(s)
    ensures SortedByKey(SortByReview(s)) && TiesById(SortByReview(s))
  {
    if s != [] {
      var t := SortByReview(s[1..]);
      SortByReviewOrdered(s[1..]);
      forall x | x in t
        ensures s[0].id < x.id
      {
        assert x in multiset(s[1..]);
      }
      InsertOrdered(s[0], t);
    }
  }

  /** Under the field constraint every unreviewed book comes before every
      reviewed one in a list sorted by the key. */
  lemma UnreviewedFirst(s: seq<Book>)
    requires SortedByKey(s)
    requires forall i :: 0 <= i < |s| ==> ValidBook(s[i])
    ensures forall i, j :: 0 <= i < |s| && 0 <= j < |s| && s[i].review.None? && s[j].review.Some? ==> i < j
  {
  }

  /** The first book of a list ordered by key with ties by id is below every
      other book of it in that order. */
  lemma FirstIsLeast(s: seq<Book>, x: Book)
    requires s != [] && SortedByKey(s) && TiesById(s)
    requires x in s && x != s[0]
    ensures SortKey(s[0]) <= SortKey(x)
    ensures SortKey(s[0]) == SortKey(x) ==> s[0].id < x.id
  {
    var j :| 0 <= j < |s| && s[j] == x;
    assert j != 0;
  }

  /** Two lists with the same elements, both ordered by key with ties by
      id, start with the same book. */
  lemma SameLeast(a: seq<Book>, b: seq<Book>)
    requires a != [] && b != []
    requires a[0] in b && b[0] in a
    requires SortedByKey(a) && TiesById(a)
    requires SortedByKey(b) && TiesById(b)
    ensures a[0] == b[0]
  {
    if a[0] != b[0] {
      FirstIsLeast(a, b[0]);
      FirstIsLeast(b, a[0]);
      assert false;
    }
  }

  /** Ordering by key with ties by id determines the list completely: any
      permutation of `a` ordered that way is `a` itself. Hence the sort of
      the stored rows is the one ordering a stable sort by review yields. */
  lemma {:induction false} OrderedPermutationUnique(a: seq<Book>, b: seq<Book>)
    requires multiset(a) == multiset(b)
    requires SortedByKey(a) && TiesById(a)
    requires SortedByKey(b) && TiesById(b)
    ensures a == b
  {
    if a == [] {
      assert |b| == |multiset(b)| == 0;
    } else {
      assert |b| == |multiset(b)| == |multiset(a)| == |a|;
      assert a[0] in multiset(b) && b[0] in multiset(a);
      SameLeast(a, b);
      var a', b' := a[1..], b[1..];
      TailElements(a);
      TailElements(b);
      TailOrdered(a);
      TailOrdered(b);
      OrderedPermutationUnique(a', b');
    }
  }

  /** The reference property of the sort: a permutation of rows kept in
      increasing id order that is non-decreasing by review, with ties by id,
      is exactly what `SortByReview` returns. */
  lemma SortByReviewCharacterized(s: seq<Book>, r: seq<Book>)
    requires IdsIncreasing(s)
    requires multiset(r) == multiset(s) && SortedByKey(r) && TiesById(r)
    ensures r == SortByReview(s)
  {
    SortByReviewOrdered(s);
    OrderedPermutationUnique(r, SortByReview(s));
  }
}
