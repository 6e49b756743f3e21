/**
 * The two authenticated review handlers, PUT and DELETE on
 * /customer/auth/review/:isbn, as functions from the catalog and the session's
 * authorization record to the response and the new catalog. A book's `reviews`
 * is a JavaScript object, so an entry is read, written and tested the way such
 * an object behaves, inherited `Object.prototype` properties included.
 */
module Reviews {
  import opened Wrappers
  import opened Types

  const NotLoggedIn := "Not logged in."
  const MissingReview := "Please provide a review via ?review=..."
  const Added := "Review added."
  const Updated := "Review updated."
  const NoOwnReview := "You have not posted a review for this book."
  const Deleted := "Your review was deleted."

  /** The username of the session's authorization record, when there is a record and its username is non-empty. */
  function SessionUser(auth: Option<Authorization>): (u: Option<string>)
    ensures u.Some? <==> auth.Some? && auth.value.username != ""
    ensures u.Some? ==> u.value == auth.value.username
  {
    if auth.Some? && auth.value.username != "" then Some(auth.value.username) else None
  }

  /**
   * PUT: 403 without a session user, then 404 for an unknown ISBN, then 400 for
   * a missing or empty text; otherwise `text` is assigned to the session user's
   * key of that book's reviews (a book without a reviews object first gets an
   * empty one). The message says "updated" when the object had an own entry for
   * the user before.
   */
  function Put(books: map<string, Book>, auth: Option<Authorization>, isbn: string, text: Option<string>): (out: (Response, map<string, Book>))
    ensures out.0.status in {200, 400, 403, 404}
    ensures out.0.status == 403 <==> SessionUser(auth).None?
    ensures out.0.status == 404 <==> SessionUser(auth).Some? && isbn !in books
    ensures out.0.status == 400 <==> SessionUser(auth).Some? && isbn in books && !Present(text)
    ensures out.0.status != 200 ==> out.1 == books && out.0.payload == NoPayload
    ensures out.0.status == 403 ==> out.0.message == NotLoggedIn
    ensures out.0.status == 404 ==> out.0.message == NoBook(isbn)
    ensures out.0.status == 400 ==> out.0.message == MissingReview
    ensures out.0.status == 200 ==>
              var u := auth.value.username;
              && OnlyReviewsOf(books, out.1, isbn)
              && out.1[isbn].reviews.Some?
              && (u != ProtoKey || u in ReviewsOf(books[isbn]) ==>
                    ReviewsOf(out.1[isbn]) == ReviewsOf(books[isbn])[u := text.value])
              && (u == ProtoKey && u !in ReviewsOf(books[isbn]) ==>
                    ReviewsOf(out.1[isbn]) == ReviewsOf(books[isbn]))
              && (out.0.message == Updated <==> u in ReviewsOf(books[isbn]))
              && (out.0.message == Added <==> u !in ReviewsOf(books[isbn]))
              && out.0.payload == ReviewMap(ReviewsOf(out.1[isbn]))
    ensures ReviewsNonEmpty(books) ==> ReviewsNonEmpty(out.1)
  {
    match SessionUser(auth)
    case None => (Response(403, NotLoggedIn, NoPayload), books)
    case Some(u) =>
      if isbn !in books then (Response(404, NoBook(isbn), NoPayload), books)
      else if !Present(text) then (Response(400, MissingReview, NoPayload), books)
      else
        var book := books[isbn];
        var reviews := ReviewsOf(book);
        var isUpdate := u in reviews;
        var updated := Assign(reviews, u, text.value);
        (Response(200, if isUpdate then Updated else Added, ReviewMap(updated)),
         books[isbn := book.(reviews := Some(updated))])
  }

  /**
   * DELETE's refusal test: the book has no reviews object, or reading the
   * user's key of it gives a falsy value.
   */
  predicate HasNoReviewBy(book: Book, u: string) {
    book.reviews.None? || !TruthyEntry(book.reviews.value, u)
  }

  /**
   * DELETE: 403 without a session user, then 404 for an unknown ISBN, then 404
   * when the user has no review there; otherwise the user's own entry, if any,
   * is removed, and no other entry changes.
   */
  function Delete(books: map<string, Book>, auth: Option<Authorization>, isbn: string): (out: (Response, map<string, Book>))
    ensures out.0.status in {200, 403, 404}
    ensures out.0.status == 403 <==> SessionUser(auth).None?
    ensures out.0.status == 404 <==> SessionUser(auth).Some? && (isbn !in books || HasNoReviewBy(books[isbn], auth.value.username))
    ensures out.0.status != 200 ==> out.1 == books && out.0.payload == NoPayload
    ensures out.0.status == 403 ==> out.0.message == NotLoggedIn
    ensures out.0.status == 404 ==> out.0.message == if isbn in books then NoOwnReview else NoBook(isbn)
    ensures out.0.status == 200 ==>
              var u := auth.value.username;
              && OnlyReviewsOf(books, out.1, isbn)
              && out.1[isbn].reviews.Some?
              && (u in ReviewsOf(books[isbn]) || u in ObjectPrototypeNames)
              && ReviewsOf(out.1[isbn]) == ReviewsOf(books[isbn]) - {u}
              && out.0 == Response(200, Deleted, ReviewMap(ReviewsOf(out.1[isbn])))
    ensures ReviewsNonEmpty(books) ==> ReviewsNonEmpty(out.1)
  {
    match SessionUser(auth)
    case None => (Response(403, NotLoggedIn, NoPayload), books)
    case Some(u) =>
      if isbn !in books then (Response(404, NoBook(isbn), NoPayload), books)
      else
        var book := books[isbn];
        if HasNoReviewBy(book, u) then (Response(404, NoOwnReview, NoPayload), books)
        else
          var remaining := book.reviews.value - {u};
          (Response(200, Deleted, ReviewMap(remaining)), books[isbn := book.(reviews := Some(remaining))])
  }

  /**
   * While every stored text is non-empty, DELETE's refusal test is exactly "the
   * user has no entry", for every name that is not an inherited property.
   */
  lemma NoReviewIffNoEntry(books: map<string, Book>, isbn: string, u: string)
    requires ReviewsNonEmpty(books)
    requires isbn in books
    requires u !in ObjectPrototypeNames
    ensures HasNoReviewBy(books[isbn], u) <==> u !in ReviewsOf(books[isbn])
  {
  }

  /** After a successful PUT, a PUT by the same user answers "Review updated." and stores the newer text. */
  lemma PutAgainUpdates(books: map<string, Book>, auth: Option<Authorization>, isbn: string, t1: Option<string>, t2: Option<string>)
    requires Put(books, auth, isbn, t1).0.status == 200
    requires auth.value.username != ProtoKey
    requires Present(t2)
    ensures var (second, after) := Put(Put(books, auth, isbn, t1).1, auth, isbn, t2);
            && second.status == 200 && second.message == Updated
            && ReviewsOf(after[isbn])[auth.value.username] == t2.value
  {
  }

  /**
   * A user named `__proto__` without an own entry never gets one: every PUT
   * answers "Review added." and leaves the reviews as they were.
   */
  lemma ProtoPutStoresNothing(books: map<string, Book>, auth: Option<Authorization>, isbn: string, text: Option<string>)
    requires Put(books, auth, isbn, text).0.status == 200
    requires auth.value.username == ProtoKey && ProtoKey !in ReviewsOf(books[isbn])
    ensures var (resp, after) := Put(books, auth, isbn, text);
            && resp.message == Added
            && ReviewsOf(after[isbn]) == ReviewsOf(books[isbn])
            && ProtoKey !in ReviewsOf(after[isbn])
  {
  }

  /** After a successful DELETE, a second DELETE by the same user answers 404 and changes nothing. */
  lemma DeleteAgainNotFound(books: map<string, Book>, auth: Option<Authorization>, isbn: string)
    requires Delete(books, auth, isbn).0.status == 200
    requires auth.value.username !in ObjectPrototypeNames
    ensures var after := Delete(books, auth, isbn).1;
            Delete(after, auth, isbn) == (Response(404, NoOwnReview, NoPayload), after)
  {
  }

  /**
   * A user whose name is an inherited property and who has no own entry passes
   * DELETE's test on any book with a reviews object: the answer is 200 "Your
   * review was deleted." and the reviews stay as they were.
   */
  lemma InheritedNameDeleteSucceeds(books: map<string, Book>, auth: Option<Authorization>, isbn: string)
    requires SessionUser(auth).Some? && auth.value.username in ObjectPrototypeNames
    requires isbn in books && books[isbn].reviews.Some? && auth.value.username !in books[isbn].reviews.value
    ensures Delete(books, auth, isbn) == (Response(200, Deleted, ReviewMap(books[isbn].reviews.value)), books)
  {
    var m := books[isbn].reviews.value;
    assert m - {auth.value.username} == m;
    assert books[isbn := books[isbn].(reviews := Some(m))] == books;
  }

  /**
   * A successful DELETE keeps the book's reviews object, even when it empties
   * it, so a later DELETE by an inherited name without an own entry still
   * passes the refusal test and answers 200.
   */
  lemma DeleteKeepsReviewsObject(books: map<string, Book>, a1: Option<Authorization>, a2: Option<Authorization>, isbn: string)
    requires Delete(books, a1, isbn).0.status == 200
    requires SessionUser(a2).Some? && a2.value.username in ObjectPrototypeNames
    requires a2.value.username !in ReviewsOf(Delete(books, a1, isbn).1[isbn])
    ensures Delete(Delete(books, a1, isbn).1, a2, isbn).0.status == 200
  {
  }

  /**
   * Adding a review and then deleting it leaves the book's reviews as they were
   * (an absent reviews object has become an empty one).
   */
  lemma PutThenDeleteRestores(books: map<string, Book>, auth: Option<Authorization>, isbn: string, text: Option<string>)
    requires Put(books, auth, isbn, text).0.message == Added
    ensures var (resp, after) := Delete(Put(books, auth, isbn, text).1, auth, isbn);
            && resp.status == 200
            && after.Keys == books.Keys
            && (forall k :: k in books && k != isbn ==> after[k] == books[k])
            && after[isbn] == books[isbn].(reviews := Some(ReviewsOf(books[isbn])))
  {
    var u := auth.value.username;
    var mid := Put(books, auth, isbn, text).1;
    assert ReviewsOf(mid[isbn]) - {u} == ReviewsOf(books[isbn]);
  }
}
