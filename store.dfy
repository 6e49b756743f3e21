/**
 * The server's shared state and the handlers that change it in place: the user
 * list that `/register` pushes to, the catalog whose `reviews` objects PUT and
 * DELETE edit, and the session's authorization record that login writes. The
 * authenticated review routes run behind the `auth` middleware.
 */
module Store {
  import opened Wrappers
  import opened Types
  import Users
  import Catalog
  import Reviews
  import Auth

  class Bookstore {
    /** The in-memory `users` array shared by both routers. */
    var users: seq<User>
    /** The catalog, keyed by ISBN. */
    var books: map<string, Book>
    /** `req.session.authorization` of the one session modelled. */
    var session: Option<Authorization>
    /** `Object.keys(books)`: the ISBNs in their enumeration order. No handler adds or removes a book. */
    const isbns: seq<string>

    /**
     * Names are unique; the key order lists the catalog; every stored review
     * text is non-empty; a stored authorization names a registered user.
     */
    ghost predicate Valid()
      reads this
    {
      && Users.NamesUnique(users)
      && Catalog.KeyOrder(isbns, books)
      && ReviewsNonEmpty(books)
      && (session.Some? ==> session.value.username != "" && Users.IsValid(users, session.value.username))
    }

    /** The server at start-up: the seed catalog, no users, no session. */
    constructor (seed: map<string, Book>, keys: seq<string>)
      requires Catalog.KeyOrder(keys, seed)
      requires ReviewsNonEmpty(seed)
      ensures Valid()
      ensures users == [] && books == seed && session == None && isbns == keys
    {
      users := [];
      books := seed;
      session := None;
      isbns := keys;
    }

    /** `POST /register`. */
    method Register(username: Option<string>, password: Option<string>) returns (resp: Response)
      requires Valid()
      modifies this`users
      ensures Valid()
      ensures (resp, users) == Users.Register(old(users), username, password)
    {
      if !Present(username) || !Present(password) {
        return Response(400, Users.MissingFields, NoPayload);
      }
      if Users.FindByName(users, username.value).Some? {
        return Response(409, Users.NameTaken, NoPayload);
      }
      var entry := User(username.value, password.value);
      if session.Some? {
        Users.ValidAfterAppend(users, entry, session.value.username);
      }
      users := users + [entry];
      resp := Response(200, Users.Registered, NoPayload);
    }

    /** `POST /customer/login`; `issued` is the token the signer produced for this login. */
    method Login(username: Option<string>, password: Option<string>, issued: string) returns (resp: Response)
      requires Valid()
      modifies this`session
      ensures Valid()
      ensures (resp, session) == Auth.Login(users, old(session), username, password, issued)
    {
      if !Present(username) || !Present(password) {
        return Response(400, Users.MissingFields, NoPayload);
      }
      var user := Users.AuthenticatedUser(users, username.value, password.value);
      if user.None? {
        return Response(401, Auth.BadCredentials, NoPayload);
      }
      session := Some(Authorization(issued, username.value));
      resp := Response(200, Auth.LoggedIn, IssuedToken(issued));
    }

    /** The PUT review handler body, reached once the middleware has let the request through. */
    method PutReview(isbn: string, text: Option<string>) returns (resp: Response)
      requires Valid()
      modifies this`books
      ensures Valid()
      ensures (resp, books) == Reviews.Put(old(books), session, isbn, text)
    {
      if session.None? || session.value.username == "" {
        return Response(403, Reviews.NotLoggedIn, NoPayload);
      }
      var username := session.value.username;
      if isbn !in books {
        return Response(404, NoBook(isbn), NoPayload);
      }
      if !Present(text) {
        return Response(400, Reviews.MissingReview, NoPayload);
      }
      var book := books[isbn];
      if book.reviews.None? {
        book := book.(reviews := Some(map[]));
      }
      var isUpdate := username in book.reviews.value;
      book := book.(reviews := Some(Assign(book.reviews.value, username, text.value)));
      books := books[isbn := book];
      resp := Response(200, if isUpdate then Reviews.Updated else Reviews.Added, ReviewMap(book.reviews.value));
      assert (resp, books) == Reviews.Put(old(books), session, isbn, text);
    }

    /** The DELETE review handler body, reached once the middleware has let the request through. */
    method DeleteReview(isbn: string) returns (resp: Response)
      requires Valid()
      modifies this`books
      ensures Valid()
      ensures (resp, books) == Reviews.Delete(old(books), session, isbn)
    {
      if session.None? || session.value.username == "" {
        return Response(403, Reviews.NotLoggedIn, NoPayload);
      }
      var username := session.value.username;
      if isbn !in books {
        return Response(404, NoBook(isbn), NoPayload);
      }
      var book := books[isbn];
      if Reviews.HasNoReviewBy(book, username) {
        return Response(404, Reviews.NoOwnReview, NoPayload);
      }
      book := book.(reviews := Some(book.reviews.value - {username}));
      books := books[isbn := book];
      resp := Response(200, Reviews.Deleted, ReviewMap(book.reviews.value));
      assert (resp, books) == Reviews.Delete(old(books), session, isbn);
    }

    /**
     * `PUT /customer/auth/review/:isbn` as the server runs it: the middleware
     * first; a 403 from it ends the request with the catalog untouched;
     * otherwise `user` is the decoded payload and the handler runs.
     */
    method AuthorizedPutReview<D>(isbn: string, text: Option<string>, verify: string -> Option<D>)
      returns (resp: Response, user: Option<D>)
      requires Valid()
      modifies this`books
      ensures Valid()
      ensures match Auth.Gate(session, verify)
              case Forbidden(m) => resp == Response(403, m, NoPayload) && user == None && books == old(books)
              case Pass(d) => user == Some(d) && (resp, books) == Reviews.Put(old(books), session, isbn, text)
    {
      var decision := Auth.Gate(session, verify);
      if decision.Forbidden? {
        return Response(403, decision.message, NoPayload), None;
      }
      user := Some(decision.decoded);
      resp := PutReview(isbn, text);
    }

    /** `DELETE /customer/auth/review/:isbn` as the server runs it, behind the middleware. */
    method AuthorizedDeleteReview<D>(isbn: string, verify: string -> Option<D>)
      returns (resp: Response, user: Option<D>)
      requires Valid()
      modifies this`books
      ensures Valid()
      ensures match Auth.Gate(session, verify)
              case Forbidden(m) => resp == Response(403, m, NoPayload) && user == None && books == old(books)
              case Pass(d) => user == Some(d) && (resp, books) == Reviews.Delete(old(books), session, isbn)
    {
      var decision := Auth.Gate(session, verify);
      if decision.Forbidden? {
        return Response(403, decision.message, NoPayload), None;
      }
      user := Some(decision.decoded);
      resp := DeleteReview(isbn);
    }
  }
}
