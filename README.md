# Bookstore review service: a Dafny model of its handlers

The service is a small Express bookstore. Anyone may register, browse the
catalog by ISBN, author or title, and read a book's reviews. A user who has
logged in may add, overwrite or delete their own review of a book. This project
models the logic of those handlers with the HTTP plumbing taken away, and
proves what they promise:

- **User directory** (`users.dfy`, module `Users`). The shared `users` list,
  the `isValid` and `authenticatedUser` scans, and `/register`. Registration
  keeps usernames unique.
- **Catalog queries** (`catalog.dfy`, module `Catalog`). These are pure
  lookups over the ISBN keys, taken in their enumeration order. The author and
  title queries compare lower-cased strings. Each match is tagged with its ISBN
  and the matches follow key order.
- **Review mutation** (`reviews.dfy`, module `Reviews`). PUT and DELETE on one
  book's `reviews` map. Each has a fixed error ladder, changes nothing else,
  and keeps every stored text non-empty.
- **Auth gate** (`auth.dfy`, module `Auth`). The login handler that writes
  the session's authorization record. The `auth` middleware that answers 403
  or lets the request through.
- **Server state** (`store.dfy`, class `Store.Bookstore`). Fields for the user
  list, the catalog and the session record. The state-changing handlers are
  methods that update these fields in place, and each is proved equal to its
  pure counterpart applied to the old state. `Valid()` is the invariant every
  method keeps:
  - names are unique;
  - the key order lists the catalog;
  - no stored review text is empty;
  - a stored session names a registered user.
  `AuthorizedPutReview` and `AuthorizedDeleteReview` run the middleware before
  the handler, as the server mounts it.

Every handler returns a `Response`: the status, the `message` field and a
payload. The GET handlers send bare data, so their message is empty.

Request fields (`username`, `password`, `?review=`) are `Option<string>`. The
handlers only test them for truthiness, so "missing" and "empty" behave the
same. A field of the stored authorization record that is absent is modelled
as the empty string.

Two things outside the model are passed in as parameters:

- `issued` is the token that `jwt.sign` produced for a login;
- `verify` is the JWT verifier, a function from a token to its decoded payload
  (`None` when the signature is bad or the token has expired).

Some observations from the code:

- The middleware passes the decoded payload on as `req.user`, but the review
  handlers never read it. They use the session's `username`. The model does the
  same.
- A failed login leaves an earlier session in place (`Auth.FailedLoginKeepsGate`).
- A book's `reviews` is a JavaScript object, and the model follows that
  object's behaviour. DELETE refuses with 404 when reading the user's key gives
  a falsy value. For an ordinary username this is the same as "no entry",
  because every stored text is non-empty (`Reviews.NoReviewIffNoEntry`).
  Usernames that name an inherited `Object.prototype` property behave
  differently:
  - For a user named, say, `constructor` who has no entry, the inherited
    property is truthy. DELETE then answers 200 "Your review was deleted." and
    removes nothing (`Reviews.InheritedNameDeleteSucceeds`).
  - For a user named `__proto__`, the assignment in PUT goes to the inherited
    setter, which ignores a string. PUT then answers "Review added." every time
    and stores nothing (`Reviews.ProtoPutStoresNothing`).
  - Registration accepts such names, so both cases can be reached.

## Model

| member | source | states |
|---|---|---|
| Users.IsValid | final_project/router/auth_users.js:11-13 | true exactly when some entry of the list has the given username |
| Users.FindByName | final_project/router/general.js:14 | finds an entry exactly when the name is registered; what it finds is the first entry with that name |
| Users.AuthenticatedUser | final_project/router/auth_users.js:16-18 | returns the pair itself when some entry equals (username, password); otherwise none |
| Users.Register | final_project/router/general.js:9-19 | a missing or empty field gives 400 and a taken name gives 409, both with the list unchanged; otherwise 200 with exactly one `{username, password}` appended; a list with unique names keeps them unique |
| Users.RegisterTwiceConflicts | final_project/router/general.js:14-17 | after a successful registration, registering the same name again gets 409 |
| Users.RegisterThenAuthenticates | final_project/router/general.js:14-18 | after a successful registration, the new pair authenticates |
| Types.TruthyEntry | final_project/router/auth_users.js:101 | reading a user's key of a reviews object is truthy exactly when the own entry is non-empty, for every name that has one (an own entry shadows an inherited property); with no own entry, exactly when the key names an inherited `Object.prototype` property |
| Types.Assign | final_project/router/auth_users.js:76 | assigning a text to a user's key sets that entry and no other, except that `__proto__` without an own entry stores nothing |
| Catalog.Lower | final_project/router/general.js:38 | keeps the length, turns every ASCII capital into its own lower-case letter, and keeps every other character |
| Catalog.LowerIdempotent | final_project/router/general.js:38 | lower-casing twice is the same as lower-casing once |
| Catalog.MatchesOf | final_project/router/general.js:37-39 | each match carries its own ISBN key and that key's book, whose field equals the query up to case; every key whose book matches is in the result |
| Catalog.MatchesIgnoreCase | final_project/router/general.js:38 | two queries with the same lower-cased form give identical match lists |
| Catalog.MatchesFollowKeyOrder | final_project/router/general.js:37-39 | with distinct keys, matches appear in strictly increasing key position, so no key appears twice |
| Catalog.GetByIsbn | final_project/router/general.js:27-32 | 200 with the book and an empty message exactly when the ISBN is a key; otherwise 404 "No book found for ISBN …" |
| Catalog.Lookup | final_project/router/general.js:37-41 | 200 exactly when some book's field matches the query up to case, with an empty message and the match list as payload; otherwise the 404 message |
| Catalog.GetByAuthor | final_project/router/general.js:35-42 | 200 with the author matches exactly when some author equals the query up to case; otherwise 404 quoting the query |
| Catalog.GetByTitle | final_project/router/general.js:45-52 | the same as the author query, for titles |
| Catalog.LookupIgnoresCase | final_project/router/general.js:47-50 | author or title queries that differ only in case get the same status and the same books |
| Catalog.LookupLowerQuery | final_project/router/general.js:37-41 | a query and its lower-cased form get the same status and the same books, since lower-casing is idempotent |
| Catalog.GetReviews | final_project/router/general.js:55-60 | 200 with an empty message and the book's reviews, or the empty map when it has none, exactly when the ISBN is known; otherwise 404 |
| Reviews.SessionUser | final_project/router/auth_users.js:60-63 | the session's username when the authorization record exists and its username is non-empty |
| Reviews.Put | final_project/router/auth_users.js:56-82 | tries 403 (no session user), then 404 (unknown ISBN), then 400 (missing text), and no error changes the catalog; on 200 only this book's reviews change, and in them only the user's key, which is assigned the text (a string assigned to `__proto__` without an own entry is ignored); "Review updated." exactly when an own entry existed before; non-empty stored texts stay non-empty |
| Reviews.Delete | final_project/router/auth_users.js:88-111 | tries 403, then 404 for an unknown ISBN, then 404 when reading the user's key gives a falsy value (no reviews object, an empty own entry, or no own entry and no inherited property of that name), and no error changes the catalog; on 200 only the user's own entry, if any, is removed and the reviews object stays, even when emptied; non-empty stored texts stay non-empty |
| Reviews.NoReviewIffNoEntry | final_project/router/auth_users.js:101 | while stored texts are non-empty, DELETE's falsy test holds exactly when the user has no entry, for any name that is not an inherited property |
| Reviews.PutAgainUpdates | final_project/router/auth_users.js:74-79 | after a successful PUT by a user not named `__proto__`, another PUT by the same user answers "Review updated." and stores the newer text |
| Reviews.DeleteAgainNotFound | final_project/router/auth_users.js:101-105 | after a successful DELETE by a user whose name is not an inherited property, a second DELETE answers 404 and changes nothing |
| Reviews.ProtoPutStoresNothing | final_project/router/auth_users.js:74-79 | for a user named `__proto__` without an own entry, PUT answers "Review added." and leaves the reviews unchanged |
| Reviews.InheritedNameDeleteSucceeds | final_project/router/auth_users.js:101-110 | for a user whose name is an inherited property and who has no own entry, DELETE on a book with a reviews object answers 200 "Your review was deleted." and changes nothing |
| Reviews.DeleteKeepsReviewsObject | final_project/router/auth_users.js:101-105 | after a successful DELETE, even one that empties the reviews, a DELETE by an inherited name without an own entry still answers 200 |
| Reviews.PutThenDeleteRestores | final_project/router/auth_users.js:73-105 | adding a review and then deleting it restores the book's reviews and leaves every other book unchanged |
| Auth.Login | final_project/router/auth_users.js:27-48 | 400 for a missing field, then 401 when no exact pair is registered, both with the session unchanged; otherwise 200 with the token, and the session becomes `{accessToken, username}` for a registered name |
| Auth.Gate | final_project/index.js:13-32 | forbids with "User not logged in" without an authorization, then "Access token missing", then "Invalid or expired token"; passes with the decoded payload exactly when all three checks succeed |
| Auth.LoginOpensGate | final_project/index.js:14-30 | after a successful login whose token verifies, the gate passes and neither review handler answers 403 |
| Auth.FailedLoginKeepsGate | final_project/router/auth_users.js:29-36 | a failed login leaves the gate's decision on the earlier session unchanged |
| Store.Bookstore.constructor | final_project/router/auth_users.js:8 | the server starts with the seed catalog, no users and no session, in a valid state |
| Store.Bookstore.Register | final_project/router/general.js:9-19 | updates the user list in place exactly as `Users.Register` describes and keeps the invariant |
| Store.Bookstore.Login | final_project/router/auth_users.js:27-48 | writes the session record exactly as `Auth.Login` describes and keeps the invariant |
| Store.Bookstore.PutReview | final_project/router/auth_users.js:56-82 | edits the catalog in place exactly as `Reviews.Put` describes and keeps the invariant |
| Store.Bookstore.DeleteReview | final_project/router/auth_users.js:88-111 | edits the catalog in place exactly as `Reviews.Delete` describes and keeps the invariant |
| Store.Bookstore.AuthorizedPutReview | final_project/index.js:13-36 | a 403 from the middleware ends the request with the catalog unchanged; otherwise `req.user` is the decoded payload and the PUT handler runs |
| Store.Bookstore.AuthorizedDeleteReview | final_project/index.js:13-36 | the same for the DELETE handler |

## Left out

- The async endpoints (`/async/...`) are left out. They re-fetch the synchronous routes over loopback HTTP and add no logic of their own.
- `GET /`, which sends the whole catalog as JSON, is left out. It has no logic beyond serialisation.
- JSON serialisation, Express routing, `express.json` and `app.listen` are left out.
- The express-session store and its cookie are left out. The model holds one session's authorization record. The session object itself always exists on `/customer` routes, so "no session" and "no authorization" are one case.
- JWT signing, the secret and the one-hour expiry are left out. A login receives its token as the `issued` parameter. The middleware receives the verifier as the `verify` parameter, with nothing assumed about it.
- Catalog.Lower: lower-cases ASCII letters only. Unicode case mapping of `toLowerCase` is not modelled.
- `Object.keys` ordering rules are left out. The key order is given to the constructor (`isbns`), and the constructor requires it to list every ISBN exactly once.
- Store.Bookstore.constructor: requires that no seed review text is empty. The seed catalog file `booksdb.js` is not part of this model.
- Request values that are not strings are left out: JSON numbers or booleans in the body, and a repeated `?review=` that Express parses as an array.
- Catalog.GetByIsbn, Catalog.GetReviews, Reviews.Put, Reviews.Delete: ISBNs that name properties inherited from `Object.prototype` are left out. The catalog is a plain map of the seed's own keys. In JavaScript such an ISBN (`constructor`, for example) makes `books[isbn]` truthy and reaches an object that is not a book. Usernames that name such properties are modelled.
- Store.Bookstore.PutReview, Store.Bookstore.DeleteReview: equal `Reviews.Put` and `Reviews.Delete`, so they leave out the same inherited ISBNs.
- Reviews.Put, Reviews.Delete: the inherited names are the twelve properties of `Object.prototype` in current JavaScript engines (`ObjectPrototypeNames`). Properties added to `Object.prototype` at run time are not modelled.
- The `Array.isArray(users)` guards in `/register` are left out. `users` is always an array.
- Concurrency is left out. Handlers run one at a time, so races between requests are not modelled.
