/**
 * The entities shared by the bookstore's handlers: registered users, books with
 * their per-user reviews, the authorization record a login stores in the session,
 * and the HTTP response every handler produces.
 */
module Types {
  import opened Wrappers

  /** An entry of the in-memory user list: a username and its password, kept in plain text. */
  datatype User = User(username: string, password: string)

  /**
   * A catalog entry. `reviews` maps a username to that user's review text; a book
   * whose seed record has no `reviews` object has `None`.
   */
  datatype Book = Book(author: string, title: string, reviews: Option<map<string, string>>)

  /** The reviews of a book, an absent `reviews` object read as the empty map. */
  function ReviewsOf(b: Book): map<string, string> {
    b.reviews.GetOr(map[])
  }

  /**
   * What a successful login stores as `req.session.authorization`. A field that
   * is absent from the record is modelled as the empty string: both are falsy.
   */
  datatype Authorization = Authorization(accessToken: string, username: string)

  /** A book found by an author or title query, together with the ISBN key it is stored under. */
  datatype Match = Match(isbn: string, book: Book)

  /** The JSON body of a response beyond its `message`. */
  datatype Payload =
    | NoPayload
    | IssuedToken(token: string)
    | OneBook(book: Book)
    | Matches(matches: seq<Match>)
    | ReviewMap(reviews: map<string, string>)

  /**
   * A handler's answer: HTTP status, the `message` field of the JSON body (empty
   * for the GET handlers, which send the serialised data alone) and the payload.
   */
  datatype Response = Response(status: int, message: string, payload: Payload)

  /** A request field that is present and not the empty string, the only falsy string. */
  predicate Present(field: Option<string>) {
    field.Some? && field.value != ""
  }

  /** The 404 message of every handler that looks a book up by ISBN. */
  function NoBook(isbn: string): string {
    "No book found for ISBN " + isbn
  }

  /**
   * The properties every plain JavaScript object inherits from `Object.prototype`.
   * Reading one of them from a `reviews` object that has no own entry of that
   * name yields a function or an object, a truthy value.
   */
  const ObjectPrototypeNames: set<string> := {
    "constructor", "__proto__", "hasOwnProperty", "isPrototypeOf", "propertyIsEnumerable",
    "toLocaleString", "toString", "valueOf",
    "__defineGetter__", "__defineSetter__", "__lookupGetter__", "__lookupSetter__"
  }

  /**
   * The one inherited name whose assignment is intercepted: storing a string
   * under `__proto__` runs the inherited setter, which ignores a non-object, so
   * nothing is stored unless the object has an own entry of that name.
   */
  const ProtoKey := "__proto__"

  /**
   * Whether reading key `u` of the object `m` gives a truthy value: an own entry
   * shadows the inherited property of the same name, and is truthy when non-empty.
   */
  function TruthyEntry(m: map<string, string>, u: string): (b: bool)
    ensures u !in ObjectPrototypeNames ==> (b <==> u in m && m[u] != "")
    ensures u in m ==> (b <==> m[u] != "")
    ensures u in ObjectPrototypeNames && u !in m ==> b
    ensures m == map[] ==> (b <==> u in ObjectPrototypeNames)
  {
    if u in m then m[u] != "" else u in ObjectPrototypeNames
  }

  /** The object `m` after assigning `text` to its key `u`. */
  function Assign(m: map<string, string>, u: string, text: string): (r: map<string, string>)
    ensures u != ProtoKey || u in m ==> r == m[u := text]
    ensures u == ProtoKey && u !in m ==> r == m
    ensures forall k :: k in m && k != u ==> k in r && r[k] == m[k]
    ensures forall k :: k in r ==> k in m || k == u
  {
    if u == ProtoKey && u !in m then m else m[u := text]
  }

  /** Every stored review text is non-empty. */
  ghost predicate ReviewsNonEmpty(books: map<string, Book>) {
    forall isbn, u :: isbn in books && u in ReviewsOf(books[isbn]) ==> ReviewsOf(books[isbn])[u] != ""
  }

  /** The books of `after` are those of `before`, except possibly the one under `isbn`, and author and title never change. */
  ghost predicate OnlyReviewsOf(before: map<string, Book>, after: map<string, Book>, isbn: string) {
    && after.Keys == before.Keys
    && (forall k :: k in before && k != isbn ==> after[k] == before[k])
    && (isbn in before ==> after[isbn].author == before[isbn].author && after[isbn].title == before[isbn].title)
  }
}
