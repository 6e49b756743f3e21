/**
 * The public catalog queries: lookup by ISBN, case-insensitive exact match on
 * author or title over the ISBN keys in their enumeration order, and the
 * reviews of one book. None of them changes anything.
 */
module Catalog {
  import opened Types

  /** Which book field an author or title query compares. */
  datatype Field = Author | Title

  function FieldOf(b: Book, f: Field): string {
    match f
    case Author => b.author
    case Title => b.title
  }

  /** ASCII lower-casing of one character. */
  function LowerChar(c: char): (d: char)
    ensures !('A' <= d <= 'Z')
    ensures 'A' <= c <= 'Z' ==> d as int == c as int + 32
    ensures !('A' <= c <= 'Z') ==> d == c
  {
    if 'A' <= c <= 'Z' then (c as int + 32) as char else c
  }

  /** `String.prototype.toLowerCase`, restricted to ASCII letters. */
  function Lower(s: string): (r: string)
    ensures |r| == |s|
    ensures forall i :: 0 <= i < |r| ==> !('A' <= r[i] <= 'Z')
    ensures forall i :: 0 <= i < |s| && !('A' <= s[i] <= 'Z') ==> r[i] == s[i]
    ensures forall i :: 0 <= i < |s| && 'A' <= s[i] <= 'Z' ==> r[i] as int == s[i] as int + 32
  {
    seq(|s|, i requires 0 <= i < |s| => LowerChar(s[i]))
  }

  /** Lower-casing an already lower-cased string changes nothing. */
  lemma LowerIdempotent(s: string)
    ensures Lower(Lower(s)) == Lower(s)
  {
  }

  /** The keys are exactly those of `books`, each once: `Object.keys(books)`. */
  ghost predicate KeyOrder(keys: seq<string>, books: map<string, Book>) {
    && (forall i :: 0 <= i < |keys| ==> keys[i] in books)
    && (forall k :: k in books ==> k in keys)
    && Distinct(keys)
  }

  ghost predicate Distinct(keys: seq<string>) {
    forall i, j :: 0 <= i < j < |keys| ==> keys[i] != keys[j]
  }

  /** The position of `k` in `keys`: its first occurrence. */
  function IndexOf(keys: seq<string>, k: string): (i: nat)
    requires k in keys
    ensures i < |keys| && keys[i] == k
    ensures forall j :: 0 <= j < i ==> keys[j] != k
  {
    if keys[0] == k then 0 else 1 + IndexOf(keys[1..], k)
  }

  /**
   * The keys, in order, whose book has the field equal to the query once both
   * are lower-cased, each paired with its book.
   */
  function MatchesOf(books: map<string, Book>, keys: seq<string>, field: Field, query: string): (r: seq<Match>)
    requires forall i :: 0 <= i < |keys| ==> keys[i] in books
    ensures |r| <= |keys|
    ensures forall i :: 0 <= i < |r| ==>
              && r[i].isbn in keys && r[i].isbn in books && r[i].book == books[r[i].isbn]
              && Lower(FieldOf(r[i].book, field)) == Lower(query)
    ensures forall i :: 0 <= i < |keys| && Lower(FieldOf(books[keys[i]], field)) == Lower(query) ==>
              Match(keys[i], books[keys[i]]) in r
  {
    if keys == [] then []
    else
      var k := keys[0];
      var rest := MatchesOf(books, keys[1..], field, query);
      assert forall i :: 1 <= i < |keys| ==> keys[i] == keys[1..][i - 1];
      if Lower(FieldOf(books[k], field)) == Lower(query) then [Match(k, books[k])] + rest else rest
  }

  /** Two queries with the same lower-cased form find the same books. */
  lemma {:induction false} MatchesIgnoreCase(books: map<string, Book>, keys: seq<string>, field: Field, q1: string, q2: string)
    requires forall i :: 0 <= i < |keys| ==> keys[i] in books
    requires Lower(q1) == Lower(q2)
    ensures MatchesOf(books, keys, field, q1) == MatchesOf(books, keys, field, q2)
  {
    if keys != [] {
      MatchesIgnoreCase(books, keys[1..], field, q1, q2);
    }
  }

  /** Every ISBN of `r` is a key, and the ISBNs of `r` occur in the order of `keys`. */
  ghost predicate InKeyOrder(r: seq<Match>, keys: seq<string>) {
    && (forall i :: 0 <= i < |r| ==> r[i].isbn in keys)
    && (forall i, j :: 0 <= i < j < |r| ==> IndexOf(keys, r[i].isbn) < IndexOf(keys, r[j].isbn))
  }

  /** The tail of a list of distinct keys is distinct and avoids the first key. */
  lemma {:induction false} DistinctTail(keys: seq<string>)
    requires |keys| > 0 && Distinct(keys)
    ensures Distinct(keys[1..])
    ensures keys[0] !in keys[1..]
  {
  }

  /** A list in the order of the tail, avoiding the first key, is in the order of all keys, past position 0. */
  lemma {:induction false} WidenKeyOrder(keys: seq<string>, r: seq<Match>)
    requires |keys| > 0
    requires InKeyOrder(r, keys[1..])
    requires keys[0] !in keys[1..]
    ensures InKeyOrder(r, keys)
    ensures forall m :: 0 <= m < |r| ==> IndexOf(keys, r[m].isbn) > 0
  {
  }

  /** Putting the match of the first key in front keeps key order. */
  lemma {:induction false} ConsKeyOrder(keys: seq<string>, first: Match, r: seq<Match>)
    requires |keys| > 0 && first.isbn == keys[0]
    requires InKeyOrder(r, keys)
    requires forall m :: 0 <= m < |r| ==> IndexOf(keys, r[m].isbn) > 0
    ensures InKeyOrder([first] + r, keys)
  {
  }

  /** The matches appear in key order, each key at most once. */
  lemma {:induction false} MatchesFollowKeyOrder(books: map<string, Book>, keys: seq<string>, field: Field, query: string)
    requires forall i :: 0 <= i < |keys| ==> keys[i] in books
    requires Distinct(keys)
    ensures InKeyOrder(MatchesOf(books, keys, field, query), keys)
  {
    if keys != [] {
      DistinctTail(keys);
      MatchesFollowKeyOrder(books, keys[1..], field, query);
      var rest := MatchesOf(books, keys[1..], field, query);
      WidenKeyOrder(keys, rest);
      if Lower(FieldOf(books[keys[0]], field)) == Lower(query) {
        ConsKeyOrder(keys, Match(keys[0], books[keys[0]]), rest);
      }
    }
  }

  /** `GET /isbn/:isbn`: the book when the key is known, otherwise 404. */
  function GetByIsbn(books: map<string, Book>, isbn: string): (r: Response)
    ensures r.status == 200 <==> isbn in books
    ensures isbn in books ==> r.message == "" && r.payload == OneBook(books[isbn])
    ensures isbn !in books ==> r == Response(404, NoBook(isbn), NoPayload)
  {
    if isbn !in books then Response(404, NoBook(isbn), NoPayload)
    else Response(200, "", OneBook(books[isbn]))
  }

  /** The handler shape shared by `GET /author/:author` and `GET /title/:title`. */
  function Lookup(books: map<string, Book>, keys: seq<string>, field: Field, query: string, notFound: string): (r: Response)
    requires KeyOrder(keys, books)
    ensures r.status == 200 || r == Response(404, notFound, NoPayload)
    ensures r.status == 200 <==> exists k :: k in books && Lower(FieldOf(books[k], field)) == Lower(query)
    ensures r.status == 200 ==> r.message == "" && r.payload == Matches(MatchesOf(books, keys, field, query))
  {
    var matches := MatchesOf(books, keys, field, query);
    assert (exists k :: k in books && Lower(FieldOf(books[k], field)) == Lower(query)) ==> matches != [] by {
      if exists k :: k in books && Lower(FieldOf(books[k], field)) == Lower(query) {
        var k :| k in books && Lower(FieldOf(books[k], field)) == Lower(query);
        var i :| 0 <= i < |keys| && keys[i] == k;
        assert Match(keys[i], books[keys[i]]) in matches;
      }
    }
    assert matches != [] ==> matches[0].isbn in books && Lower(FieldOf(books[matches[0].isbn], field)) == Lower(query);
    if matches == [] then Response(404, notFound, NoPayload) else Response(200, "", Matches(matches))
  }

  /** The 404 message of the author query, quoting the query as given. */
  function NoAuthorMatch(author: string): string {
    "No books found by author \"" + author + "\""
  }

  /** The 404 message of the title query, quoting the query as given. */
  function NoTitleMatch(title: string): string {
    "No books found with title \"" + title + "\""
  }

  /** `GET /author/:author`. */
  function GetByAuthor(books: map<string, Book>, keys: seq<string>, author: string): (r: Response)
    requires KeyOrder(keys, books)
    ensures r.status == 200 <==> exists k :: k in books && Lower(books[k].author) == Lower(author)
    ensures r.status != 200 ==> r == Response(404, NoAuthorMatch(author), NoPayload)
    ensures r.status == 200 ==> r.message == "" && r.payload == Matches(MatchesOf(books, keys, Author, author))
  {
    Lookup(books, keys, Author, author, NoAuthorMatch(author))
  }

  /** `GET /title/:title`. */
  function GetByTitle(books: map<string, Book>, keys: seq<string>, title: string): (r: Response)
    requires KeyOrder(keys, books)
    ensures r.status == 200 <==> exists k :: k in books && Lower(books[k].title) == Lower(title)
    ensures r.status != 200 ==> r == Response(404, NoTitleMatch(title), NoPayload)
    ensures r.status == 200 ==> r.message == "" && r.payload == Matches(MatchesOf(books, keys, Title, title))
  {
    Lookup(books, keys, Title, title, NoTitleMatch(title))
  }

  /** Author and title queries that differ only in ASCII case get the same status and the same books. */
  lemma LookupIgnoresCase(books: map<string, Book>, keys: seq<string>, field: Field, q1: string, q2: string, m1: string, m2: string)
    requires KeyOrder(keys, books)
    requires Lower(q1) == Lower(q2)
    ensures Lookup(books, keys, field, q1, m1).status == Lookup(books, keys, field, q2, m2).status
    ensures Lookup(books, keys, field, q1, m1).status == 200 ==>
              Lookup(books, keys, field, q1, m1).payload == Lookup(books, keys, field, q2, m2).payload
  {
    MatchesIgnoreCase(books, keys, field, q1, q2);
  }

  /** A query and its lower-cased form get the same status and the same books. */
  lemma LookupLowerQuery(books: map<string, Book>, keys: seq<string>, field: Field, query: string, m1: string, m2: string)
    requires KeyOrder(keys, books)
    ensures Lookup(books, keys, field, query, m1).status == Lookup(books, keys, field, Lower(query), m2).status
    ensures Lookup(books, keys, field, query, m1).status == 200 ==>
              Lookup(books, keys, field, query, m1).payload == Lookup(books, keys, field, Lower(query), m2).payload
  {
    LowerIdempotent(query);
    LookupIgnoresCase(books, keys, field, query, Lower(query), m1, m2);
  }

  /** `GET /review/:isbn`: the book's reviews (the empty map when it has none), or 404. */
  function GetReviews(books: map<string, Book>, isbn: string): (r: Response)
    ensures r.status == 200 <==> isbn in books
    ensures isbn in books ==> r.message == "" && r.payload == ReviewMap(if books[isbn].reviews.Some? then books[isbn].reviews.value else map[])
    ensures isbn !in books ==> r == Response(404, NoBook(isbn), NoPayload)
  {
    if isbn !in books then Response(404, NoBook(isbn), NoPayload)
    else Response(200, "", ReviewMap(ReviewsOf(books[isbn])))
  }
}
