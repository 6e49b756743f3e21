/**
 * The user directory: the shared `users` array, the `isValid` and
 * `authenticatedUser` scans over it, and the `/register` handler that appends to it.
 */
module Users {
  import opened Wrappers
  import opened Types

  const MissingFields := "Username and password are required."
  const NameTaken := "Username already exists."
  const Registered := "User registered successfully."

  /** No two entries share a username: the directory's one invariant. */
  ghost predicate NamesUnique(users: seq<User>) {
    forall i, j :: 0 <= i < j < |users| ==> users[i].username != users[j].username
  }

  /** `isValid`: whether some entry of the list has this username. */
  function IsValid(users: seq<User>, username: string): (b: bool)
    ensures b <==> exists i :: 0 <= i < |users| && users[i].username == username
  {
    if users == [] then false
    else if users[0].username == username then true
    else
      var rest := IsValid(users[1..], username);
      assert rest ==> exists i :: 0 <= i < |users| && users[i].username == username by {
        if rest {
          var i :| 0 <= i < |users[1..]| && users[1..][i].username == username;
          assert users[i + 1].username == username;
        }
      }
      rest
  }

  /** The name check of `/register`: the first entry of the list with this username, if any. */
  function FindByName(users: seq<User>, username: string): (r: Option<User>)
    ensures r.Some? <==> IsValid(users, username)
    ensures r.Some? ==> exists i :: 0 <= i < |users| && users[i] == r.value && r.value.username == username
                                    && forall j :: 0 <= j < i ==> users[j].username != username
  {
    if users == [] then None
    else if users[0].username == username then Some(users[0])
    else
      var r := FindByName(users[1..], username);
      assert r.Some? ==> exists i :: 0 <= i < |users| && users[i] == r.value && r.value.username == username
                                     && forall j :: 0 <= j < i ==> users[j].username != username by {
        if r.Some? {
          var i :| 0 <= i < |users[1..]| && users[1..][i] == r.value && r.value.username == username
                   && forall j :: 0 <= j < i ==> users[1..][j].username != username;
          assert users[i + 1] == r.value;
          forall j | 0 <= j < i + 1 ensures users[j].username != username {
            if j > 0 { assert users[j] == users[1..][j - 1]; }
          }
        }
      }
      r
  }

  /**
   * `authenticatedUser`: the first entry whose username and password both match.
   * An entry equal in both fields is the pair itself, so the first match is that pair.
   */
  function AuthenticatedUser(users: seq<User>, username: string, password: string): (r: Option<User>)
    ensures r == if User(username, password) in users then Some(User(username, password)) else None
  {
    if users == [] then None
    else if users[0].username == username && users[0].password == password then Some(users[0])
    else
      var r := AuthenticatedUser(users[1..], username, password);
      assert User(username, password) in users <==> User(username, password) in users[1..] by {
        assert users == [users[0]] + users[1..];
      }
      r
  }

  /**
   * `POST /register`: 400 when either field is missing or empty, 409 when the
   * name is taken, otherwise the pair is appended and the answer is 200.
   * Returns the response and the new user list.
   */
  function Register(users: seq<User>, username: Option<string>, password: Option<string>): (out: (Response, seq<User>))
    ensures !Present(username) || !Present(password) ==> out == (Response(400, MissingFields, NoPayload), users)
    ensures Present(username) && Present(password) && IsValid(users, username.value) ==>
              out == (Response(409, NameTaken, NoPayload), users)
    ensures out.0.status == 200 <==> Present(username) && Present(password) && !IsValid(users, username.value)
    ensures out.0.status == 200 ==>
              && out.0.message == Registered && out.0.payload == NoPayload
              && out.1 == users + [User(username.value, password.value)]
    ensures NamesUnique(users) ==> NamesUnique(out.1)
  {
    if !Present(username) || !Present(password) then
      (Response(400, MissingFields, NoPayload), users)
    else if FindByName(users, username.value).Some? then
      (Response(409, NameTaken, NoPayload), users)
    else
      (Response(200, Registered, NoPayload), users + [User(username.value, password.value)])
  }

  /** A name present before an append is still present after it. */
  lemma ValidAfterAppend(users: seq<User>, entry: User, username: string)
    requires IsValid(users, username)
    ensures IsValid(users + [entry], username)
  {
    var i :| 0 <= i < |users| && users[i].username == username;
    assert (users + [entry])[i].username == username;
  }

  /** Registering a name a second time is refused with 409, whatever the passwords. */
  lemma RegisterTwiceConflicts(users: seq<User>, username: Option<string>, p1: Option<string>, p2: Option<string>)
    requires Register(users, username, p1).0.status == 200
    requires Present(p2)
    ensures Register(Register(users, username, p1).1, username, p2).0.status == 409
  {
    var after := Register(users, username, p1).1;
    assert after[|users|].username == username.value;
  }

  /** Right after a successful registration the new pair authenticates. */
  lemma RegisterThenAuthenticates(users: seq<User>, username: Option<string>, password: Option<string>)
    requires Register(users, username, password).0.status == 200
    ensures AuthenticatedUser(Register(users, username, password).1, username.value, password.value)
            == Some(User(username.value, password.value))
  {
    var after := Register(users, username, password).1;
    assert after[|users|] == User(username.value, password.value);
  }
}
