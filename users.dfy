/** The credential list kept under the `users` key and the session marker kept
    under `loggedInUser`, with registration, login and logout. */
module Users {
  import opened Wrappers

  datatype User = User(username: string, password: string)

  /** What the register form reports. */
  datatype RegisterOutcome = MissingField | AlreadyExists | Registered

  /** `users.some(user => user.username === name)`. */
  predicate NameTaken(users: seq<User>, name: string)
  {
    exists i :: 0 <= i < |users| && users[i].username == name
  }

  predicate UniqueNames(users: seq<User>)
  {
    forall i, j :: 0 <= i < j < |users| ==> users[i].username != users[j].username
  }

  /** `users.find(...)`: the first entry with both the given name and password.
      Such an entry is that very pair, so the search succeeds exactly when the
      pair was registered. */
  function Find(users: seq<User>, name: string, password: string): (r: Option<User>)
    ensures r == if User(name, password) in users then Some(User(name, password)) else None
  {
    if users == [] then None
    else if users[0].username == name && users[0].password == password then Some(users[0])
    else
      assert users == [users[0]] + users[1..];
      Find(users[1..], name, password)
  }

  class Registry {
    /** The stored credential list; a missing key reads as the empty list. */
    var users: seq<User>
    /** The stored session marker. */
    var loggedInUser: Option<User>

    constructor (stored: seq<User>, session: Option<User>)
      ensures users == stored && loggedInUser == session
    {
      users := stored;
      loggedInUser := session;
    }

    /** `registerUser`: a taken name is refused and the list is kept; otherwise
        exactly one entry is appended. */
    method RegisterUser(username: string, password: string) returns (registered: bool)
      modifies this`users
      ensures registered == !NameTaken(old(users), username)
      ensures users == if registered then old(users) + [User(username, password)] else old(users)
      ensures UniqueNames(old(users)) ==> UniqueNames(users)
    {
      if NameTaken(users, username) {
        return false;
      }
      users := users + [User(username, password)];
      registered := true;
    }

    /** The register form's submit handler: both fields must be filled in. */
    method SubmitRegisterForm(username: string, password: string) returns (outcome: RegisterOutcome)
      modifies this`users
      ensures outcome == MissingField <==> username == "" || password == ""
      ensures outcome == Registered <==> username != "" && password != "" && !NameTaken(old(users), username)
      ensures users == if outcome == Registered then old(users) + [User(username, password)] else old(users)
    {
      if username != "" && password != "" {
        var registered := RegisterUser(username, password);
        outcome := if registered then Registered else AlreadyExists;
      } else {
        outcome := MissingField;
      }
    }

    /** `loginUser`: the matching entry becomes the session; a failed login
        leaves the session as it was. */
    method LoginUser(username: string, password: string) returns (ok: bool)
      modifies this`loggedInUser
      ensures ok <==> User(username, password) in users
      ensures loggedInUser == if ok then Some(User(username, password)) else old(loggedInUser)
    {
      var user := Find(users, username, password);
      if user.Some? {
        loggedInUser := user;
        ok := true;
      } else {
        ok := false;
      }
    }

    /** `logout`: the session marker is removed. */
    method Logout()
      modifies this`loggedInUser
      ensures loggedInUser == None
    {
      loggedInUser := None;
    }
  }
}
