/** The user records and the read-only operations on the user table: lookup by name,
    lookup by key, and login. */
module Users {
  import opened Wrappers
  import opened Exceptions
  import opened Crypto
  import Text
  import Credentials

  /** A row of the `Users` table. Dates are `DateTime` ticks. */
  datatype User = User(
    userId: int,
    name: string,
    email: string,
    passwordHash: seq<byte>,
    passwordSalt: seq<byte>,
    creationDate: int,
    lastLoginDate: int)

  /** The request body for creating or updating a user; the password may be null. */
  datatype UserDto = UserDto(name: string, email: string, password: Option<string>)

  /** `Users.Any(x => x.Name == name)`. */
  predicate Taken(users: seq<User>, name: string)
  {
    exists i :: 0 <= i < |users| && users[i].name == name
  }

  /** No two rows share a name. */
  predicate NamesUnique(users: seq<User>)
  {
    forall i, j :: 0 <= i < j < |users| ==> users[i].name != users[j].name
  }

  /** `Users.Where(x => x.Name == name)`, in table order. */
  function WithName(users: seq<User>, name: string): (r: seq<User>)
    ensures |r| <= |users|
    ensures forall u :: u in r <==> u in users && u.name == name
    ensures |r| == 0 <==> !Taken(users, name)
  {
    if |users| == 0 then []
    else
      var rest := WithName(users[1..], name);
      assert forall i :: 0 < i < |users| ==> users[i] == users[1..][i - 1];
      assert users == [users[0]] + users[1..];
      if users[0].name == name then [users[0]] + rest else rest
  }

  /** Two different rows carry the name. */
  predicate TakenTwice(users: seq<User>, name: string)
  {
    exists i, j :: 0 <= i < j < |users| && users[i].name == name && users[j].name == name
  }

  /** More than one row matches exactly when two different rows carry the name. */
  lemma {:induction false} WithNameTwice(users: seq<User>, name: string)
    ensures |WithName(users, name)| > 1 <==> TakenTwice(users, name)
  {
    if |users| > 0 {
      var rest := users[1..];
      TwiceSplit(users, name);
      WithNameTwice(rest, name);
      if users[0].name == name {
        assert |WithName(users, name)| == 1 + |WithName(rest, name)|;
      } else {
        assert |WithName(users, name)| == |WithName(rest, name)|;
      }
    }
  }

  /** Two rows carry the name when the first and a later one do, or two later ones do. */
  lemma TwiceSplit(users: seq<User>, name: string)
    requires |users| > 0
    ensures TakenTwice(users, name) <==>
              (users[0].name == name && Taken(users[1..], name)) || TakenTwice(users[1..], name)
  {
    var rest := users[1..];
    if TakenTwice(users, name) {
      var i, j :| 0 <= i < j < |users| && users[i].name == name && users[j].name == name;
      assert rest[j - 1] == users[j];
      if i > 0 {
        assert rest[i - 1] == users[i];
      }
    }
    if users[0].name == name && Taken(rest, name) {
      var j :| 0 <= j < |rest| && rest[j].name == name;
      assert users[j + 1] == rest[j];
    }
    if TakenTwice(rest, name) {
      var i, j :| 0 <= i < j < |rest| && rest[i].name == name && rest[j].name == name;
      assert users[i + 1] == rest[i] && users[j + 1] == rest[j];
    }
  }

  /** When names are unique, a taken name matches exactly one row. */
  lemma {:induction false} UniqueMatch(users: seq<User>, name: string)
    requires NamesUnique(users) && Taken(users, name)
    ensures |WithName(users, name)| == 1
  {
    var rest := users[1..];
    assert NamesUnique(rest) by {
      forall i, j | 0 <= i < j < |rest| ensures rest[i].name != rest[j].name {
        assert rest[i] == users[i + 1] && rest[j] == users[j + 1];
      }
    }
    if users[0].name == name {
      assert !Taken(rest, name) by {
        forall i | 0 <= i < |rest| ensures rest[i].name != name {
          assert rest[i] == users[i + 1];
        }
      }
    } else {
      var i :| 0 <= i < |users| && users[i].name == name;
      assert rest[i - 1] == users[i];
      UniqueMatch(rest, name);
    }
  }

  /** `Users.Find(id)`: the position of the row with that key, if any. */
  function IndexOfId(users: seq<User>, id: int): (r: Option<nat>)
    ensures r.Some? ==> r.value < |users| && users[r.value].userId == id
    ensures r.Some? ==> forall i :: 0 <= i < r.value ==> users[i].userId != id
    ensures r.None? <==> forall i :: 0 <= i < |users| ==> users[i].userId != id
  {
    if |users| == 0 then None
    else if users[0].userId == id then Some(0)
    else
      match IndexOfId(users[1..], id)
      case None => None
      case Some(k) => Some(k + 1)
  }

  /** The stored credential of a user checks against the password. */
  predicate Verifies(prim: Primitives, u: User, password: Option<string>)
  {
    Credentials.VerifyOutcome(prim, password, u.passwordHash, u.passwordSalt) == Success(true)
  }

  /** `LoginAsync`: `SingleOrDefault` by name (no row gives null, two or more throw), then
      `VerifyPasswordHash`, whose exceptions pass through; a false verdict gives null. */
  function Login(prim: Primitives, users: seq<User>, username: string, password: Option<string>): (r: Result<Option<User>, Exception>)
    ensures r.Success? && r.value.Some? ==>
              r.value.value in users && r.value.value.name == username && Verifies(prim, r.value.value, password)
    ensures !Taken(users, username) ==> r == Success(None)
    ensures (r.Failure? && r.error.InvalidOperationException?) <==> TakenTwice(users, username)
  {
    WithNameTwice(users, username);
    var matches := WithName(users, username);
    if |matches| == 0 then Success(None)
    else if |matches| > 1 then Failure(InvalidOperationException(MoreThanOneMatch))
    else
      var user := matches[0];
      match Credentials.VerifyOutcome(prim, password, user.passwordHash, user.passwordSalt)
      case Failure(e) => Failure(e)
      case Success(ok) => if ok then Success(Some(user)) else Success(None)
  }

  /** Login throws only for two rows with the name, or what verification throws: a blank
      password or a stored credential of the wrong length. */
  lemma LoginFailure(prim: Primitives, users: seq<User>, username: string, password: Option<string>)
    requires Login(prim, users, username, password).Failure?
    ensures TakenTwice(users, username)
            || Text.IsNullOrWhiteSpace(password)
            || exists u :: u in users && u.name == username && (|u.passwordHash| != HashSize || |u.passwordSalt| != KeySize)
  {
    WithNameTwice(users, username);
    var matches := WithName(users, username);
    if |matches| == 1 {
      assert matches[0] in matches;
    }
  }

  /** Under unique names, login with an existing user's name returns that user exactly when
      its credential verifies, and throws only what verification throws. */
  lemma {:induction false} LoginUnique(prim: Primitives, users: seq<User>, u: User, password: Option<string>)
    requires NamesUnique(users) && u in users
    ensures Login(prim, users, u.name, password).Success? ==>
              (Login(prim, users, u.name, password) == Success(Some(u)) <==> Verifies(prim, u, password))
    ensures Login(prim, users, u.name, password).Failure? ==>
              Credentials.VerifyOutcome(prim, password, u.passwordHash, u.passwordSalt).Failure?
  {
    var i :| 0 <= i < |users| && users[i] == u;
    UniqueMatch(users, u.name);
    var matches := WithName(users, u.name);
    assert matches[0] in matches;
    var j :| 0 <= j < |users| && users[j] == matches[0];
    assert users[j].name == users[i].name;
    assert j == i;
  }

  /** A user whose credential was made from a password logs in with it, as long as the
      names in the table are unique. */
  lemma {:induction false} LoginAfterCreate(prim: Primitives, users: seq<User>, u: User, password: Option<string>, key: Key)
    requires NamesUnique(users) && u in users
    requires CreatePasswordHashGave(prim, password, key, u)
    ensures Login(prim, users, u.name, password) == Success(Some(u))
  {
    Credentials.CreateThenVerify(prim, password, key);
    LoginUnique(prim, users, u, password);
  }

  /** The user's stored hash and salt are what `CreatePasswordHash(password)` produced under key. */
  predicate CreatePasswordHashGave(prim: Primitives, password: Option<string>, key: Key, u: User)
  {
    var r := Credentials.CreatePasswordHash(prim, password, key);
    r.Success? && u.passwordHash == r.value.hash && u.passwordSalt == r.value.salt
  }
}
