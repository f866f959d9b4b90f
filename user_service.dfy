/** The user service over its table of users: create, update and the admin bootstrap.
    The database is a sequence of rows together with the next value of the identity
    column; each operation either throws and leaves both as they were, or saves. */
module UserStore {
  import opened Wrappers
  import opened Exceptions
  import opened Crypto
  import Text
  import Credentials
  import opened Users
  import PasswordGenerator

  /** `default(DateTime)`: the service never sets the two dates. */
  const DefaultDate: int := 0

  /** The strength that `CreateAdminUser` asks of the bootstrap password. */
  const AdminOptions := PasswordGenerator.PasswordOptions(16, 8, true, true, true, true)

  const AdminName: string := "admin"
  const AdminEmail: string := "admin@plevenlab.org"

  /** The row after `UpdateAsync` set its fields from the request: key and dates kept,
      name and email taken over, and the credential replaced only for a non-blank password. */
  ghost predicate UpdatedFrom(prim: Primitives, u: User, u': User, dto: UserDto, key: Key)
  {
    && u'.userId == u.userId && u'.creationDate == u.creationDate && u'.lastLoginDate == u.lastLoginDate
    && u'.name == dto.name && u'.email == dto.email
    && if Text.IsNullOrWhiteSpace(dto.password) then
         u'.passwordHash == u.passwordHash && u'.passwordSalt == u.passwordSalt
       else
         CreatePasswordHashGave(prim, dto.password, key, u')
  }

  /** After an update the row answers to its new name: with the new password when one was
      given, and otherwise with every password the old credential accepted. */
  lemma {:induction false} LoginAfterUpdate(prim: Primitives, before: seq<User>, k: nat, after: User, dto: UserDto, key: Key, password: Option<string>)
    requires k < |before| && NamesUnique(before[k := after])
    requires UpdatedFrom(prim, before[k], after, dto, key)
    ensures !Text.IsNullOrWhiteSpace(dto.password) ==>
              Login(prim, before[k := after], dto.name, dto.password) == Success(Some(after))
    ensures Text.IsNullOrWhiteSpace(dto.password) && Verifies(prim, before[k], password) ==>
              Login(prim, before[k := after], dto.name, password) == Success(Some(after))
  {
    var users := before[k := after];
    assert users[k] == after;
    if !Text.IsNullOrWhiteSpace(dto.password) {
      LoginAfterCreate(prim, users, after, dto.password, key);
    } else {
      LoginUnique(prim, users, after, password);
    }
  }

  class UserService {
    /** The rows of `_context.Users`, in insertion order. */
    var users: seq<User>
    /** The key the identity column gives the next inserted row. */
    var nextId: int

    /** Names are unique (every insert and rename checks the name first), and keys are
        handed out in increasing order, so they are unique too. */
    ghost predicate Valid()
      reads this
    {
      && NamesUnique(users)
      && (forall i, j :: 0 <= i < j < |users| ==> users[i].userId < users[j].userId)
      && (forall i :: 0 <= i < |users| ==> users[i].userId < nextId)
    }

    /** An empty table whose identity column starts at 1. */
    constructor ()
      ensures Valid() && users == [] && nextId == 1
    {
      users := [];
      nextId := 1;
    }

    /** `Create` and `CreateAsync`: reject a blank password, then a name already taken,
        otherwise hash the password under `key` and insert one row. */
    method Create(prim: Primitives, dto: UserDto, key: Key) returns (r: Result<User, Exception>)
      requires Valid()
      modifies this
      ensures Valid()
      ensures Text.IsNullOrWhiteSpace(dto.password) ==>
                r == Failure(AppException(PasswordRequired)) && users == old(users) && nextId == old(nextId)
      ensures !Text.IsNullOrWhiteSpace(dto.password) && Taken(old(users), dto.name) ==>
                r == Failure(AppException(UsernameTaken(dto.name))) && users == old(users) && nextId == old(nextId)
      ensures !Text.IsNullOrWhiteSpace(dto.password) && !Taken(old(users), dto.name) ==>
                r.Success? && users == old(users) + [r.value] && nextId == old(nextId) + 1
      ensures r.Success? ==>
                && r.value.userId == old(nextId) && r.value.name == dto.name && r.value.email == dto.email
                && r.value.creationDate == DefaultDate && r.value.lastLoginDate == DefaultDate
                && CreatePasswordHashGave(prim, dto.password, key, r.value)
                && Login(prim, users, dto.name, dto.password) == Success(Some(r.value))
    {
      if Text.IsNullOrWhiteSpace(dto.password) {
        return Failure(AppException(PasswordRequired));
      }
      if Taken(users, dto.name) {
        return Failure(AppException(UsernameTaken(dto.name)));
      }
      var credential := Credentials.CreatePasswordHash(prim, dto.password, key).value;
      var user := User(nextId, dto.name, dto.email, credential.hash, credential.salt, DefaultDate, DefaultDate);
      users := users + [user];
      nextId := nextId + 1;
      assert users[|users| - 1] == user;
      LoginAfterCreate(prim, users, user, dto.password, key);
      return Success(user);
    }

    /** `UpdateAsync`: an unknown key gives null; renaming to a name another row holds
        throws; otherwise name and email are overwritten and, for a non-blank password,
        the credential is replaced by a fresh one. */
    method Update(prim: Primitives, id: int, dto: UserDto, key: Key) returns (r: Result<Option<User>, Exception>)
      requires Valid()
      modifies this
      ensures Valid() && nextId == old(nextId) && |users| == |old(users)|
      ensures IndexOfId(old(users), id).None? ==> r == Success(None) && users == old(users)
      ensures IndexOfId(old(users), id).Some? ==>
                var k := IndexOfId(old(users), id).value;
                var u := old(users)[k];
                if u.name != dto.name && Taken(old(users), dto.name) then
                  r == Failure(AppException(UsernameTaken(dto.name))) && users == old(users)
                else
                  && r.Success? && r.value.Some?
                  && users == old(users)[k := r.value.value]
                  && UpdatedFrom(prim, u, r.value.value, dto, key)
    {
      var found := IndexOfId(users, id);
      if found.None? {
        return Success(None);
      }
      var k := found.value;
      var user := users[k];
      if user.name != dto.name && Taken(users, dto.name) {
        return Failure(AppException(UsernameTaken(dto.name)));
      }
      user := user.(name := dto.name, email := dto.email);
      if !Text.IsNullOrWhiteSpace(dto.password) {
        var credential := Credentials.CreatePasswordHash(prim, dto.password, key).value;
        user := user.(passwordHash := credential.hash, passwordSalt := credential.salt);
      }
      ghost var before := users;
      users := users[k := user];
      forall i, j | 0 <= i < j < |users| ensures users[i].name != users[j].name {
        if i != k && j != k {
          assert users[i] == before[i] && users[j] == before[j];
        } else if before[k].name != dto.name {
          var other := if i == k then j else i;
          assert users[other] == before[other];
          assert !Taken(before, dto.name);
        }
      }
      return Success(Some(user));
    }

    /** `CreateAdminUser`: on an empty table, generate a password of at least 16 characters
        with 8 distinct ones and every class, and create "admin" with it; the password is
        what the service logs. On a non-empty table nothing happens. */
    method CreateAdminUser(prim: Primitives, stream: PasswordGenerator.Oracle, key: Key) returns (logged: Option<string>)
      requires Valid()
      requires |users| == 0 ==> PasswordGenerator.Fair(stream, PasswordGenerator.SeedDraws(AdminOptions))
      modifies this
      ensures Valid()
      ensures |old(users)| > 0 ==> logged.None? && users == old(users) && nextId == old(nextId)
      ensures |old(users)| == 0 ==>
                && logged.Some? && PasswordGenerator.MeetsPolicy(logged.value, AdminOptions)
                && |users| == 1 && users[0].userId == old(nextId) && nextId == old(nextId) + 1
                && users[0].name == AdminName && users[0].email == AdminEmail
                && users[0].creationDate == DefaultDate && users[0].lastLoginDate == DefaultDate
                && CreatePasswordHashGave(prim, logged, key, users[0])
                && Login(prim, users, AdminName, logged) == Success(Some(users[0]))
    {
      if |users| != 0 {
        return None;
      }
      var password := PasswordGenerator.GenerateRandomPassword(Some(AdminOptions), stream);
      forall i | 0 <= i < |password| ensures password[i] in PasswordGenerator.AllChars {
        assert password[i] in PasswordGenerator.Chars(password);
      }
      PasswordGenerator.AlphabetsNotWhiteSpace(password);
      var user := Create(prim, UserDto(AdminName, AdminEmail, Some(password)), key);
      return Some(password);
    }
  }

  /** The bootstrap on a fresh database, run twice: the second run finds the admin row and
      does nothing, so the table holds exactly one user. */
  method BootstrapTwice(prim: Primitives, stream: PasswordGenerator.Oracle, key: Key) returns (count: nat, second: Option<string>)
    requires PasswordGenerator.Fair(stream, PasswordGenerator.SeedDraws(AdminOptions))
    ensures count == 1 && second.None?
  {
    var service := new UserService();
    var first := service.CreateAdminUser(prim, stream, key);
    second := service.CreateAdminUser(prim, stream, key);
    count := |service.users|;
  }
}
