/** The credential codec of the user service: a password becomes an HMAC-SHA-512 digest
    under a fresh 128-byte key, the key is stored as the salt, and verification
    recomputes the digest under the stored salt and compares it byte by byte. */
module Credentials {
  import opened Wrappers
  import opened Exceptions
  import opened Crypto
  import Text

  /** The two stored byte arrays of a user: `PasswordHash` and `PasswordSalt`. */
  datatype Credential = Credential(hash: seq<byte>, salt: seq<byte>)

  /** The first two rungs shared by `CreatePasswordHash` and `VerifyPasswordHash`:
      a null password and a blank one are rejected, each with its own exception. */
  function CheckPassword(password: Option<string>): (r: Option<Exception>)
    ensures r.None? <==> !Text.IsNullOrWhiteSpace(password)
    ensures password.None? ==> r == Some(ArgumentNullException("password"))
    ensures password.Some? && r.Some? ==> r == Some(ArgumentException(BlankPassword, "password"))
  {
    if password.None? then Some(ArgumentNullException("password"))
    else if Text.IsNullOrWhiteSpace(password) then Some(ArgumentException(BlankPassword, "password"))
    else None
  }

  /** The digest that a password has under a key. */
  function HashOf(prim: Primitives, key: seq<byte>, password: string): Digest
  {
    prim.hmacSha512(key, prim.utf8(password))
  }

  /** `CreatePasswordHash`. `key` is the random key that `new HMACSHA512()` generates;
      it becomes the salt, and the hash is the password's digest under it. */
  function CreatePasswordHash(prim: Primitives, password: Option<string>, key: Key): (r: Result<Credential, Exception>)
    ensures r.Success? <==> !Text.IsNullOrWhiteSpace(password)
    ensures r.Failure? ==> CheckPassword(password) == Some(r.error)
    ensures r.Success? ==> |r.value.hash| == HashSize && r.value.salt == key
    ensures r.Success? ==> r.value.hash == HashOf(prim, r.value.salt, password.value)
  {
    match CheckPassword(password)
    case Some(e) => Failure(e)
    case None => Success(Credential(HashOf(prim, key, password.value), key))
  }

  /** What `VerifyPasswordHash` returns or throws, stated on whole sequences: the four
      checks in the order of the source, then whether the recomputed digest equals
      the stored hash. Both length messages name "passwordHash", as in the source. */
  function VerifyOutcome(prim: Primitives, password: Option<string>, storedHash: seq<byte>, storedSalt: seq<byte>): Result<bool, Exception>
  {
    match CheckPassword(password)
    case Some(e) => Failure(e)
    case None =>
      if |storedHash| != HashSize then Failure(ArgumentException(BadHashLength, "passwordHash"))
      else if |storedSalt| != KeySize then Failure(ArgumentException(BadSaltLength, "passwordHash"))
      else Success(HashOf(prim, storedSalt, password.value) == storedHash)
  }

  /** `VerifyPasswordHash`: the validation ladder, then an index loop over the 64 bytes of
      the recomputed digest that returns false at the first difference. */
  method VerifyPasswordHash(prim: Primitives, password: Option<string>, storedHash: seq<byte>, storedSalt: seq<byte>)
    returns (r: Result<bool, Exception>)
    ensures r == VerifyOutcome(prim, password, storedHash, storedSalt)
    ensures r.Success? <==>
              !Text.IsNullOrWhiteSpace(password) && |storedHash| == HashSize && |storedSalt| == KeySize
    ensures r.Success? ==>
              (r.value <==> forall i :: 0 <= i < HashSize ==> HashOf(prim, storedSalt, password.value)[i] == storedHash[i])
  {
    var check := CheckPassword(password);
    if check.Some? {
      return Failure(check.value);
    } else if |storedHash| != HashSize {
      return Failure(ArgumentException(BadHashLength, "passwordHash"));
    } else if |storedSalt| != KeySize {
      return Failure(ArgumentException(BadSaltLength, "passwordHash"));
    }
    var computedHash := HashOf(prim, storedSalt, password.value);
    var i := 0;
    while i < |computedHash|
      invariant 0 <= i <= |computedHash|
      invariant computedHash[..i] == storedHash[..i]
    {
      if computedHash[i] != storedHash[i] {
        return Success(false);
      }
      assert computedHash[..i + 1] == computedHash[..i] + [computedHash[i]];
      assert storedHash[..i + 1] == storedHash[..i] + [storedHash[i]];
      i := i + 1;
    }
    assert computedHash == computedHash[..i] && storedHash == storedHash[..i];
    return Success(true);
  }

  /** The round trip: a credential made from a password verifies that password. */
  lemma {:induction false} CreateThenVerify(prim: Primitives, password: Option<string>, key: Key)
    requires !Text.IsNullOrWhiteSpace(password)
    ensures CreatePasswordHash(prim, password, key).Success?
    ensures var c := CreatePasswordHash(prim, password, key).value;
            VerifyOutcome(prim, password, c.hash, c.salt) == Success(true)
  {
    var c := CreatePasswordHash(prim, password, key).value;
    assert |c.salt| == KeySize && |c.hash| == HashSize;
  }

  /** Once the password and both lengths pass the checks, verification never throws:
      a wrong password or a corrupted hash gives false, and only a digest equal in every
      byte gives true. */
  lemma MismatchIsFalse(prim: Primitives, password: Option<string>, storedHash: seq<byte>, storedSalt: seq<byte>, i: nat)
    requires !Text.IsNullOrWhiteSpace(password) && |storedHash| == HashSize && |storedSalt| == KeySize
    requires i < HashSize && HashOf(prim, storedSalt, password.value)[i] != storedHash[i]
    ensures VerifyOutcome(prim, password, storedHash, storedSalt) == Success(false)
  {
  }
}
