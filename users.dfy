/**
 * The user store (server/auth.ts, `hasUsers`, `createUser`, `authenticate`).
 * The `users.json` file becomes the field `users` of a `UserStore`: the
 * source reads the whole list, changes it and writes it back, so the field
 * holds the file's contents between calls.
 */
module Users {
  import opened Wrappers
  import opened Buffers
  import Hex
  import Password

  /** `password.length < 8` is refused. */
  const MinPasswordLength: nat := 8

  datatype StoredUser = StoredUser(id: string, username: string, passwordHash: string, salt: string, createdAt: string)

  /** What `createUser` and `authenticate` hand back: never the hash or the salt. */
  datatype PublicUser = PublicUser(id: string, username: string)

  datatype CreateError = UsernameExists | PasswordTooShort

  datatype Created = Succeeded(user: PublicUser) | Failed(error: CreateError)

  /** The message of the `Error` that `createUser` throws. */
  function ErrorMessage(e: CreateError): (m: string)
    ensures e.UsernameExists? <==> m == "Username already exists"
    ensures e.PasswordTooShort? <==> m == "Password must be at least 8 characters"
  {
    match e
    case UsernameExists => "Username already exists"
    case PasswordTooShort => "Password must be at least 8 characters"
  }

  /** `String.prototype.toLowerCase`, restricted to the ASCII letters. */
  function LowerChar(c: char): (r: char)
    ensures !('A' <= r <= 'Z')
    ensures r != c ==> 'A' <= c <= 'Z' && r as int - c as int == 32
  {
    if 'A' <= c <= 'Z' then (c as int - 'A' as int + 'a' as int) as char else c
  }

  function ToLower(s: string): (r: string)
    ensures |r| == |s|
    ensures forall i :: 0 <= i < |s| ==> r[i] == LowerChar(s[i])
    ensures forall i :: 0 <= i < |r| ==> !('A' <= r[i] <= 'Z')
  {
    seq(|s|, i requires 0 <= i < |s| => LowerChar(s[i]))
  }

  /** The comparison `u.username.toLowerCase() === username.toLowerCase()`. */
  predicate SameName(a: string, b: string)
    ensures SameName(a, b) <==> |a| == |b| && forall i :: 0 <= i < |a| ==> LowerChar(a[i]) == LowerChar(b[i])
  {
    ToLower(a) == ToLower(b)
  }

  /**
   * `String.prototype.length`, which counts UTF-16 code units: a character
   * outside the Basic Multilingual Plane counts twice.
   */
  function Utf16Length(s: string): (n: nat)
    ensures |s| <= n <= 2 * |s|
    ensures (forall i :: 0 <= i < |s| ==> s[i] as int <= 0xFFFF) ==> n == |s|
  {
    if s == [] then 0 else (if s[0] as int > 0xFFFF then 2 else 1) + Utf16Length(s[1..])
  }

  /** `users.find(...)`: the index of the first record whose name matches case-insensitively. */
  function FindByName(users: seq<StoredUser>, username: string): (r: Option<nat>)
    ensures r.None? <==> forall j :: 0 <= j < |users| ==> !SameName(users[j].username, username)
    ensures r.Some? ==> r.value < |users| && SameName(users[r.value].username, username)
    ensures r.Some? ==> forall j :: 0 <= j < r.value ==> !SameName(users[j].username, username)
  {
    if users == [] then None
    else if SameName(users[0].username, username) then Some(0)
    else
      match FindByName(users[1..], username)
      case None => None
      case Some(i) => Some(i + 1)
  }

  /** No two records have usernames equal under `toLowerCase`. */
  ghost predicate UniqueNames(users: seq<StoredUser>) {
    forall i, j :: 0 <= i < j < |users| ==> !SameName(users[i].username, users[j].username)
  }

  ghost predicate UniqueIds(users: seq<StoredUser>) {
    forall i, j :: 0 <= i < j < |users| ==> users[i].id != users[j].id
  }

  /** The record `createUser` appends, with the salt drawn from `entropy`. */
  function NewUser(kdf: Password.Kdf, username: string, password: string, id: string,
                   entropy: seq<byte>, createdAt: string): (u: StoredUser)
    ensures u.id == id && u.username == username && u.createdAt == createdAt
    ensures u.salt == Hex.Encode(entropy)
    ensures Hex.Decode(u.passwordHash) == kdf(password, u.salt, Password.KeyLength)
  {
    var h := Password.HashPassword(kdf, password, None, entropy);
    StoredUser(id, username, h.hash, h.salt, createdAt)
  }

  /** With unique names, the record a name matches is the one `FindByName` returns. */
  lemma {:induction false} FindUnique(users: seq<StoredUser>, i: nat, username: string)
    requires UniqueNames(users)
    requires i < |users| && SameName(users[i].username, username)
    ensures FindByName(users, username) == Some(i)
  {
    var r := FindByName(users, username);
    assert r.Some?;
    var k := r.value;
    assert SameName(users[k].username, users[i].username);
    assert !(k < i) && !(i < k);
  }

  /**
   * A record appended under a name no record matched keeps names unique, and
   * every case variant of its name now finds it.
   */
  lemma AppendFresh(users: seq<StoredUser>, u: StoredUser, username: string)
    requires UniqueNames(users) && FindByName(users, u.username).None?
    requires SameName(username, u.username)
    ensures UniqueNames(users + [u])
    ensures FindByName(users + [u], username) == Some(|users|)
  {
    var after := users + [u];
    forall i, j | 0 <= i < j < |after| ensures !SameName(after[i].username, after[j].username) {
      if j < |users| {
        assert after[i] == users[i] && after[j] == users[j];
      } else {
        assert after[i] == users[i] && after[j] == u;
      }
    }
    FindUnique(after, |users|, username);
  }

  class UserStore {
    /** The contents of `users.json`. */
    var users: seq<StoredUser>

    /** What every record written by `createUser` has in common. */
    ghost predicate Valid()
      reads this
    {
      && UniqueNames(users)
      && UniqueIds(users)
      && forall i :: 0 <= i < |users| ==> users[i].salt != ""
    }

    /** A missing `users.json` reads as the empty list. */
    constructor ()
      ensures Valid() && users == []
    {
      users := [];
    }

    /** `hasUsers`: there is an account exactly when some name can be looked up. */
    function HasUsers(): (r: bool)
      reads this
      ensures r <==> exists name :: FindByName(users, name).Some?
    {
      if |users| > 0 then
        assert FindByName(users, users[0].username).Some?;
        true
      else false
    }

    /**
     * `authenticate`: the first record whose name matches case-insensitively,
     * if the password verifies against its hash and salt. `entropy` is what
     * `hashPassword` would draw for a record with an empty salt.
     */
    function Authenticate(kdf: Password.Kdf, username: string, password: string, entropy: seq<byte>): (r: Option<PublicUser>)
      reads this
      ensures r.Some? ==>
        exists i :: (0 <= i < |users| && SameName(users[i].username, username)
                     && Password.VerifyPassword(kdf, password, users[i].passwordHash, users[i].salt, entropy)
                     && r.value == PublicUser(users[i].id, users[i].username))
      ensures r.Some? ==>
        && FindByName(users, username).Some?
        && r.value == PublicUser(users[FindByName(users, username).value].id,
                                 users[FindByName(users, username).value].username)
      ensures (forall i :: 0 <= i < |users| ==> !SameName(users[i].username, username)) ==> r.None?
      ensures forall i :: Valid() && 0 <= i < |users| && SameName(users[i].username, username) ==>
        (r.Some? <==> Password.VerifyPassword(kdf, password, users[i].passwordHash, users[i].salt, entropy))
    {
      match FindByName(users, username)
      case None => None
      case Some(i) =>
        var u := users[i];
        if !Password.VerifyPassword(kdf, password, u.passwordHash, u.salt, entropy) then None
        else Some(PublicUser(u.id, u.username))
    }

    /**
     * `createUser`: a name that matches an existing one case-insensitively is
     * refused first, then a password under eight UTF-16 code units; otherwise
     * exactly one record is appended. `id` is the fresh `randomUUID()`,
     * `entropy` the `randomBytes(16)` that becomes the salt, `createdAt` the
     * ISO timestamp.
     */
    method CreateUser(kdf: Password.Kdf, username: string, password: string, id: string,
                      entropy: seq<byte>, createdAt: string) returns (r: Created)
      requires Valid()
      requires |entropy| == Password.SaltBytes
      requires forall i :: 0 <= i < |users| ==> users[i].id != id
      modifies this
      ensures Valid()
      ensures FindByName(old(users), username).Some? ==>
        r == Failed(UsernameExists) && users == old(users)
      ensures FindByName(old(users), username).None? && Utf16Length(password) < MinPasswordLength ==>
        r == Failed(PasswordTooShort) && users == old(users)
      ensures FindByName(old(users), username).None? && Utf16Length(password) >= MinPasswordLength ==>
        && r == Succeeded(PublicUser(id, username))
        && users == old(users) + [NewUser(kdf, username, password, id, entropy, createdAt)]
      ensures r.Succeeded? ==>
        && HasUsers()
        && forall name, e :: SameName(name, username) ==>
             Authenticate(kdf, name, password, e) == Some(PublicUser(id, username))
    {
      if FindByName(users, username).Some? {
        return Failed(UsernameExists);
      }
      if Utf16Length(password) < MinPasswordLength {
        return Failed(PasswordTooShort);
      }
      var h := Password.HashPassword(kdf, password, None, entropy);
      var user := StoredUser(id, username, h.hash, h.salt, createdAt);
      ghost var before := users;
      users := users + [user];
      r := Succeeded(PublicUser(user.id, user.username));
      AppendFresh(before, user, username);
      forall name, e | SameName(name, username)
        ensures Authenticate(kdf, name, password, e) == Some(PublicUser(id, username))
      {
        AppendFresh(before, user, name);
        Password.HashThenVerify(kdf, password, None, entropy, e);
      }
    }
  }
}
