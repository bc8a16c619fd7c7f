/**
 * Password hashing (server/auth.ts, `hashPassword` and `verifyPassword`):
 * the stored hash is the hex text of a 64-byte scrypt key derived from the
 * password and a hex salt; verification re-derives the key under the stored
 * salt and compares bytes.
 */
module Password {
  import opened Wrappers
  import opened Buffers
  import Hex

  /**
   * `crypto.scryptSync(password, salt, keyLength)`, the key derivation
   * function of RFC 7914; a deterministic primitive that is passed in.
   */
  type Kdf = (string, string, nat) -> seq<byte>

  const KeyLength: nat := 64
  /** `crypto.randomBytes(16)` supplies a fresh salt. */
  const SaltBytes: nat := 16

  datatype Hashed = Hashed(hash: string, salt: string)

  /**
   * The salt `hashPassword` uses: the given one unless it is absent or
   * empty (JavaScript's `salt || ...` treats `""` as absent), else the hex
   * text of the random bytes passed as `entropy`.
   */
  function SaltFor(salt: Option<string>, entropy: seq<byte>): (s: string)
    ensures salt.Some? && salt.value != "" ==> s == salt.value
    ensures (salt.None? || salt.value == "") ==> s == Hex.Encode(entropy)
  {
    if salt.Some? && salt.value != "" then salt.value else Hex.Encode(entropy)
  }

  function HashPassword(kdf: Kdf, password: string, salt: Option<string>, entropy: seq<byte>): (h: Hashed)
    ensures h.salt == SaltFor(salt, entropy)
    ensures |h.hash| == 2 * |kdf(password, h.salt, KeyLength)|
    ensures Hex.Decode(h.hash) == kdf(password, h.salt, KeyLength)
  {
    var s := SaltFor(salt, entropy);
    var key := kdf(password, s, KeyLength);
    Hex.DecodeEncode(key);
    Hashed(Hex.Encode(key), s)
  }

  /**
   * `verifyPassword`: `timingSafeEqual` of the recomputed key bytes and the
   * hex-decoded stored hash; the exception on a length mismatch is caught and
   * answered with `false`.
   */
  function VerifyPassword(kdf: Kdf, password: string, storedHash: string, salt: string, entropy: seq<byte>): (ok: bool)
    ensures ok <==> kdf(password, SaltFor(Some(salt), entropy), KeyLength) == Hex.Decode(storedHash)
    ensures |kdf(password, SaltFor(Some(salt), entropy), KeyLength)| != |Hex.Decode(storedHash)| ==> !ok
  {
    var h := HashPassword(kdf, password, Some(salt), entropy).hash;
    match TimingSafeEqual(Hex.Decode(h), Hex.Decode(storedHash))
    case None => false
    case Some(equal) => equal
  }

  /** A hash made by `HashPassword` verifies the same password under the salt it reports. */
  lemma HashThenVerify(kdf: Kdf, password: string, salt: Option<string>, entropy: seq<byte>, entropy': seq<byte>)
    requires SaltFor(salt, entropy) != ""
    ensures var h := HashPassword(kdf, password, salt, entropy);
      VerifyPassword(kdf, password, h.hash, h.salt, entropy')
  {
  }

  /**
   * A second password is refused exactly when the key it derives under the
   * same salt differs from the first one's.
   */
  lemma WrongPasswordRejected(kdf: Kdf, password: string, other: string, salt: string, entropy: seq<byte>)
    requires salt != ""
    requires kdf(other, salt, KeyLength) != kdf(password, salt, KeyLength)
    ensures !VerifyPassword(kdf, other, HashPassword(kdf, password, Some(salt), entropy).hash, salt, entropy)
  {
  }
}
