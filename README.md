# Authentication core of mission-control, in Dafny

This project models the authentication module of the mission-control
dashboard backend (`server/auth.ts`). It covers four components and states
their contracts:

- **Login rate limiter.** A per-address table of failed attempts,
  `{count, lastAttempt, lockedUntil?}`. `checkRateLimit` gates a login. It
  refuses a locked address, however old its last failure. It evicts an
  unlocked record whose last failure is more than 15 minutes old. It locks an
  address for 15 minutes once the address has 5 failures, each within 15
  minutes of the one before, with the last within 15 minutes of the check.
  `recordFailedAttempt` counts a failure. `clearAttempts` forgets
  the address. The model is the class `RateLimit.Limiter`, whose field
  `attempts: map<string, Record>` stands for the module-level `Map`. Its
  three methods are proved against specification functions (`StatusOf`,
  `CheckVerdict`, `CheckedTable`, `RecordedTable`), and lemmas state what each
  transition does.
- **Password hashing.** The stored hash is the lower-case hex text of 64
  scrypt bytes, derived from the password and a hex salt. Verification
  re-derives the key, hex-decodes the stored hash and compares the bytes. A
  length mismatch answers `false`.
- **Session tokens.** A token is `base64url(JSON payload) "." base64url(HMAC-SHA256(secret, encoded payload))`.
  The payload is `{sub, usr, exp, iat}`, and `exp` is issue time plus 7
  days. Verification splits the token at the first `.`, recomputes and
  compares the MAC, decodes the payload and refuses it when `exp < now`.
  Every failure is `None`. Base64url (section 5 of RFC 4648, without padding)
  and Node's hex reading and writing are modelled concretely, with round-trip
  lemmas.
- **User store.** The class `Users.UserStore` holds the contents of
  `users.json` as `users: seq<StoredUser>`. `CreateUser` first refuses a
  username that matches an existing one case-insensitively, then refuses a
  password shorter than 8 characters. Otherwise it appends exactly one
  record. `Authenticate` takes the first case-insensitive match and delegates
  to password verification.

Parameters stand in for what the model does not compute:

- The clock `Date.now()` is a `now: nat` argument in milliseconds.
- scrypt (RFC 7914) is a `Kdf` function value.
- HMAC-SHA256 (RFC 2104) is a `Mac` function value: key string, message
  string, digest bytes.
- JSON serialisation plus UTF-8 is the `Json` pair of functions. The token
  round trip assumes, per payload, that parsing undoes serialising.
- The signing secret is a string parameter.
- `randomUUID()` is the `id` argument, with a freshness precondition.
- `randomBytes(16)` is the `entropy` argument.
- `new Date().toISOString()` is the `createdAt` argument.

Three behaviours of the code are easy to misread:

- A token whose `exp` equals `now` is still accepted, because the code
  refuses only `exp < now`.
- The lockout is imposed by `checkRateLimit`, not by `recordFailedAttempt`.
- `checkRateLimit` does not only read. Besides evicting a stale record, it
  writes `lockedUntil`.

## Model

| member | source | states |
|---|---|---|
| `Buffers.TimingSafeEqual` | server/auth.ts:74-76 | `None` (the exception) exactly when the lengths differ; `Some(true)` exactly when the buffers are equal |
| `Hex.Encode` | server/auth.ts:67 | two characters per byte, all lower-case hex digits |
| `Hex.DigitValue` | server/auth.ts:74 | a character has a value iff it is `0-9`, `a-f` or `A-F`, and the value is below 16 |
| `Hex.Decode` | server/auth.ts:74 | lenient decoding never fails and yields at most one byte per two characters |
| `Hex.DecodeEncode` | server/auth.ts:67-74 | reading back the hex written for a key gives the key's bytes |
| `Base64Url.Value` | server/auth.ts:89-90 | the alphabet values are 6-bit, and `.` is not in the alphabet |
| `Base64Url.Encode` | server/auth.ts:89-90 | every output character is in the base64url alphabet |
| `Base64Url.EncodeHasNoDot` | server/auth.ts:89-91 | no encoding contains the token separator `.` |
| `Base64Url.EncodeLength` | server/auth.ts:89 | n bytes encode to ceil(4n/3) characters, without padding |
| `Base64Url.DecodeEncode` | server/auth.ts:89-102 | decoding an encoding gives back the bytes |
| `Base64Url.Decode` | server/auth.ts:102 | succeeds iff every character is in the alphabet and the length is not 1 mod 4; yields floor(3n/4) bytes for n characters |
| `Password.SaltFor` | server/auth.ts:66 | the given salt is used unless absent or empty; otherwise the hex of the random bytes |
| `Password.HashPassword` | server/auth.ts:65-69 | reports the salt it used; the hash is hex whose decoding is the key scrypt derives from password and salt for length 64 |
| `Password.VerifyPassword` | server/auth.ts:71-78 | true iff the key derived under the stored salt equals the hex-decoded stored hash; a length mismatch gives false |
| `Password.HashThenVerify` | server/auth.ts:65-78 | whenever the salt in use is not empty, a hash produced for a password verifies that password under the reported salt |
| `Password.WrongPasswordRejected` | server/auth.ts:71-78 | a password whose derived key differs is refused |
| `Token.IndexOf` | server/auth.ts:96-97 | `None` iff the character is absent; otherwise its first position |
| `Token.Claims` | server/auth.ts:83-88 | the payload carries the given id and name, and `exp - iat` is 7 days in ms |
| `Token.Signature` | server/auth.ts:90 | the signature segment never contains `.` |
| `Token.CreateToken` | server/auth.ts:82-92 | the token's first `.` follows the encoded payload; the rest is the MAC of that prefix and holds no other `.` |
| `Token.VerifyToken` | server/auth.ts:94-108 | total; a result is only returned for a token whose suffix after the first `.` is the MAC of the prefix and whose prefix decodes and parses to a payload with `exp >= now`, and the result is that payload's `sub` and `usr` |
| `Token.VerifyCreated` | server/auth.ts:82-108 | round trip: a fresh token verifies to its id and name whenever `now <= issued + 7 days`, given that the payload's JSON round-trips |
| `Token.AcceptedAtExpiry` | server/auth.ts:103 | accepted at `now == exp`, refused one millisecond later |
| `Token.RejectsWithoutSeparator` | server/auth.ts:96-97 | no `.` means `None` |
| `Token.RejectsForgedSignature` | server/auth.ts:98-101 | a signature segment that is not byte-equal to the recomputed MAC is refused, whatever its length |
| `Token.RejectsUndecodable` | server/auth.ts:102-107 | a correctly signed payload that does not decode or parse is refused |
| `Token.RejectsExpired` | server/auth.ts:103 | a correctly signed payload with `exp < now` is refused |
| `Token.RejectsTamperedSignature` | server/auth.ts:96-101 | changing any one character of an issued token's signature segment gives `None` |
| `Token.RejectsTamperedPayload` | server/auth.ts:96-101 | changing one payload character gives `None`: always when it becomes `.`, otherwise whenever the altered segment's MAC differs |
| `Users.Utf16Length` | server/auth.ts:141 | `password.length` counts UTF-16 units: between the number of characters and twice that, and exactly the number of characters when none lies outside the Basic Multilingual Plane |
| `Users.ErrorMessage` | server/auth.ts:139-141 | a duplicate name throws "Username already exists", a short password "Password must be at least 8 characters", and the message identifies the refusal |
| `Users.LowerChar` | server/auth.ts:138 | the result is never an upper-case ASCII letter, and only such a letter is changed, by +32 |
| `Users.ToLower` | server/auth.ts:138 | same length, lower-cased character by character, no upper-case ASCII letter left |
| `Users.SameName` | server/auth.ts:157 | `a.toLowerCase() === b.toLowerCase()`: same length and equal position by position after lower-casing |
| `Users.FindByName` | server/auth.ts:138 | `users.find`: `None` iff no name matches case-insensitively; otherwise the first match |
| `Users.NewUser` | server/auth.ts:142-149 | the appended record keeps the id, the username as given, and the timestamp; the salt is the random hex; the hash decodes to the scrypt key |
| `Users.FindUnique` | server/auth.ts:157 | with unique names, the lookup returns the one matching record |
| `Users.AppendFresh` | server/auth.ts:150 | appending an unmatched name keeps names unique, and every case variant of it finds the new record |
| `Users.UserStore.constructor` | server/auth.ts:120-125 | a store without a users file is empty and valid |
| `Users.UserStore.HasUsers` | server/auth.ts:132-134 | true iff some username can be looked up |
| `Users.UserStore.Authenticate` | server/auth.ts:155-161 | a result is the stored id and name of the FIRST matching record, and its password verifies; no match gives `None`; with unique names, success iff the matched record verifies |
| `Users.UserStore.CreateUser` | server/auth.ts:136-153 | duplicate (checked first) or short password: that error with the store unchanged; otherwise exactly one record appended, the name returned as given, invariants kept, `HasUsers()` true and every case variant authenticating to the new id |
| `RateLimit.CeilSeconds` | server/auth.ts:39 | `Math.ceil(ms / 1000)`: the least whole number of seconds covering `ms` |
| `RateLimit.StatusOf` | server/auth.ts:36-49 | the branch `checkRateLimit` takes: no record, locked (remaining ms > 0), stale, exhausted (count >= 5) or tracking, with the conditions of each |
| `RateLimit.CheckVerdict` | server/auth.ts:37-49 | allowed iff neither locked nor exhausted; a refusal has `retryAfter >= 1`, an allowance none |
| `RateLimit.CheckedTable` | server/auth.ts:42-46 | no key is added; other addresses are untouched; the checked record keeps its count and `lastAttempt` |
| `RateLimit.RecordedTable` | server/auth.ts:53-56 | adds the key if absent, stamps `lastAttempt = now`, count >= 1, other addresses untouched |
| `RateLimit.FailedLogin` | server/auth.ts:34-57 | an ASSUMED calling order, not code of auth.ts: check first and record only an allowed attempt; a refused attempt leaves the check's table, and other addresses are untouched |
| `RateLimit.FailedLogins` | server/auth.ts:34-57 | the assumed calling order repeated over a series of instants; no other address's record changes |
| `RateLimit.Limiter.constructor` | server/auth.ts:29 | the table starts empty |
| `RateLimit.Limiter.CheckRateLimit` | server/auth.ts:34-50 | verdict and new table are those of the specification functions, and the record invariant is kept |
| `RateLimit.Limiter.RecordFailedAttempt` | server/auth.ts:52-57 | the new table is the specification's record step, and the invariant is kept |
| `RateLimit.Limiter.ClearAttempts` | server/auth.ts:59-61 | exactly that address is removed |
| `RateLimit.RecordEffect` | server/auth.ts:52-57 | count is 1 for a new record, else +1; `lastAttempt = now`; lock unchanged; no other key changes |
| `RateLimit.RecordPreservesWellFormed` | server/auth.ts:52-57 | each record has `count >= 1`, and a locked record has `count >= 5` |
| `RateLimit.CheckPreservesWellFormed` | server/auth.ts:34-50 | the check keeps that invariant |
| `RateLimit.CheckAfterClear` | server/auth.ts:36-37 | after a clear the check allows and leaves the table unchanged |
| `RateLimit.CheckWhileLocked` | server/auth.ts:38-40 | refused with `retryAfter = ceil((lockedUntil - now)/1000) >= 1`; table unchanged |
| `RateLimit.CheckEvictsStale` | server/auth.ts:41-44 | unlocked and last failure more than 15 min ago: record deleted, allowed |
| `RateLimit.CheckLocksExhausted` | server/auth.ts:45-48 | unlocked (including an expired lock), the last failure inside the window, `count >= 5`: locked until `now + 900000`, refused with 900; nothing else changes |
| `RateLimit.CheckAllowsTracking` | server/auth.ts:49 | fewer than 5 recent failures: allowed, table unchanged |
| `RateLimit.CheckFramesOtherAddresses` | server/auth.ts:34-50 | the check changes no other address's entry |
| `RateLimit.FailuresAccumulate` | server/auth.ts:34-57 | up to 5 failures from a fresh address, each within the window of the last, give count = number of failures and no lock |
| `RateLimit.FiveFailuresLockOut` | server/auth.ts:30-57 | after 5 such failures, the next check in the window refuses with 900, and so does every check in the following 15 minutes |
| `RateLimit.StaleFailureRestartsCount` | server/auth.ts:41-57 | a failure more than one window after the last starts again at count 1 |

## Left out

- The signing secret's lifecycle (`getJwtSecret`, the `JWT_SECRET` override) is left out. These are file and environment I/O. The secret is a parameter.
- Reading and writing `users.json` is left out. It is file I/O replaced by the `users` field. A file that cannot be read or parsed reads as the empty list, which is what the constructor gives.
- scrypt, HMAC-SHA256, `randomBytes` and `randomUUID` are not modelled. They are passed in as functions and values. Nothing about them is proved, so "a wrong password is refused" and "a tampered payload is refused" are stated under the assumption that the derived key or MAC differs.
- The constant-time behaviour of `timingSafeEqual` cannot be expressed. Only its result and its length-mismatch exception are modelled.
- `Token.VerifyToken`: the signature comparison uses the two strings rather than their UTF-8 bytes. The recomputed signature is ASCII, so the two comparisons agree.
- `Token.VerifyToken`: the JSON decoder is assumed to yield a payload with string `sub` and `usr` and a numeric `exp`, or to fail. The source would also accept a signed payload that lacks `exp`, because `undefined < now` is false. Only the token's issuer can sign, so such a payload never occurs.
- `Base64Url.Decode` is strict: it refuses characters outside the alphabet and a dangling single character. Node's decoder is lenient. The two agree on every segment this module encodes (`Base64Url.DecodeEncode`), and a segment they treat differently still needs a valid MAC.
- `Token.CreateToken` reads the clock once for both `exp` and `iat`. The source calls `Date.now()` twice, so the two may differ by a millisecond.
- `Users.SameName` lower-cases ASCII letters only. JavaScript's `toLowerCase` applies the full Unicode case mapping.
- Concurrency between request handlers sharing `loginAttempts` is left out. The model is sequential.
- JavaScript numbers are doubles. Counts and times are unbounded integers here, which matches as long as values stay below 2^53.
