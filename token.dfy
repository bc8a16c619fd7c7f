/**
 * Session tokens (server/auth.ts, `createToken` and `verifyToken`): a token is
 * `base64url(payload) + "." + base64url(HMAC-SHA256(secret, base64url(payload)))`,
 * where the payload is the JSON object `{sub, usr, exp, iat}` in UTF-8.
 * Verification is total: every failure, thrown or not, is `None`.
 */
module Token {
  import opened Wrappers
  import opened Buffers
  import Base64Url

  /** Seven days, in milliseconds. */
  const TokenExpiry: nat := 7 * 24 * 60 * 60 * 1000

  datatype Payload = Payload(sub: string, usr: string, exp: int, iat: int)

  datatype Identity = Identity(userId: string, username: string)

  /**
   * The JSON layer, passed in: `serialize` is `JSON.stringify` followed by
   * UTF-8 encoding, `parse` is UTF-8 decoding followed by `JSON.parse`, with
   * `None` for a parse that throws.
   */
  datatype Json = Json(serialize: Payload -> seq<byte>, parse: seq<byte> -> Option<Payload>)

  /** `crypto.createHmac('sha256', key).update(message).digest()`, passed in. */
  type Mac = (string, string) -> seq<byte>

  /** `String.prototype.indexOf` for one character: the first position, if any. */
  function IndexOf(s: string, c: char): (r: Option<nat>)
    ensures r.None? <==> c !in s
    ensures r.Some? ==> r.value < |s| && s[r.value] == c && c !in s[..r.value]
  {
    if |s| == 0 then None
    else if s[0] == c then Some(0)
    else
      match IndexOf(s[1..], c)
      case None => None
      case Some(i) =>
        assert s[..i + 1] == [s[0]] + s[1..][..i];
        Some(i + 1)
  }

  /** The payload `createToken` signs for a login at time `now`. */
  function Claims(userId: string, username: string, now: nat): (p: Payload)
    ensures p.sub == userId && p.usr == username
    ensures p.exp - p.iat == TokenExpiry
  {
    Payload(userId, username, now + TokenExpiry, now)
  }

  /** The signature segment for an encoded payload: the base64url text of its MAC. */
  function Signature(mac: Mac, secret: string, encoded: string): (sig: string)
    ensures '.' !in sig
  {
    Base64Url.EncodeHasNoDot(mac(secret, encoded));
    Base64Url.Encode(mac(secret, encoded))
  }

  function CreateToken(mac: Mac, json: Json, secret: string, userId: string, username: string, now: nat): (token: string)
    ensures var encoded := Base64Url.Encode(json.serialize(Claims(userId, username, now)));
      && IndexOf(token, '.') == Some(|encoded|)
      && token[..|encoded|] == encoded
      && token[|encoded| + 1..] == Signature(mac, secret, encoded)
      && '.' !in token[|encoded| + 1..]
  {
    var encoded := Base64Url.Encode(json.serialize(Claims(userId, username, now)));
    Base64Url.EncodeHasNoDot(json.serialize(Claims(userId, username, now)));
    var token := encoded + "." + Signature(mac, secret, encoded);
    assert token[..|encoded|] == encoded;
    assert token[|encoded| + 1..] == Signature(mac, secret, encoded);
    token
  }

  function VerifyToken(mac: Mac, json: Json, secret: string, token: string, now: nat): (r: Option<Identity>)
    ensures r.Some? ==> Authentic(mac, secret, token)
    ensures r.Some? ==>
      var encoded := token[..IndexOf(token, '.').value];
      && Base64Url.Decode(encoded).Some?
      && json.parse(Base64Url.Decode(encoded).value).Some?
      && var p := json.parse(Base64Url.Decode(encoded).value).value;
         p.exp >= now && r.value == Identity(p.sub, p.usr)
  {
    match IndexOf(token, '.')
    case None => None
    case Some(dot) =>
      var encoded := token[..dot];
      var sig := token[dot + 1..];
      // timingSafeEqual throws on a length mismatch; the catch makes that `null` too
      if TimingSafeEqual(sig, Signature(mac, secret, encoded)) != Some(true) then None
      else
        match Base64Url.Decode(encoded)
        case None => None
        case Some(bytes) =>
          match json.parse(bytes)
          case None => None
          case Some(p) => if p.exp < now then None else Some(Identity(p.sub, p.usr))
  }

  /** The token has a separator and what follows the FIRST one is the MAC of what precedes it. */
  ghost predicate Authentic(mac: Mac, secret: string, token: string) {
    && '.' in token
    && var dot := IndexOf(token, '.').value;
       token[dot + 1..] == Signature(mac, secret, token[..dot])
  }

  /**
   * Round trip: for a payload whose JSON encoding parses back to itself, a
   * freshly issued token verifies to the identity it was issued for up to and
   * including its expiry instant.
   */
  lemma VerifyCreated(mac: Mac, json: Json, secret: string, userId: string, username: string, issued: nat, now: nat)
    requires json.parse(json.serialize(Claims(userId, username, issued))) == Some(Claims(userId, username, issued))
    requires now <= issued + TokenExpiry
    ensures VerifyToken(mac, json, secret, CreateToken(mac, json, secret, userId, username, issued), now)
         == Some(Identity(userId, username))
  {
    var bytes := json.serialize(Claims(userId, username, issued));
    Base64Url.DecodeEncode(bytes);
  }

  /** A token is still accepted at the very millisecond its `exp` names. */
  lemma AcceptedAtExpiry(mac: Mac, json: Json, secret: string, userId: string, username: string, issued: nat)
    requires json.parse(json.serialize(Claims(userId, username, issued))) == Some(Claims(userId, username, issued))
    ensures var token := CreateToken(mac, json, secret, userId, username, issued);
      VerifyToken(mac, json, secret, token, issued + TokenExpiry).Some?
      && VerifyToken(mac, json, secret, token, issued + TokenExpiry + 1).None?
  {
    VerifyCreated(mac, json, secret, userId, username, issued, issued + TokenExpiry);
    Base64Url.DecodeEncode(json.serialize(Claims(userId, username, issued)));
  }

  lemma RejectsWithoutSeparator(mac: Mac, json: Json, secret: string, token: string, now: nat)
    requires '.' !in token
    ensures VerifyToken(mac, json, secret, token, now) == None
  {
  }

  /** A signature segment that is not exactly the recomputed MAC, of any length, is refused. */
  lemma RejectsForgedSignature(mac: Mac, json: Json, secret: string, encoded: string, sig: string, now: nat)
    requires '.' !in encoded
    requires sig != Signature(mac, secret, encoded)
    ensures VerifyToken(mac, json, secret, encoded + "." + sig, now) == None
  {
    SplitAtFirstDot(encoded, sig);
  }

  /** A correctly signed segment whose payload does not decode is refused. */
  lemma RejectsUndecodable(mac: Mac, json: Json, secret: string, encoded: string, now: nat)
    requires '.' !in encoded
    requires Base64Url.Decode(encoded).None? || json.parse(Base64Url.Decode(encoded).value).None?
    ensures VerifyToken(mac, json, secret, encoded + "." + Signature(mac, secret, encoded), now) == None
  {
    SplitAtFirstDot(encoded, Signature(mac, secret, encoded));
  }

  /** A correctly signed token whose `exp` lies before `now` is refused, signature notwithstanding. */
  lemma RejectsExpired(mac: Mac, json: Json, secret: string, encoded: string, p: Payload, now: nat)
    requires '.' !in encoded
    requires Base64Url.Decode(encoded).Some? && json.parse(Base64Url.Decode(encoded).value) == Some(p)
    requires p.exp < now
    ensures VerifyToken(mac, json, secret, encoded + "." + Signature(mac, secret, encoded), now) == None
  {
    SplitAtFirstDot(encoded, Signature(mac, secret, encoded));
  }

  /** Changing any one character of an issued token's signature segment makes it invalid. */
  lemma RejectsTamperedSignature(mac: Mac, json: Json, secret: string, userId: string, username: string,
                                 issued: nat, i: nat, c: char, now: nat)
    requires var token := CreateToken(mac, json, secret, userId, username, issued);
      IndexOf(token, '.').value < i < |token| && token[i] != c
    ensures var token := CreateToken(mac, json, secret, userId, username, issued);
      VerifyToken(mac, json, secret, token[i := c], now) == None
  {
    var token := CreateToken(mac, json, secret, userId, username, issued);
    var dot := IndexOf(token, '.').value;
    var encoded, sig := token[..dot], token[dot + 1..];
    assert token == encoded + "." + sig;
    var sig' := sig[i - dot - 1 := c];
    assert token[i := c] == encoded + "." + sig';
    assert sig'[i - dot - 1] != sig[i - dot - 1];
    RejectsForgedSignature(mac, json, secret, encoded, sig', now);
  }

  /**
   * Changing a character of the payload segment makes the token invalid:
   * turned into the separator, always (the new signature segment then holds
   * the original separator, which no signature does); turned into anything
   * else, whenever the MAC of the altered segment differs from the original's.
   */
  lemma RejectsTamperedPayload(mac: Mac, json: Json, secret: string, userId: string, username: string,
                               issued: nat, i: nat, c: char, now: nat)
    requires var token := CreateToken(mac, json, secret, userId, username, issued);
      var dot := IndexOf(token, '.').value;
      && i < dot
      && (c != '.' ==> mac(secret, token[..dot][i := c]) != mac(secret, token[..dot]))
    ensures var token := CreateToken(mac, json, secret, userId, username, issued);
      VerifyToken(mac, json, secret, token[i := c], now) == None
  {
    var token := CreateToken(mac, json, secret, userId, username, issued);
    var dot := IndexOf(token, '.').value;
    var encoded, sig := token[..dot], token[dot + 1..];
    assert token == encoded + "." + sig;
    if c == '.' {
      var head, tail := encoded[..i], encoded[i + 1..] + "." + sig;
      assert token[i := c] == head + "." + tail;
      assert '.' !in head by {
        forall k | 0 <= k < |head| ensures head[k] != '.' {
          assert head[k] == encoded[k];
        }
      }
      assert tail[|encoded[i + 1..]|] == '.';
      assert tail != Signature(mac, secret, head);
      RejectsForgedSignature(mac, json, secret, head, tail, now);
    } else {
      var encoded' := encoded[i := c];
      assert token[i := c] == encoded' + "." + sig;
      assert '.' !in encoded' by {
        forall k | 0 <= k < |encoded'| ensures encoded'[k] != '.' {
          if k != i { assert encoded'[k] == encoded[k]; }
        }
      }
      Base64Url.DecodeEncode(mac(secret, encoded));
      Base64Url.DecodeEncode(mac(secret, encoded'));
      assert sig != Signature(mac, secret, encoded');
      RejectsForgedSignature(mac, json, secret, encoded', sig, now);
    }
  }

  /** Splitting `encoded + "." + sig` at its first separator gives back the two parts. */
  lemma SplitAtFirstDot(encoded: string, sig: string)
    requires '.' !in encoded
    ensures var token := encoded + "." + sig;
      IndexOf(token, '.') == Some(|encoded|) && token[..|encoded|] == encoded && token[|encoded| + 1..] == sig
  {
    var token := encoded + "." + sig;
    assert token[..|encoded|] == encoded;
    assert token[|encoded| + 1..] == sig;
    assert token[|encoded|] == '.';
  }
}
