/**
 * A JSON Web Token reduced to what the account core uses: the registered
 * claims "sub" (section 4.1.2 of RFC 7519) and "exp" (section 4.1.4 of
 * RFC 7519), a header algorithm, and a signature. The HMAC of section 3.2
 * of RFC 7518 is kept symbolic: a signature is determined by the key, the
 * algorithm and the claims, and equal signatures mean equal inputs.
 */
module Jwt {
  import opened Wrappers

  /** The claim set; `exp` is a NumericDate in whole seconds. */
  datatype Claims = Claims(sub: Option<string>, exp: int)

  datatype Signature = Mac(key: string, alg: string, claims: Claims)

  /** A token as received: either not a well-formed compact JWS, or header, claims and signature. */
  datatype Jwt = Malformed(raw: string) | Compact(alg: string, claims: Claims, signature: Signature)

  /** `jwt.encode(claims, key, algorithm=alg)`. */
  function Encode(claims: Claims, key: string, alg: string): (t: Jwt)
    ensures t.Compact? && t.alg == alg && t.claims == claims
  {
    Compact(alg, claims, Mac(key, alg, claims))
  }

  /** The token carries the signature that key and its own header algorithm give its own claims. */
  predicate Untampered(t: Jwt, key: string) {
    t.Compact? && t.signature == Mac(key, t.alg, t.claims)
  }

  /**
   * `jwt.decode(t, key, algorithms=algorithms)` at time `now`: the claims,
   * or None where the library raises JWTError (malformed token, algorithm
   * not allowed, bad signature, expired).
   */
  function Decode(t: Jwt, key: string, algorithms: seq<string>, now: int): (r: Option<Claims>)
    ensures r.Some? ==> Untampered(t, key) && t.alg in algorithms && r.value == t.claims && now < r.value.exp
  {
    match t
    case Malformed(_) => None
    case Compact(alg, claims, signature) =>
      if alg !in algorithms then None
      else if signature != Mac(key, alg, claims) then None
      else if now >= claims.exp then None
      else Some(claims)
  }

  /** A token signed with the key and an allowed algorithm decodes to its claims exactly until its expiry. */
  lemma DecodeEncode(claims: Claims, key: string, alg: string, algorithms: seq<string>, now: int)
    requires alg in algorithms
    ensures now < claims.exp ==> Decode(Encode(claims, key, alg), key, algorithms, now) == Some(claims)
    ensures now >= claims.exp ==> Decode(Encode(claims, key, alg), key, algorithms, now) == None
  {
  }

  /** Replacing the claims of a signed token while keeping its signature makes it fail to decode. */
  lemma ClaimsTamperingRejected(claims: Claims, forged: Claims, key: string, alg: string, algorithms: seq<string>, now: int)
    requires forged != claims
    ensures Decode(Compact(alg, forged, Encode(claims, key, alg).signature), key, algorithms, now) == None
  {
  }

  /** A token signed with another key fails to decode. */
  lemma ForeignKeyRejected(claims: Claims, key: string, otherKey: string, alg: string, algorithms: seq<string>, now: int)
    requires otherKey != key
    ensures Decode(Encode(claims, otherKey, alg), key, algorithms, now) == None
  {
  }
}
