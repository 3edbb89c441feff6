/** The JSON Web Tokens the server issues and checks (RFC 7519), signed
    with HMAC (section 3.2 of RFC 7518) through golang-jwt v5.

    The compact serialisation, base64url and the HMAC computation are not
    computed. A token is the record of its header algorithm, its claims and
    the key its signature was made with; the server's view of a token string
    is a `decode` function supplied by the caller (`None` for a string that
    does not parse). Time is an integer count of seconds. */
module Jwt {
  import opened Wrappers
  import Decimal

  /** The shared signing secret of both authentication handlers. */
  const Secret: string := "your-secret-key-change-in-production"

  /** The `iss` claim of every issued token. */
  const Issuer: string := "playlists-app"

  /** 24 hours, in seconds: the distance from `iat` to `exp`. */
  const Lifetime: int := 24 * 60 * 60

  /** The `alg` header parameter. */
  datatype Alg = HS256 | HS384 | HS512 | Unsigned | Asymmetric(name: string)

  /** The application's `Claims` struct: the user id and e-mail, then the
      registered claims of section 4.1 of RFC 7519. An absent NumericDate
      claim is `None`. */
  datatype Claims = Claims(
    userId: int,
    email: string,
    expiresAt: Option<int>,
    issuedAt: Option<int>,
    notBefore: Option<int>,
    issuer: string,
    subject: string,
    id: string)

  /** A signed token: its algorithm, its claims, and the key that made its
      signature. */
  datatype Token = Token(alg: Alg, claims: Claims, key: string)

  /** jwt.NewWithClaims(jwt.SigningMethodHS256, claims).SignedString(key) */
  function SignHS256(claims: Claims, key: string): (t: Token)
    ensures t.alg == HS256 && t.claims == claims && t.key == key
  {
    Token(HS256, claims, key)
  }

  /** The claims generateJWT builds at time `now`: expiry one lifetime later,
      issued and valid from `now`, the fixed issuer, and the user id in
      decimal as the subject. */
  function IssueClaims(userId: int, email: string, now: int, id: string): (c: Claims)
    ensures c.userId == userId && c.email == email && c.id == id
    ensures c.issuedAt == Some(now) && c.notBefore == Some(now)
    ensures c.expiresAt == Some(now + Lifetime)
    ensures c.issuer == Issuer && c.subject == Decimal.Itoa(userId)
  {
    Claims(userId, email, Some(now + Lifetime), Some(now), Some(now), Issuer, Decimal.Itoa(userId), id)
  }

  /** The key function returns the secret for every algorithm. An HMAC
      method accepts that byte key and checks the signature with it; the
      `none` method and the asymmetric methods reject a byte key. */
  predicate SignatureVerifies(t: Token, secret: string) {
    (t.alg.HS256? || t.alg.HS384? || t.alg.HS512?) && t.key == secret
  }

  /** golang-jwt v5 default validation with no leeway: `exp`, when present,
      must lie after `now`; `nbf`, when present, must not lie after `now`;
      `iat`, `iss` and `sub` are not checked. */
  predicate TimeValid(c: Claims, now: int) {
    (c.expiresAt.None? || now < c.expiresAt.value)
    && (c.notBefore.None? || c.notBefore.value <= now)
  }

  /** jwt.ParseWithClaims followed by `token.Valid`: the claims of a token
      string that decodes, carries a good signature, and is within its
      validity window; `None` for every failure, which the handlers do not
      tell apart. */
  function Parse(tokenString: string, decode: string -> Option<Token>, secret: string, now: int): (r: Option<Claims>)
    ensures r.Some? ==> decode(tokenString).Some? && r.value == decode(tokenString).value.claims
    ensures r.Some? ==> TimeValid(r.value, now) && SignatureVerifies(decode(tokenString).value, secret)
    ensures decode(tokenString).Some? ==>
              (SignatureVerifies(decode(tokenString).value, secret) && TimeValid(decode(tokenString).value.claims, now)
               ==> r.Some?)
  {
    match decode(tokenString)
    case None => None
    case Some(t) =>
      if SignatureVerifies(t, secret) && TimeValid(t.claims, now) then Some(t.claims) else None
  }

  /** A token issued at `issued` and read back through a decoder that inverts
      its encoding is accepted exactly during [issued, issued + Lifetime),
      and it then yields the user it was issued for. */
  lemma IssuedTokenLifetime(userId: int, email: string, issued: int, id: string,
                            tokenString: string, decode: string -> Option<Token>, now: int)
    requires decode(tokenString) == Some(SignHS256(IssueClaims(userId, email, issued, id), Secret))
    ensures Parse(tokenString, decode, Secret, now).Some? <==> issued <= now < issued + Lifetime
    ensures Parse(tokenString, decode, Secret, now).Some? ==>
              Parse(tokenString, decode, Secret, now).value.userId == userId
              && Parse(tokenString, decode, Secret, now).value.email == email
  {
  }

  /** A token signed with any other key, or with any non-HMAC algorithm, is
      rejected whatever its claims. */
  lemma ForgedTokenRejected(tokenString: string, decode: string -> Option<Token>, secret: string, now: int)
    requires decode(tokenString).Some?
    requires decode(tokenString).value.key != secret
             || decode(tokenString).value.alg.Unsigned?
             || decode(tokenString).value.alg.Asymmetric?
    ensures Parse(tokenString, decode, secret, now).None?
  {
  }
}
