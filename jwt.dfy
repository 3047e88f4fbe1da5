/**
  The token claims of pkg/jwt/jwt.go (RFC 7519 tokens signed with HS256, section 3.2 of
  RFC 7518), the token creation and the acceptance rule of Decode.

  The JWT library stays abstract: signing is a parameter `sign` (key, claims) -> token or
  error, and parsing a parameter `parse` (token string, key) -> what ParseWithClaims reports
  when the key function hands over the key. What the key function adds, the refusal of any
  method outside the HMAC family, is modelled here. The configured secret is a parameter.
 */
module Jwt {
  import opened Wrappers
  import opened Domain

  const Issuer := "Identity"
  const Audience := ["api"]
  /** Five hours, in seconds. */
  const Lifetime := 5 * 3600

  /** Claims: the user's name and email, then the registered claims. A time claim that is
      not set (a nil *NumericDate) is None. */
  datatype Claims = Claims(
    name: string,
    email: string,
    issuer: string,
    subject: string,
    audience: seq<string>,
    expiresAt: Option<int>,
    notBefore: Option<int>,
    issuedAt: Option<int>,
    id: string)

  /** &Claims{}: every field empty. */
  const EmptyClaims := Claims("", "", "", "", [], None, None, None, "")

  /** Payload: the claims of a token issued to u at `now` (Unix seconds) with token id `jti`
      (a fresh UUID in the source). */
  function Payload(u: User, now: int, jti: string): Claims {
    Claims(u.name, u.email, Issuer, u.id, Audience, Some(now + Lifetime), Some(now), Some(now), jti)
  }

  /** The claims of an issued token: issuer "Identity", subject the user's id, audience
      ["api"], name and email from the user, valid from `now` for exactly five hours, and
      identified by its own token id; two issues with different ids are different claims. */
  lemma PayloadClaims(u: User, now: int, jti: string, other: User, later: int, jti2: string)
    requires jti != jti2
    ensures var c := Payload(u, now, jti);
      && c.issuer == "Identity" && c.subject == u.id && c.audience == ["api"]
      && c.name == u.name && c.email == u.email && c.id == jti
      && c.issuedAt == Some(now) && c.notBefore == c.issuedAt
      && c.expiresAt == Some(c.issuedAt.value + 18000)
    ensures Payload(u, now, jti) != Payload(other, later, jti2)
  {
  }

  /** Signing with a key (the configured secret): a token string, or the signing error. */
  type Signer = (string, Claims) -> Result<string, string>

  /** CreateToken: sign the payload with HS256 and the configured secret; on a signing error
      Go returns "" with the error, which is Failure here. */
  function CreateToken(u: User, now: int, jti: string, secret: string, sign: Signer): Result<string, string> {
    sign(secret, Payload(u, now, jti))
  }

  datatype SigningMethod = HS256 | HS384 | HS512 | Asymmetric(alg: string) | Unsecured

  /** The methods of type *SigningMethodHMAC. */
  predicate IsHmac(m: SigningMethod) {
    m.HS256? || m.HS384? || m.HS512?
  }

  /** A parsed token: the method its header names, whether the library found it valid, and
      its claims when they have the Claims type. */
  datatype Token = Token(signing: SigningMethod, valid: bool, claims: Option<Claims>)

  /** What ParseWithClaims returns: the token, if one was parsed, and the error, if any. */
  datatype Parsed = Parsed(token: Option<Token>, err: Option<string>)

  type Parser = (string, string) -> Parsed

  const ErrKeyfunc := "token is unverifiable: error while executing keyfunc: signature is invalid"

  /** The key function of Decode and of the bearer middleware: for a method outside the HMAC
      family it returns ErrSignatureInvalid, and the library then returns the token unverified
      with that error; otherwise the library goes on with the key. */
  function WithKeyCheck(p: Parsed): Parsed {
    match p.token
    case Some(t) =>
      if IsHmac(t.signing) then p else Parsed(Some(t.(valid := false)), Some(ErrKeyfunc))
    case None => p
  }

  /** The acceptance rule: no error, a valid token, claims of the Claims type and a subject. */
  predicate Accepted(p: Parsed) {
    && p.err.None? && p.token.Some? && p.token.value.valid
    && p.token.value.claims.Some? && p.token.value.claims.value.subject != ""
  }

  datatype Decoded = Decoded(claims: Claims, err: Option<string>)

  /** Decode: parse with the configured secret; any failure yields empty claims together with
      the library's error, which is nil when the token parsed but has no subject. */
  function Decode(jwt: string, secret: string, parse: Parser): Decoded {
    var p := WithKeyCheck(parse(jwt, secret));
    if p.err.Some? || p.token.None? || !p.token.value.valid then Decoded(EmptyClaims, p.err)
    else match p.token.value.claims
      case None => Decoded(EmptyClaims, p.err)
      case Some(c) => if c.subject == "" then Decoded(EmptyClaims, p.err) else Decoded(c, None)
  }

  /** Decode returns the parsed claims exactly when the acceptance rule holds; otherwise it
      returns the empty claims, whose subject is empty. */
  lemma DecodeAcceptance(jwt: string, secret: string, parse: Parser)
    ensures var p := WithKeyCheck(parse(jwt, secret)); var d := Decode(jwt, secret, parse);
      && (Accepted(p) <==> d.claims.subject != "")
      && (Accepted(p) ==> d == Decoded(p.token.value.claims.value, None))
      && (!Accepted(p) ==> d.claims == EmptyClaims && d.err == p.err)
  {
  }

  /** A token signed with a method outside the HMAC family is refused with an error,
      whatever else the library would have found. */
  lemma DecodeRejectsNonHmac(jwt: string, secret: string, parse: Parser)
    requires parse(jwt, secret).token.Some? && !IsHmac(parse(jwt, secret).token.value.signing)
    ensures Decode(jwt, secret, parse) == Decoded(EmptyClaims, Some(ErrKeyfunc))
  {
  }

  /** A valid HMAC token without a subject is refused silently: empty claims and a nil error. */
  lemma DecodeWithoutSubject(jwt: string, secret: string, parse: Parser, t: Token)
    requires parse(jwt, secret) == Parsed(Some(t), None)
    requires IsHmac(t.signing) && t.valid && t.claims.Some? && t.claims.value.subject == ""
    ensures Decode(jwt, secret, parse) == Decoded(EmptyClaims, None)
  {
  }

  /** A token CreateToken issued for a user with an id decodes to its own payload, when the
      library reads back the claims that were signed. */
  lemma CreatedTokenDecodes(u: User, now: int, jti: string, secret: string, sign: Signer,
                            parse: Parser)
    requires CreateToken(u, now, jti, secret, sign).Success? && u.id != ""
    requires parse(CreateToken(u, now, jti, secret, sign).value, secret)
      == Parsed(Some(Token(HS256, true, Some(Payload(u, now, jti)))), None)
    ensures Decode(CreateToken(u, now, jti, secret, sign).value, secret, parse)
      == Decoded(Payload(u, now, jti), None)
  {
  }
}
