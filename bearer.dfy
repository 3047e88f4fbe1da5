/**
  The bearer-token middleware of internal/middleware/bearer_auth.go: the extraction of the
  token from an `Authorization: Bearer <token>` header (section 2.1 of RFC 6750, the scheme
  compared case-insensitively) and the checks on its claims. Every refusal answers 401 with
  one fixed code and message; on success the request goes on with the subject, the email and
  the token in its context.
 */
module BearerAuth {
  import opened Wrappers
  import opened Strings
  import opened HttpError
  import opened Jwt

  /** The values the middleware puts in the request context: UserID, UserEmail and Jwt. */
  datatype AuthContext = AuthContext(userId: string, userEmail: string, jwt: string)

  /** unauthorized(): the one answer to every refusal. */
  function UnauthorizedError(): Error {
    Unauthorized("identity.auth.unauthorized", "Authorization token missing or invalid", NoDetails)
  }

  /** The token of an Authorization header: the header trimmed, cut at its first space into a
      scheme equal to "Bearer" up to case and a non-blank rest, which trimmed is the token. */
  function BearerToken(header: string): Option<string> {
    var h := TrimSpace(header);
    if h == "" then None
    else
      var parts := SplitFirstSpace(h);
      if |parts| != 2 || !EqualFold(parts[0], "Bearer") || TrimSpace(parts[1]) == "" then None
      else Some(TrimSpace(parts[1]))
  }

  /** The middleware's decision on a request with this Authorization header, parsing tokens
      with the middleware's secret. */
  function Authenticate(header: string, secret: string, parse: Parser): Result<AuthContext, Error> {
    match BearerToken(header)
    case None => Failure(UnauthorizedError())
    case Some(token) =>
      var p := WithKeyCheck(parse(token, secret));
      if p.err.Some? || p.token.None? || !p.token.value.valid then Failure(UnauthorizedError())
      else match p.token.value.claims
        case None => Failure(UnauthorizedError())
        case Some(c) =>
          if c.subject == "" then Failure(UnauthorizedError())
          else Success(AuthContext(c.subject, c.email, token))
  }

  /** Every refusal is the same 401 answer, whichever check failed. */
  lemma RejectionsAreUniform(header: string, secret: string, parse: Parser)
    ensures var r := Authenticate(header, secret, parse);
      r.Failure? ==> r.error == Error(401, "identity.auth.unauthorized",
                                      "Authorization token missing or invalid", NoDetails)
  {
  }

  /** The middleware accepts exactly the tokens jwt.Decode accepts, and passes on the subject
      and email Decode returns, together with the token itself. */
  lemma AuthenticateAgreesWithDecode(header: string, secret: string, parse: Parser)
    ensures var r := Authenticate(header, secret, parse);
      && (r.Success? <==> BearerToken(header).Some?
                          && Decode(BearerToken(header).value, secret, parse).claims.subject != "")
      && (r.Success? ==>
            var d := Decode(BearerToken(header).value, secret, parse);
            r.value == AuthContext(d.claims.subject, d.claims.email, BearerToken(header).value))
  {
    if BearerToken(header).Some? {
      DecodeAcceptance(BearerToken(header).value, secret, parse);
    }
  }

  /** A scheme equal to "Bearer" up to case has no space and does not start with one. */
  lemma SchemeHasNoSpace(scheme: string)
    requires EqualFold(scheme, "Bearer")
    ensures ' ' !in scheme && !IsSpace(scheme[0])
  {
    forall i | 0 <= i < |scheme|
      ensures scheme[i] != ' '
    {
      assert AsciiLower(scheme[i]) == AsciiLower("Bearer"[i]);
    }
    assert AsciiLower(scheme[0]) == 'b';
  }

  /** strings.SplitN(s, " ", 2) of a word without spaces, a space and a rest gives the word
      and the rest. */
  lemma SplitAtWord(word: string, rest: string)
    requires ' ' !in word
    ensures SplitFirstSpace(word + " " + rest) == [word, rest]
  {
    var s := word + " " + rest;
    assert s[..|word|] == word && s[|word|] == ' ';
    assert IndexRune(s, ' ') == |word|;
    assert s[|word| + 1..] == rest;
  }

  /** Any case of "Bearer", a space, and a token, with white space around the header and
      after the space, yields the token: extra spaces are tolerated. */
  lemma BearerTokenOfPadded(a: string, scheme: string, pad: string, token: string, b: string)
    requires AllSpace(a) && AllSpace(pad) && AllSpace(b)
    requires EqualFold(scheme, "Bearer") && token != [] && Trimmed(token)
    ensures BearerToken(a + scheme + " " + pad + token + b) == Some(token)
  {
    SchemeHasNoSpace(scheme);
    TrimPaddedHeader(a, scheme, pad, token, b);
    SplitAtWord(scheme, pad + token);
    TrimSpaceOfPadded(pad, token, []);
    assert pad + token + [] == pad + token;
  }

  lemma TrimPaddedHeader(a: string, scheme: string, pad: string, token: string, b: string)
    requires AllSpace(a) && AllSpace(b) && scheme != [] && !IsSpace(scheme[0])
    requires token != [] && !IsSpace(token[|token| - 1])
    ensures TrimSpace(a + scheme + " " + pad + token + b) == scheme + " " + (pad + token)
  {
    var u := scheme + " " + (pad + token);
    assert u[0] == scheme[0] && u[|u| - 1] == token[|token| - 1];
    TrimSpaceOfPadded(a, u, b);
    AppendAssoc(scheme + " ", pad, token);
    AppendAssoc(a, scheme, " ");
    AppendAssoc(a, scheme + " ", pad);
    AppendAssoc(a, scheme + " " + pad, token);
  }

  /** Conversely, a token is only found after a six-letter "Bearer", in any case, and a
      space at the start of the trimmed header; it is the trimmed rest, never blank. */
  lemma BearerTokenSound(header: string)
    requires BearerToken(header).Some?
    ensures var h := TrimSpace(header); var token := BearerToken(header).value;
      && |h| >= 7 && EqualFold(h[..6], "Bearer") && h[6] == ' '
      && token == TrimSpace(h[7..]) && token != [] && Trimmed(token)
  {
    var h := TrimSpace(header);
    var parts := SplitFirstSpace(h);
    assert h == parts[0] + " " + parts[1];
    assert h[..6] == parts[0] && h[7..] == parts[1];
  }
}
