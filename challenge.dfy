/**
  TwoFactorChallengeHandler.Handle (app/identity/two_factor_challenge_handler.go): exchange
  the intermediate token of a challenged login, together with a current one-time code, for
  a token. The handler only reads the store.
 */
module TwoFactorChallengeHandler {
  import opened Wrappers
  import opened Strings
  import opened HttpError
  import opened Domain
  import opened Postgres
  import opened Platform
  import Jwt
  import Totp

  function ServerError(): Error {
    InternalServerError("identity.two_factor_challenge.internal_server_error", "Internal server error", NoDetails)
  }

  function UserNotFound(): Error {
    NotFound("identity.two_factor_challenge.not_found", "User not found", NoDetails)
  }

  function InvalidCode(): Error {
    BadRequest("identity.two_factor_challenge.invalid_code", "Invalid code", NoDetails)
  }

  /** The answer to a challenge at `now`, where `check` is the code check (Totp.HandlerCheck
      at `now`) and `jti` the id of the token issued, if any. */
  function Challenge(rows: Rows, code: string, jwt: string, check: (string, string) -> bool,
                     now: int, jti: string, env: Env, faults: set<Query>)
    : Result<string, Error>
  {
    var code := TrimSpace(code);
    var jwt := TrimSpace(jwt);
    var decoded := Jwt.Decode(jwt, env.jwtSecret, env.parse);
    if decoded.err.Some? then Failure(ServerError())
    else match Lookup(rows, decoded.claims.subject, FindByIdQuery in faults)
      case Failure(_) => Failure(UserNotFound())
      case Success(user) => Answered(user, code, check, now, jti, env)
  }

  /** What the user the token names is answered: the code is checked against the user's
      stored secret, then a token is signed for the user. */
  function Answered(user: User, code: string, check: (string, string) -> bool, now: int,
                    jti: string, env: Env)
    : Result<string, Error>
  {
    if !check(user.twoFactorSecret, code) then Failure(InvalidCode())
    else match Jwt.CreateToken(user, now, jti, env.jwtSecret, env.sign)
      case Failure(_) => Failure(ServerError())
      case Success(token) => Success(token)
  }

  /** The challenge as the handler runs it, with the real code check. */
  function ChallengeAt(rows: Rows, code: string, jwt: string, now: int, jti: string, env: Env,
                       faults: set<Query>)
    : Result<string, Error>
  {
    Challenge(rows, code, jwt, Totp.HandlerCheck(now, env.hmac), now, jti, env, faults)
  }

  /** A token the library refuses with an error is answered 500, not 401. */
  lemma DecodeErrorIsServerError(rows: Rows, code: string, jwt: string, check: (string, string) -> bool,
                                 now: int, jti: string, env: Env, faults: set<Query>)
    requires Jwt.Decode(TrimSpace(jwt), env.jwtSecret, env.parse).err.Some?
    ensures Challenge(rows, code, jwt, check, now, jti, env, faults) == Failure(ServerError())
    ensures ServerError().status == 500
  {
  }

  /** A token answered is one signed for the user the intermediate token names, after that
      user's stored secret accepted the trimmed code. */
  lemma ChallengeSuccess(rows: Rows, code: string, jwt: string, check: (string, string) -> bool,
                         now: int, jti: string, env: Env, faults: set<Query>)
    requires Challenge(rows, code, jwt, check, now, jti, env, faults).Success?
    ensures var d := Jwt.Decode(TrimSpace(jwt), env.jwtSecret, env.parse);
      var sub := d.claims.subject;
      && d.err.None? && sub in rows && FindByIdQuery !in faults
      && check(Coalesce(rows[sub].twoFactorSecret), TrimSpace(code))
      && Jwt.CreateToken(ReadUser(sub, rows[sub]), now, jti, env.jwtSecret, env.sign)
         == Success(Challenge(rows, code, jwt, check, now, jti, env, faults).value)
      && Jwt.Payload(ReadUser(sub, rows[sub]), now, jti).subject == sub
  {
  }

  /** Conversely, a token naming a stored user, a code the check accepts and a successful
      signing give the token. */
  lemma ChallengeAccepts(rows: Rows, code: string, jwt: string, check: (string, string) -> bool,
                         now: int, jti: string, env: Env, faults: set<Query>, sub: string,
                         token: string)
    requires Jwt.Decode(TrimSpace(jwt), env.jwtSecret, env.parse).err.None?
    requires Jwt.Decode(TrimSpace(jwt), env.jwtSecret, env.parse).claims.subject == sub
    requires sub in rows && FindByIdQuery !in faults
    requires check(Coalesce(rows[sub].twoFactorSecret), TrimSpace(code))
    requires Jwt.CreateToken(ReadUser(sub, rows[sub]), now, jti, env.jwtSecret, env.sign) == Success(token)
    ensures Challenge(rows, code, jwt, check, now, jti, env, faults) == Success(token)
  {
  }

  /** A valid token without a subject decodes to empty claims with no error, so the handler
      goes on to look up the user with id "". */
  lemma SubjectlessToken(rows: Rows, code: string, jwt: string, check: (string, string) -> bool,
                         now: int, jti: string, env: Env, faults: set<Query>)
    requires Jwt.Decode(TrimSpace(jwt), env.jwtSecret, env.parse) == Jwt.Decoded(Jwt.EmptyClaims, None)
    ensures "" !in rows ==> Challenge(rows, code, jwt, check, now, jti, env, faults) == Failure(UserNotFound())
    ensures "" in rows && FindByIdQuery !in faults && !check(Coalesce(rows[""].twoFactorSecret), TrimSpace(code)) ==>
      Challenge(rows, code, jwt, check, now, jti, env, faults) == Failure(InvalidCode())
  {
  }

  /** The handler does not look at the two-factor flags: changing them on any row changes no
      answer. */
  lemma FlagsIgnored(rows: Rows, code: string, jwt: string, check: (string, string) -> bool,
                     now: int, jti: string, env: Env, faults: set<Query>, id: string,
                     enabled: bool, verified: bool)
    requires id in rows
    ensures var flipped := rows[id := rows[id].(twoFactorEnabled := enabled, twoFactorVerified := verified)];
      Challenge(flipped, code, jwt, check, now, jti, env, faults)
      == Challenge(rows, code, jwt, check, now, jti, env, faults)
  {
    var flipped := rows[id := rows[id].(twoFactorEnabled := enabled, twoFactorVerified := verified)];
    var d := Jwt.Decode(TrimSpace(jwt), env.jwtSecret, env.parse);
    if d.err.None? && d.claims.subject == id && FindByIdQuery !in faults {
      var before := ReadUser(id, rows[id]);
      assert ReadUser(id, flipped[id]) == before.(twoFactorEnabled := enabled, twoFactorVerified := verified);
      AnswerIgnoresFlags(before, TrimSpace(code), check, now, jti, env, enabled, verified);
    }
  }

  lemma AnswerIgnoresFlags(user: User, code: string, check: (string, string) -> bool, now: int,
                           jti: string, env: Env, enabled: bool, verified: bool)
    ensures Answered(user.(twoFactorEnabled := enabled, twoFactorVerified := verified), code, check, now, jti, env)
         == Answered(user, code, check, now, jti, env)
  {
    var flipped := user.(twoFactorEnabled := enabled, twoFactorVerified := verified);
    assert Jwt.Payload(flipped, now, jti) == Jwt.Payload(user, now, jti);
  }

  /** With the real check, the user's current code (30-second step, six digits) opens the
      challenge. */
  lemma CurrentCodeOpens(rows: Rows, code: string, jwt: string, now: int, jti: string, env: Env,
                         faults: set<Query>, sub: string, token: string)
    requires Jwt.Decode(TrimSpace(jwt), env.jwtSecret, env.parse).err.None?
    requires Jwt.Decode(TrimSpace(jwt), env.jwtSecret, env.parse).claims.subject == sub
    requires sub in rows && FindByIdQuery !in faults
    requires Totp.CurrentOtp(Coalesce(rows[sub].twoFactorSecret), 0, 0, now, env.hmac) == Some(TrimSpace(code))
    requires Jwt.CreateToken(ReadUser(sub, rows[sub]), now, jti, env.jwtSecret, env.sign) == Success(token)
    ensures ChallengeAt(rows, code, jwt, now, jti, env, faults) == Success(token)
  {
    Totp.HandlerCheckIsCurrentCode(Coalesce(rows[sub].twoFactorSecret), TrimSpace(code), now, env.hmac);
    ChallengeAccepts(rows, code, jwt, Totp.HandlerCheck(now, env.hmac), now, jti, env, faults, sub, token);
  }
}
