/**
  LoginHandler.Handle (app/identity/login_handler.go): check email and password, then either
  answer a token, or, for a user with two-factor enabled and verified, answer 202 Accepted
  with an intermediate token to be exchanged at the two-factor challenge. The handler only
  reads the store.
 */
module LoginHandler {
  import opened Wrappers
  import opened Strings
  import opened HttpError
  import opened Domain
  import opened Postgres
  import opened Platform
  import Jwt

  function InvalidPayload(): Error {
    BadRequest("identity.login.invalid_payload", "Email and password fields are required", NoDetails)
  }

  function InvalidCredentials(): Error {
    Unauthorized("identity.login.invalid_credentials", "Invalid email or password", NoDetails)
  }

  function LookupFailed(): Error {
    InternalServerError("identity.login.lookup_failed", "Invalid user", NoDetails)
  }

  function TokenFailed(): Error {
    InternalServerError("identity.login.token_generation_failed", "Failed to generate token", NoDetails)
  }

  /** One hour, in seconds. */
  const ChallengeWindow := 3600

  /** The 202 answer: the intermediate token, said to expire an hour from now. */
  function Pending(token: string, now: int): Error {
    Accepted("identity.login.accepted", "Request accepted. Verify otp", OtpChallenge(token, now + ChallengeWindow))
  }

  /** The user an email and a password (both already trimmed) sign in as: a blank field is
      refused first, then the user is looked up by email and the password checked. */
  ghost function SignedIn(rows: Rows, email: string, password: string, sha256Hex: string -> string,
                          fault: bool)
    : Result<User, Error>
  {
    if email == "" || password == "" then Failure(InvalidPayload())
    else match LookupEmail(rows, email, fault)
      case Failure(err) =>
        if err == ErrNoRows then Failure(InvalidCredentials()) else Failure(LookupFailed())
      case Success(user) =>
        if ValidatePassword(user, password, sha256Hex) then Success(user)
        else Failure(InvalidCredentials())
  }

  /** What a signed-in user is answered: the 202 challenge with an intermediate token when
      two-factor is both enabled and verified, the token itself otherwise. */
  function Issued(user: User, now: int, jti: string, env: Env): Result<string, Error> {
    if user.twoFactorEnabled && user.twoFactorVerified then
      match Jwt.CreateToken(user, now, jti, env.jwtSecret, env.sign)
      case Failure(_) => Failure(TokenFailed())
      case Success(token) => Failure(Pending(token, now))
    else
      match Jwt.CreateToken(user, now, jti, env.jwtSecret, env.sign)
      case Failure(_) => Failure(TokenFailed())
      case Success(token) => Success(token)
  }

  /** The answer to a login at `now`, where `jti` is the id of the token issued, if any. */
  ghost function Login(rows: Rows, email: string, password: string, now: int, jti: string, env: Env,
                       faults: set<Query>)
    : Result<string, Error>
  {
    match SignedIn(rows, TrimSpace(email), TrimSpace(password), env.sha256Hex, FindByEmailQuery in faults)
    case Failure(e) => Failure(e)
    case Success(user) => Issued(user, now, jti, env)
  }

  /** The errors of the first stage, each with its own status. */
  lemma SignedInErrors(rows: Rows, email: string, password: string, sha256Hex: string -> string,
                       fault: bool)
    ensures var r := SignedIn(rows, email, password, sha256Hex, fault);
      && (email == "" || password == "" <==> r == Failure(InvalidPayload()))
      && (r.Failure? ==> r.error in {InvalidPayload(), InvalidCredentials(), LookupFailed()})
      && (r.Failure? ==> r.error.status in {400, 401, 500})
  {
    NamedConstructors("identity.login.invalid_payload", "Email and password fields are required", NoDetails);
    NamedConstructors("identity.login.invalid_credentials", "Invalid email or password", NoDetails);
    NamedConstructors("identity.login.lookup_failed", "Invalid user", NoDetails);
  }

  /** The second stage fails only with 500, or with the 202 challenge. */
  lemma IssuedErrors(user: User, now: int, jti: string, env: Env)
    ensures var r := Issued(user, now, jti, env);
      r.Failure? ==> r.error.status in {202, 500}
  {
    NamedConstructors("identity.login.token_generation_failed", "Failed to generate token", NoDetails);
  }

  /** The second stage answers a token only to a user without both two-factor flags, and
      then the token is the one signed for that user. */
  lemma IssuedToken(user: User, now: int, jti: string, env: Env)
    requires Issued(user, now, jti, env).Success?
    ensures !(user.twoFactorEnabled && user.twoFactorVerified)
    ensures Jwt.CreateToken(user, now, jti, env.jwtSecret, env.sign) == Success(Issued(user, now, jti, env).value)
  {
  }

  /** A blank email or password, after trimming, is refused with 400 before any lookup, and
      only such a request is refused that way. */
  lemma BlankFieldsRefused(rows: Rows, email: string, password: string, now: int, jti: string,
                           env: Env, faults: set<Query>)
    ensures TrimSpace(email) == "" || TrimSpace(password) == "" <==>
      Login(rows, email, password, now, jti, env, faults) == Failure(InvalidPayload())
  {
    var e, p := TrimSpace(email), TrimSpace(password);
    var fault := FindByEmailQuery in faults;
    SignedInErrors(rows, e, p, env.sha256Hex, fault);
    var s := SignedIn(rows, e, p, env.sha256Hex, fault);
    if s.Success? {
      IssuedErrors(s.value, now, jti, env);
      NamedConstructors("identity.login.invalid_payload", "Email and password fields are required", NoDetails);
    }
  }

  /** First stage: an unknown email and a wrong password are refused alike. */
  lemma SignedInRefusals(rows: Rows, email: string, password: string, sha256Hex: string -> string,
                         fault: bool, id: string)
    requires EmailsUnique(rows) && email != "" && password != ""
    ensures var r := SignedIn(rows, email, password, sha256Hex, fault);
      && (fault ==> r == Failure(LookupFailed()))
      && (!fault && !EmailTaken(rows, email) ==> r == Failure(InvalidCredentials()))
      && (!fault && id in rows && rows[id].email == email && sha256Hex(password) != rows[id].password ==>
            r == Failure(InvalidCredentials()))
  {
    LookupEmailFinds(rows, id, email);
  }

  /** First stage: a user signed in is the one of a row with that email and that password. */
  lemma SignedInUser(rows: Rows, email: string, password: string, sha256Hex: string -> string,
                     fault: bool)
    requires SignedIn(rows, email, password, sha256Hex, fault).Success?
    ensures exists id ::
      && id in rows && rows[id].email == email && sha256Hex(password) == rows[id].password
      && SignedIn(rows, email, password, sha256Hex, fault).value == ReadUser(id, rows[id])
  {
    var id :| id in rows && rows[id].email == email && LookupEmail(rows, email, false) == Success(ReadUser(id, rows[id]));
  }

  /** An unknown email and a wrong password get the very same 401 answer, and 401 is given for
      nothing else; a failed lookup gets 500. */
  lemma SameAnswerForUnknownEmailAndWrongPassword(rows: Rows, email: string, password: string,
                                                  now: int, jti: string, env: Env,
                                                  faults: set<Query>, id: string)
    requires EmailsUnique(rows) && TrimSpace(email) != "" && TrimSpace(password) != ""
    ensures var r := Login(rows, email, password, now, jti, env, faults);
      && (FindByEmailQuery in faults ==> r == Failure(LookupFailed()))
      && (FindByEmailQuery !in faults && !EmailTaken(rows, TrimSpace(email)) ==>
            r == Failure(InvalidCredentials()))
      && (FindByEmailQuery !in faults && id in rows && rows[id].email == TrimSpace(email)
          && env.sha256Hex(TrimSpace(password)) != rows[id].password ==>
            r == Failure(InvalidCredentials()))
      && (r.Failure? && r.error.status == 401 ==> r.error == InvalidCredentials())
  {
    var e, p := TrimSpace(email), TrimSpace(password);
    var fault := FindByEmailQuery in faults;
    SignedInRefusals(rows, e, p, env.sha256Hex, fault, id);
    SignedInErrors(rows, e, p, env.sha256Hex, fault);
    var s := SignedIn(rows, e, p, env.sha256Hex, fault);
    if s.Success? {
      IssuedErrors(s.value, now, jti, env);
    } else {
      NamedConstructors("identity.login.invalid_payload", "Email and password fields are required", NoDetails);
      NamedConstructors("identity.login.lookup_failed", "Invalid user", NoDetails);
    }
  }

  /** With the right password: a user with two-factor enabled and verified gets 202 with the
      token, advertised to expire in one hour although the token's own expiry is five hours;
      every other user, the enabled but unverified one included, gets the token itself. */
  lemma SecondFactorGate(rows: Rows, email: string, password: string, now: int, jti: string,
                         env: Env, faults: set<Query>, id: string, token: string)
    requires EmailsUnique(rows) && id in rows && rows[id].email == TrimSpace(email)
    requires TrimSpace(email) != "" && TrimSpace(password) != "" && FindByEmailQuery !in faults
    requires env.sha256Hex(TrimSpace(password)) == rows[id].password
    requires Jwt.CreateToken(ReadUser(id, rows[id]), now, jti, env.jwtSecret, env.sign) == Success(token)
    ensures var r := Login(rows, email, password, now, jti, env, faults);
      var row := rows[id];
      && (row.twoFactorEnabled && row.twoFactorVerified ==>
            && r == Failure(Pending(token, now)) && r.error.status == 202
            && r.error.details == OtpChallenge(token, now + 3600)
            && Jwt.Payload(ReadUser(id, row), now, jti).expiresAt == Some(now + 5 * 3600))
      && (!(row.twoFactorEnabled && row.twoFactorVerified) ==> r == Success(token))
  {
    LookupEmailFinds(rows, id, TrimSpace(email));
  }

  /** A token answered directly was signed for the user with that email and the right
      password, one without both two-factor flags. */
  lemma TokenOnlyForRightPassword(rows: Rows, email: string, password: string, now: int,
                                  jti: string, env: Env, faults: set<Query>)
    requires Login(rows, email, password, now, jti, env, faults).Success?
    ensures exists id ::
      && id in rows && rows[id].email == TrimSpace(email)
      && env.sha256Hex(TrimSpace(password)) == rows[id].password
      && !(rows[id].twoFactorEnabled && rows[id].twoFactorVerified)
      && Jwt.CreateToken(ReadUser(id, rows[id]), now, jti, env.jwtSecret, env.sign)
         == Success(Login(rows, email, password, now, jti, env, faults).value)
  {
    var e, p := TrimSpace(email), TrimSpace(password);
    var fault := FindByEmailQuery in faults;
    SignedInUser(rows, e, p, env.sha256Hex, fault);
    var user := SignedIn(rows, e, p, env.sha256Hex, fault).value;
    assert Login(rows, email, password, now, jti, env, faults) == Issued(user, now, jti, env);
    IssuedToken(user, now, jti, env);
    var id :| id in rows && rows[id].email == e && env.sha256Hex(p) == rows[id].password
      && SignedIn(rows, e, p, env.sha256Hex, fault).value == ReadUser(id, rows[id]);
  }
}
