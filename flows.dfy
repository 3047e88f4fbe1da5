/**
  What the handlers do in sequence, over the same rows: registration followed by login, the
  two-factor enrollment (enable, then verify) and its effect on login, the challenge that
  completes a challenged login, and the recovery codes that outlive a disable.
 */
module TwoFactorFlows {
  import opened Wrappers
  import opened Strings
  import opened HttpError
  import opened Domain
  import opened Postgres
  import opened Platform
  import Jwt
  import Totp
  import opened Numerals
  import Register = RegisterHandler
  import Login = LoginHandler
  import Challenge = TwoFactorChallengeHandler
  import Enable = EnableTwoFactorHandler
  import Verify = VerifyTwoFactorHandler
  import Disable = DisableTwoFactorHandler
  import Recovery = GetRecoveryCodesHandler

  /** A freshly registered user logs in with the password as registered, and gets a token at
      once: both two-factor flags are off. */
  lemma RegisterThenLogin(rows: Rows, req: Register.Request, id: string, env: Env,
                          faults: set<Query>, now: int, jti: string, token: string)
    requires EmailsUnique(rows)
    requires Register.Registered(rows, req, id, env, faults).0.Success?
    requires Jwt.CreateToken(User(id, TrimSpace(req.email), env.sha256Hex(TrimSpace(req.password)),
                                  TrimSpace(req.name), "", false, false, ""),
                             now, jti, env.jwtSecret, env.sign) == Success(token)
    ensures Login.Login(Register.Registered(rows, req, id, env, faults).1, req.email, req.password,
                        now, jti, env, {})
         == Success(token)
  {
    var t := Register.TrimRequest(req);
    Register.SuccessStoresUser(rows, req, id, env, faults);
    var after := Register.Registered(rows, req, id, env, faults).1;
    assert ReadUser(id, after[id]) == User(id, t.email, env.sha256Hex(t.password), t.name, "", false, false, "");
    Login.SecondFactorGate(after, req.email, req.password, now, jti, env, {}, id, token);
  }

  /** The credentials of the row `id`, as a login request carries them. */
  predicate Credentials(rows: Rows, id: string, email: string, password: string, env: Env) {
    && id in rows && rows[id].email == TrimSpace(email)
    && TrimSpace(email) != "" && TrimSpace(password) != ""
    && env.sha256Hex(TrimSpace(password)) == rows[id].password
  }

  /** Signing depends only on the id, name and email of a user. */
  lemma TokenOfSameAccount(id: string, row: Row, other: Row, now: int, jti: string, env: Env)
    requires other.email == row.email && other.name == row.name
    ensures Jwt.CreateToken(ReadUser(id, other), now, jti, env.jwtSecret, env.sign)
         == Jwt.CreateToken(ReadUser(id, row), now, jti, env.jwtSecret, env.sign)
  {
    assert Jwt.Payload(ReadUser(id, other), now, jti) == Jwt.Payload(ReadUser(id, row), now, jti);
  }

  /** After enabling and then verifying, the same credentials no longer yield a token: the
      login answers 202 with the intermediate token. */
  lemma EnrolledLoginIsChallenged(rows: Rows, id: string, draw: nat -> Option<byte>, code: string,
                                  check: (string, string) -> bool, text: nat -> string, env: Env,
                                  email: string, password: string, now: int, jti: string,
                                  token: string)
    requires EmailsUnique(rows) && Credentials(rows, id, email, password, env)
    requires Enable.Enabled(rows, id, draw, env, {}).0.Success?
    requires Verify.Verified(Enable.Enabled(rows, id, draw, env, {}).1, id, code, check, text, env, {}).0.Success?
    requires Jwt.CreateToken(ReadUser(id, rows[id]), now, jti, env.jwtSecret, env.sign) == Success(token)
    ensures var enrolled := Verify.Verified(Enable.Enabled(rows, id, draw, env, {}).1, id, code, check, text, env, {}).1;
      Login.Login(enrolled, email, password, now, jti, env, {}) == Failure(Login.Pending(token, now))
  {
    var once := Enable.Enabled(rows, id, draw, env, {}).1;
    Enable.EnablePersistsSecret(rows, id, draw, env, {});
    Verify.SuccessStoresElevenCodes(once, id, code, check, text, env, {});
    var enrolled := Verify.Verified(once, id, code, check, text, env, {}).1;
    EnrolledRowsKeepEmails(rows, once, enrolled, id);
    TokenOfSameAccount(id, rows[id], enrolled[id], now, jti, env);
    Login.SecondFactorGate(enrolled, email, password, now, jti, env, {}, id, token);
  }

  /** Rows that differ from `rows` only in the two-factor columns of `id` keep unique emails
      and the credentials of `id`. */
  lemma EnrolledRowsKeepEmails(rows: Rows, once: Rows, enrolled: Rows, id: string)
    requires EmailsUnique(rows) && id in rows
    requires once.Keys == rows.Keys && enrolled.Keys == rows.Keys
    requires forall other :: other in rows && other != id ==> enrolled[other] == rows[other]
    requires once[id].email == rows[id].email && once[id].password == rows[id].password && once[id].name == rows[id].name
    requires enrolled[id].email == once[id].email && enrolled[id].password == once[id].password && enrolled[id].name == once[id].name
    ensures EmailsUnique(enrolled)
    ensures enrolled[id].email == rows[id].email && enrolled[id].password == rows[id].password
    ensures enrolled[id].name == rows[id].name
  {
    forall a, b | a in enrolled && b in enrolled && enrolled[a].email == enrolled[b].email
      ensures a == b
    {
      assert enrolled[a].email == rows[a].email && enrolled[b].email == rows[b].email;
    }
  }

  /** Enabling alone does not protect the account: until a code is verified, the same
      credentials still get a token directly, without any second factor. */
  lemma EnabledButUnverifiedBypasses(rows: Rows, id: string, draw: nat -> Option<byte>, env: Env,
                                     email: string, password: string, now: int, jti: string,
                                     token: string)
    requires EmailsUnique(rows) && Credentials(rows, id, email, password, env)
    requires !rows[id].twoFactorVerified
    requires Enable.Enabled(rows, id, draw, env, {}).0.Success?
    requires Jwt.CreateToken(ReadUser(id, rows[id]), now, jti, env.jwtSecret, env.sign) == Success(token)
    ensures var once := Enable.Enabled(rows, id, draw, env, {}).1;
      && once[id].twoFactorEnabled && !once[id].twoFactorVerified
      && Login.Login(once, email, password, now, jti, env, {}) == Success(token)
  {
    var once := Enable.Enabled(rows, id, draw, env, {}).1;
    Enable.EnablePersistsSecret(rows, id, draw, env, {});
    EnrolledRowsKeepEmails(rows, once, once, id);
    TokenOfSameAccount(id, rows[id], once[id], now, jti, env);
    Login.SecondFactorGate(once, email, password, now, jti, env, {}, id, token);
  }

  /** A challenged login completes: the intermediate token the login answered, sent back with
      the current code of the user's secret, is exchanged for a token of the same user. */
  lemma ChallengedLoginCompletes(rows: Rows, id: string, email: string, password: string,
                                 env: Env, now: int, jti: string, token: string, code: string,
                                 later: int, jti2: string, token2: string)
    requires EmailsUnique(rows) && Credentials(rows, id, email, password, env) && id != ""
    requires rows[id].twoFactorEnabled && rows[id].twoFactorVerified
    requires Jwt.CreateToken(ReadUser(id, rows[id]), now, jti, env.jwtSecret, env.sign) == Success(token)
    requires TrimSpace(token) == token
    requires env.parse(token, env.jwtSecret)
      == Jwt.Parsed(Some(Jwt.Token(Jwt.HS256, true, Some(Jwt.Payload(ReadUser(id, rows[id]), now, jti)))), None)
    requires Totp.CurrentOtp(Coalesce(rows[id].twoFactorSecret), 0, 0, later, env.hmac) == Some(TrimSpace(code))
    requires Jwt.CreateToken(ReadUser(id, rows[id]), later, jti2, env.jwtSecret, env.sign) == Success(token2)
    ensures Login.Login(rows, email, password, now, jti, env, {}) == Failure(Login.Pending(token, now))
    ensures Challenge.ChallengeAt(rows, code, token, later, jti2, env, {}) == Success(token2)
  {
    var user := ReadUser(id, rows[id]);
    Login.SecondFactorGate(rows, email, password, now, jti, env, {}, id, token);
    Jwt.CreatedTokenDecodes(user, now, jti, env.jwtSecret, env.sign, env.parse);
    assert Jwt.Decode(TrimSpace(token), env.jwtSecret, env.parse) == Jwt.Decoded(Jwt.Payload(user, now, jti), None);
    Challenge.CurrentCodeOpens(rows, code, token, later, jti2, env, {}, id, token2);
  }

  /** JSON encoding of a list of codes that reads back as the same list and is never the
      empty string. */
  predicate JsonRoundTrips(env: Env, codes: seq<string>) {
    env.marshal(codes) != "" && env.unmarshal(env.marshal(codes)) == Some(codes)
  }

  /** Recovery codes outlive a disable: after a successful verification and then a disable,
      the user is neither enabled nor verified, but still gets the codes the verification
      answered. */
  lemma CodesSurviveDisable(rows: Rows, id: string, code: string, check: (string, string) -> bool,
                            text: nat -> string, env: Env)
    requires Verify.Verified(rows, id, code, check, text, env, {}).0.Success?
    requires JsonRoundTrips(env, Verify.Verified(rows, id, code, check, text, env, {}).0.value)
    ensures var (r, verified) := Verify.Verified(rows, id, code, check, text, env, {});
      var (e, disabled) := Disable.Disabled(verified, id, {});
      && e.status == 204
      && !disabled[id].twoFactorEnabled && !disabled[id].twoFactorVerified
      && Recovery.GetRecoveryCodes(disabled, id, env, {}) == Success(r.value)
  {
    var (r, verified) := Verify.Verified(rows, id, code, check, text, env, {});
    Verify.SuccessStoresElevenCodes(rows, id, code, check, text, env, {});
    Disable.DisableOutcome(verified, id, {});
    var disabled := Disable.Disabled(verified, id, {}).1;
    assert disabled[id].twoFactorRecoveryCodes == Some(env.marshal(r.value));
  }
}
