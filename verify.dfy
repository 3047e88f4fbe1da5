/**
  VerifyTwoFactorHandler.Handle (app/identity/verify_two_factor_handler.go): check a
  submitted code against the user's stored secret (30-second steps, no window, six digits),
  then mark the user verified, then generate recovery codes, store them as JSON and answer
  them. The handler does not look at the enabled flag.
 */
module VerifyTwoFactorHandler {
  import opened Wrappers
  import opened Strings
  import opened HttpError
  import opened Domain
  import opened Postgres
  import opened Platform
  import Numerals
  import Totp

  /** The lookup failure reuses the challenge handler's code. */
  function UserNotFound(): Error {
    NotFound("identity.two_factor_challenge.not_found", "User not found", NoDetails)
  }

  function InvalidCode(): Error {
    BadRequest("identity.verify_two_factor.invalid_code", "Invalid code", NoDetails)
  }

  function ServerError(): Error {
    InternalServerError("identity.verify_two_factor.server_error", "Internal server error", NoDetails)
  }

  /** The number of recovery codes the handler asks for. */
  const RequestedCodes := 10

  /** The answer and the new rows, for the user `userId` of the request context, where
      `check` is the code check (Totp.HandlerCheck at the time of the request) and `text` the
      i-th rand.Text() draw. */
  function Verified(rows: Rows, userId: string, code: string, check: (string, string) -> bool,
                    text: nat -> string, env: Env, faults: set<Query>)
    : (Result<seq<string>, Error>, Rows)
  {
    var code := TrimSpace(code);
    match Lookup(rows, userId, FindByIdQuery in faults)
    case Failure(_) => (Failure(UserNotFound()), rows)
    case Success(user) =>
      if !check(user.twoFactorSecret, code) then
        (Failure(InvalidCode()), rows)
      else
        var (err, marked) := Written(rows, user.id, MarkVerified, MarkVerifiedQuery in faults);
        if err.Some? then (Failure(ServerError()), marked)
        else
          var codes := Totp.RecoveryCodes(RequestedCodes, text);
          var (err2, stored) := Written(marked, user.id, SetCodes(env.marshal(codes)), SetCodesQuery in faults);
          if err2.Some? then (Failure(ServerError()), stored)
          else (Success(codes), stored)
  }

  method Handle(store: UserStore, userId: string, code: string, now: int, text: nat -> string,
                env: Env, faults: set<Query>)
    returns (r: Result<seq<string>, Error>)
    requires store.Valid()
    modifies store
    ensures store.Valid()
    ensures (r, store.rows)
      == Verified(old(store.rows), userId, code, Totp.HandlerCheck(now, env.hmac), text, env, faults)
  {
    var trimmed := TrimSpace(code);
    var found := store.FindByID(userId, FindByIdQuery in faults);
    if found.Failure? {
      return Failure(UserNotFound());
    }
    var user := found.value;
    var passed := Totp.VerifyOtp(user.twoFactorSecret, trimmed, 0, 0, 0, now, env.hmac);
    if !passed {
      return Failure(InvalidCode());
    }
    var err := store.MarkTwoFactorVerified(user.id, MarkVerifiedQuery in faults);
    if err.Some? {
      return Failure(ServerError());
    }
    var codes := Totp.GenerateRecoveryCodes(RequestedCodes, text);
    err := store.SetRecoveryCodes(user.id, env.marshal(codes), SetCodesQuery in faults);
    if err.Some? {
      return Failure(ServerError());
    }
    r := Success(codes);
  }

  /** A failed lookup (404) or a wrong code (400) writes nothing. */
  lemma RejectionsWriteNothing(rows: Rows, userId: string, code: string,
                               check: (string, string) -> bool, text: nat -> string, env: Env, faults: set<Query>)
    ensures var (r, after) := Verified(rows, userId, code, check, text, env, faults);
      r.Failure? && r.error.status != 500 ==> after == rows
  {
  }

  /** A wrong code is refused with 400 before any write: the code is the trimmed submission,
      checked as VerifyOTP(secret, code, 0, 0, 0) checks it. */
  lemma WrongCodeRefused(rows: Rows, userId: string, code: string,
                         check: (string, string) -> bool, text: nat -> string, env: Env, faults: set<Query>)
    requires userId in rows && FindByIdQuery !in faults
    requires !check(Coalesce(rows[userId].twoFactorSecret), TrimSpace(code))
    ensures Verified(rows, userId, code, check, text, env, faults) == (Failure(InvalidCode()), rows)
  {
  }

  /** A success answers eleven codes, the i-th text drawn for each, stores their JSON as the
      user's recovery codes and marks the user verified, leaving every other column and row
      as it was. */
  lemma SuccessStoresElevenCodes(rows: Rows, userId: string, code: string,
                                 check: (string, string) -> bool, text: nat -> string, env: Env, faults: set<Query>)
    ensures var (r, after) := Verified(rows, userId, code, check, text, env, faults);
      r.Success? ==>
        && |r.value| == 11 && (forall i :: 0 <= i < 11 ==> r.value[i] == text(i))
        && userId in rows && after.Keys == rows.Keys
        && after[userId] == rows[userId].(twoFactorVerified := true,
                                          twoFactorRecoveryCodes := Some(env.marshal(r.value)))
        && (forall id :: id in rows && id != userId ==> after[id] == rows[id])
  {
    Totp.RecoveryCodesCount(RequestedCodes, text);
  }

  /** When storing the codes fails after the user was marked verified, the user stays
      verified with the codes stored before, and the answer is 500. */
  lemma PartialFailure(rows: Rows, userId: string, code: string,
                       check: (string, string) -> bool, text: nat -> string, env: Env, faults: set<Query>)
    requires userId in rows && FindByIdQuery !in faults && MarkVerifiedQuery !in faults
    requires SetCodesQuery in faults
    requires check(Coalesce(rows[userId].twoFactorSecret), TrimSpace(code))
    ensures var (r, after) := Verified(rows, userId, code, check, text, env, faults);
      && r == Failure(ServerError()) && r.error.status == 500
      && after == rows[userId := rows[userId].(twoFactorVerified := true)]
  {
  }

  /** With no faults, a code the check accepts is a success. */
  lemma AcceptedCodeSucceeds(rows: Rows, userId: string, code: string,
                             check: (string, string) -> bool, text: nat -> string, env: Env)
    requires userId in rows && check(Coalesce(rows[userId].twoFactorSecret), TrimSpace(code))
    ensures Verified(rows, userId, code, check, text, env, {}).0.Success?
  {
  }

  /** The handler never asks whether two-factor is enabled: a user who never enabled it has
      no secret, which reads as "" and decodes to the empty key, so the current code of the
      empty key is accepted and the user ends up verified but not enabled. */
  lemma VerifiesWithoutEnabling(rows: Rows, userId: string, code: string, now: int,
                                text: nat -> string, env: Env)
    requires userId in rows && !rows[userId].twoFactorEnabled && rows[userId].twoFactorSecret.None?
    requires Totp.CurrentOtp("", 0, 0, now, env.hmac) == Some(code)
    ensures var (r, after) := Verified(rows, userId, code, Totp.HandlerCheck(now, env.hmac), text, env, {});
      && r.Success? && after[userId].twoFactorVerified && !after[userId].twoFactorEnabled
  {
    EmptySecretAccepted(code, now, env);
    AcceptedCodeSucceeds(rows, userId, code, Totp.HandlerCheck(now, env.hmac), text, env);
    SuccessStoresElevenCodes(rows, userId, code, Totp.HandlerCheck(now, env.hmac), text, env, {});
  }

  lemma EmptySecretAccepted(code: string, now: int, env: Env)
    requires Totp.CurrentOtp("", 0, 0, now, env.hmac) == Some(code)
    ensures Totp.HandlerCheck(now, env.hmac)("", code) && TrimSpace(code) == code
  {
    Totp.HandlerCheckIsCurrentCode("", code, now, env.hmac);
    Totp.AcceptedCodesAreNumerals("", code, 0, 0, 0, now, env.hmac);
    DecimalIsTrimmed(code);
  }

  /** A code of decimal digits has no white space to trim. */
  lemma DecimalIsTrimmed(code: string)
    requires Numerals.IsDecimal(code)
    ensures TrimSpace(code) == code
  {
    if code != [] {
      assert code[0] == code[0] && '0' <= code[|code| - 1] <= '9';
    }
    TrimSpaceOfPadded([], code, []);
    assert [] + code + [] == code;
  }
}
