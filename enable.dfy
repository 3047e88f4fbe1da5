/**
  EnableTwoFactorHandler.Handle (app/identity/enable_two_factor_handler.go): look up the
  authenticated user, keep the stored secret if two-factor is already enabled or generate a
  new one, store it with two-factor enabled, and answer the otpauth:// URL of that secret.
 */
module EnableTwoFactorHandler {
  import opened Wrappers
  import opened Numerals
  import opened HttpError
  import opened Domain
  import opened Postgres
  import opened Platform
  import Totp

  const Issuer := "Auction Identity"

  function InvalidUser(): Error {
    NotFound("identity.enable_two_factor.invalid_user_id", "Invalid user id", NoDetails)
  }

  function ServerError(): Error {
    InternalServerError("identity.enable_two_factor.internal_server_error", "Internal server error", NoDetails)
  }

  /** The secret the handler enables for a user. */
  function ChosenSecret(user: User, draw: nat -> Option<byte>): string {
    if user.twoFactorEnabled then user.twoFactorSecret else Totp.SecretFromDraws(draw)
  }

  /** The answer and the new rows, for the user `userId` of the request context. */
  function Enabled(rows: Rows, userId: string, draw: nat -> Option<byte>, env: Env, faults: set<Query>)
    : (Result<string, Error>, Rows)
  {
    match Lookup(rows, userId, FindByIdQuery in faults)
    case Failure(_) => (Failure(InvalidUser()), rows)
    case Success(user) =>
      var secret := ChosenSecret(user, draw);
      var (err, after) := Written(rows, userId, Enable(secret), EnableQuery in faults);
      if err.Some? then (Failure(ServerError()), after)
      else (Success(Totp.BuildUrl(secret, user.email, Issuer, env.escape)), after)
  }

  method Handle(store: UserStore, userId: string, draw: nat -> Option<byte>, env: Env,
                faults: set<Query>)
    returns (r: Result<string, Error>)
    requires store.Valid()
    modifies store
    ensures store.Valid()
    ensures (r, store.rows) == Enabled(old(store.rows), userId, draw, env, faults)
  {
    var found := store.FindByID(userId, FindByIdQuery in faults);
    if found.Failure? {
      return Failure(InvalidUser());
    }
    var user := found.value;
    var secret: string;
    if user.twoFactorEnabled {
      secret := user.twoFactorSecret;
    } else {
      secret := Totp.GenerateTwoFactorSecret(draw);
    }
    var err := store.EnableTwoFactor(userId, secret, EnableQuery in faults);
    if err.Some? {
      return Failure(ServerError());
    }
    r := Success(Totp.BuildUrl(secret, user.email, Issuer, env.escape));
  }

  /** An unknown user gets 404 and nothing is written; a failed write gets 500 and nothing
      is written. */
  lemma EnableFailures(rows: Rows, userId: string, draw: nat -> Option<byte>, env: Env,
                       faults: set<Query>)
    ensures var (r, after) := Enabled(rows, userId, draw, env, faults);
      && (r.Failure? ==> after == rows)
      && (userId !in rows || FindByIdQuery in faults ==> r == Failure(InvalidUser()))
      && (r.Failure? ==> r.error.status == 404 || r.error == ServerError())
      && (userId in rows && FindByIdQuery !in faults && EnableQuery in faults ==>
            r.Failure? && r.error.status == 500)
  {
  }

  /** On success the row is enabled with the secret the URL carries, which is the stored
      secret when two-factor was already on; the verified flag and the recovery codes are
      kept, so a verified user stays verified. */
  lemma EnablePersistsSecret(rows: Rows, userId: string, draw: nat -> Option<byte>, env: Env,
                             faults: set<Query>)
    ensures var (r, after) := Enabled(rows, userId, draw, env, faults);
      r.Success? ==>
        && userId in rows && userId in after && after.Keys == rows.Keys
        && var prior := rows[userId]; var row := after[userId];
        && row.twoFactorEnabled && row.twoFactorSecret.Some?
        && (prior.twoFactorEnabled ==> row.twoFactorSecret.value == Coalesce(prior.twoFactorSecret))
        && row.twoFactorVerified == prior.twoFactorVerified
        && row.twoFactorRecoveryCodes == prior.twoFactorRecoveryCodes
        && r.value == Totp.BuildUrl(row.twoFactorSecret.value, prior.email, "Auction Identity", env.escape)
        && (forall id :: id in rows && id != userId ==> after[id] == rows[id])
  {
  }

  /** Enabling twice without a disable in between yields the same URL and leaves the rows as
      the first enabling left them, whatever the second draws. */
  lemma EnableTwice(rows: Rows, userId: string, draw: nat -> Option<byte>, draw2: nat -> Option<byte>,
                    env: Env, faults: set<Query>, faults2: set<Query>)
    requires Enabled(rows, userId, draw, env, faults).0.Success?
    requires Enabled(Enabled(rows, userId, draw, env, faults).1, userId, draw2, env, faults2).0.Success?
    ensures var (r, once) := Enabled(rows, userId, draw, env, faults);
      Enabled(once, userId, draw2, env, faults2) == (r, once)
  {
    var (r, once) := Enabled(rows, userId, draw, env, faults);
    var row := once[userId];
    assert row.twoFactorEnabled && row.twoFactorSecret.Some?;
    assert Apply(Enable(row.twoFactorSecret.value), row) == row;
    assert once[userId := row] == once;
  }
}
