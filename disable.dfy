/**
  DisableTwoFactorHandler.Handle (app/identity/disable_two_factor_handler.go): look up the
  authenticated user and disable two-factor whatever its state. Every outcome is an error
  value, success included: 204 No Content.
 */
module DisableTwoFactorHandler {
  import opened Wrappers
  import opened HttpError
  import opened Postgres

  /** The handler reuses the enable handler's codes. */
  function InvalidUser(): Error {
    NotFound("identity.enable_two_factor.invalid_user_id", "Invalid user id", NoDetails)
  }

  function ServerError(): Error {
    InternalServerError("identity.enable_two_factor.internal_server_error", "Internal server error", NoDetails)
  }

  function Done(): Error {
    NoContent("identity.enable_two_factor.no_content", "No content", NoDetails)
  }

  /** The error answered and the new rows, for the user `userId` of the request context. */
  function Disabled(rows: Rows, userId: string, faults: set<Query>): (Error, Rows) {
    match Lookup(rows, userId, FindByIdQuery in faults)
    case Failure(_) => (InvalidUser(), rows)
    case Success(_) =>
      var (err, after) := Written(rows, userId, Disable, DisableQuery in faults);
      if err.Some? then (ServerError(), after) else (Done(), after)
  }

  method Handle(store: UserStore, userId: string, faults: set<Query>) returns (e: Error)
    requires store.Valid()
    modifies store
    ensures store.Valid()
    ensures (e, store.rows) == Disabled(old(store.rows), userId, faults)
  {
    var found := store.FindByID(userId, FindByIdQuery in faults);
    if found.Failure? {
      return InvalidUser();
    }
    var err := store.DisableTwoFactor(userId, DisableQuery in faults);
    if err.Some? {
      return ServerError();
    }
    e := Done();
  }

  /** The answer is 404 for an unknown user, 500 for a failed write, and otherwise 204 with
      the row disabled, its secret and verified flag cleared and its recovery codes kept;
      nothing else changes, and a failure changes nothing. */
  lemma DisableOutcome(rows: Rows, userId: string, faults: set<Query>)
    ensures var (e, after) := Disabled(rows, userId, faults);
      && (e.status == 404 <==> userId !in rows || FindByIdQuery in faults)
      && (e.status == 500 <==> userId in rows && FindByIdQuery !in faults && DisableQuery in faults)
      && (e.status != 204 ==> after == rows)
      && (e.status == 204 ==>
            && e == Error(204, "identity.enable_two_factor.no_content", "No content", NoDetails)
            && userId in rows
            && after == rows[userId := rows[userId].(twoFactorEnabled := false,
                                                     twoFactorSecret := None,
                                                     twoFactorVerified := false)]
            && after[userId].twoFactorRecoveryCodes == rows[userId].twoFactorRecoveryCodes)
  {
  }

  /** Disabling is unconditional and idempotent: a second disable answers 204 again and
      changes nothing. */
  lemma DisableTwice(rows: Rows, userId: string)
    requires Disabled(rows, userId, {}).0.status == 204
    ensures var once := Disabled(rows, userId, {}).1;
      Disabled(once, userId, {}) == (Done(), once)
  {
    DisableIdempotent(rows, userId);
  }
}
