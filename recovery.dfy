/**
  GetRecoveryCodesHandler.Handle (app/identity/get_recovery_codes_handler.go): read the
  user's stored recovery codes, a JSON list, with an absent or empty column read as "[]".
  The handler only reads.
 */
module GetRecoveryCodesHandler {
  import opened Wrappers
  import opened HttpError
  import opened Postgres
  import opened Platform

  function UserNotFound(): Error {
    NotFound("identity.get_recovery_codes.not_found", "User not found", NoDetails)
  }

  function ServerError(): Error {
    InternalServerError("identity.get_recovery_codes.server_error", "Internal server error", NoDetails)
  }

  /** The JSON the handler decodes: the stored list, or "[]" when there is none. The column
      is read through COALESCE, so the NullString is always valid and only "" falls back. */
  function StoredList(codes: string): string {
    if codes != "" then codes else "[]"
  }

  /** The answer for the user `userId` of the request context. */
  function GetRecoveryCodes(rows: Rows, userId: string, env: Env, faults: set<Query>)
    : Result<seq<string>, Error>
  {
    match Lookup(rows, userId, FindByIdQuery in faults)
    case Failure(_) => Failure(UserNotFound())
    case Success(user) =>
      match env.unmarshal(StoredList(user.twoFactorRecoveryCodes))
      case None => Failure(ServerError())
      case Some(codes) => Success(codes)
  }

  /** An unknown user gets 404; a user with no stored codes (NULL or "") gets the decoding
      of "[]", the empty list when JSON decoding is faithful; stored codes are decoded as
      they are, and malformed ones get 500. */
  lemma RecoveryCodesOutcome(rows: Rows, userId: string, env: Env, faults: set<Query>)
    ensures var r := GetRecoveryCodes(rows, userId, env, faults);
      && (r == Failure(UserNotFound()) <==> userId !in rows || FindByIdQuery in faults)
      && (userId in rows && FindByIdQuery !in faults ==>
            var stored := rows[userId].twoFactorRecoveryCodes;
            && (stored.None? || stored == Some("") ==>
                  (env.unmarshal("[]") == Some([]) ==> r == Success([])))
            && (stored.Some? && stored.value != "" ==>
                  (r.Success? <==> env.unmarshal(stored.value).Some?)
                  && (r.Success? ==> r == Success(env.unmarshal(stored.value).value))
                  && (r.Failure? ==> r.error.status == 500)))
  {
  }

  /** The answer depends on nothing but the stored codes of the user: the other columns and
      the other rows do not matter. */
  lemma ReadsOnlyTheCodes(rows: Rows, rows2: Rows, userId: string, env: Env, faults: set<Query>)
    requires userId in rows <==> userId in rows2
    requires userId in rows ==> rows[userId].twoFactorRecoveryCodes == rows2[userId].twoFactorRecoveryCodes
    ensures GetRecoveryCodes(rows, userId, env, faults) == GetRecoveryCodes(rows2, userId, env, faults)
  {
  }
}
