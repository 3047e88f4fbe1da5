/**
  RegisterHandler.Handle (app/identity/register_handler.go): trim the request, refuse a
  blank field, then create the user with the SHA-256 hex digest of the password, turning a
  unique-key violation into 409 and any other store error into 500.
 */
module RegisterHandler {
  import opened Wrappers
  import opened Strings
  import opened HttpError
  import opened Domain
  import opened Postgres
  import opened Platform

  datatype Request = Request(email: string, password: string, name: string)

  datatype Response = Response(id: string, name: string, email: string)

  function EmailRequired(): Error {
    BadRequest("identity.register.email_required", "Email field is required", NoDetails)
  }

  function PasswordRequired(): Error {
    BadRequest("identity.register.password_required", "Password field is required", NoDetails)
  }

  function NameRequired(): Error {
    BadRequest("identity.register.name_required", "Name field is required", NoDetails)
  }

  function EmailExists(): Error {
    Conflict("identity.register.email_exists", "Email already exists", NoDetails)
  }

  function CreateFailed(): Error {
    InternalServerError("identity.register.create_failed", "An error occurred during registration", NoDetails)
  }

  /** The request with every field trimmed. */
  function TrimRequest(req: Request): (t: Request)
    ensures Trimmed(t.email) && Trimmed(t.password) && Trimmed(t.name)
  {
    Request(TrimSpace(req.email), TrimSpace(req.password), TrimSpace(req.name))
  }

  /** The blank-field checks, in the handler's order: email, then password, then name. */
  function Validate(req: Request): Option<Error> {
    if req.email == "" then Some(EmailRequired())
    else if req.password == "" then Some(PasswordRequired())
    else if req.name == "" then Some(NameRequired())
    else None
  }

  /** isUniqueViolation: a driver error whose SQLSTATE is 23505. */
  predicate IsUniqueViolation(err: DbError) {
    err.PqError? && err.code == UniqueViolation
  }

  /** The answer and the new rows, where `id` is the id the database assigns. */
  function Registered(rows: Rows, req: Request, id: string, env: Env, faults: set<Query>)
    : (Result<Response, Error>, Rows)
  {
    var req := TrimRequest(req);
    var hashed := env.sha256Hex(req.password);
    match Validate(req)
    case Some(e) => (Failure(e), rows)
    case None =>
      var (r, after) := Inserted(rows, id, req.email, hashed, req.name, CreateQuery in faults);
      match r
      case Failure(err) =>
        if IsUniqueViolation(err) then (Failure(EmailExists()), after) else (Failure(CreateFailed()), after)
      case Success(newId) => (Success(Response(newId, req.name, req.email)), after)
  }

  method Handle(store: UserStore, req: Request, id: string, env: Env, faults: set<Query>)
    returns (r: Result<Response, Error>)
    requires store.Valid()
    modifies store
    ensures store.Valid()
    ensures (r, store.rows) == Registered(old(store.rows), req, id, env, faults)
  {
    var email, password, name := TrimSpace(req.email), TrimSpace(req.password), TrimSpace(req.name);
    var hashed := env.sha256Hex(password);
    if email == "" {
      return Failure(EmailRequired());
    }
    if password == "" {
      return Failure(PasswordRequired());
    }
    if name == "" {
      return Failure(NameRequired());
    }
    var created := store.Create(email, hashed, name, id, CreateQuery in faults);
    if created.Failure? {
      if IsUniqueViolation(created.error) {
        return Failure(EmailExists());
      }
      return Failure(CreateFailed());
    }
    r := Success(Response(created.value, name, email));
  }

  /** Each blank field is named by its own 400 error, the first blank one in the order email,
      password, name; a request with no blank field passes. */
  lemma ValidationOrder(req: Request)
    ensures Validate(req) == Some(EmailRequired()) <==> req.email == ""
    ensures Validate(req) == Some(PasswordRequired()) <==> req.email != "" && req.password == ""
    ensures Validate(req) == Some(NameRequired()) <==> req.email != "" && req.password != "" && req.name == ""
    ensures Validate(req).None? <==> req.email != "" && req.password != "" && req.name != ""
    ensures Validate(req).Some? ==> Validate(req).value.status == 400
  {
    NamedConstructors("identity.register.email_required", "Email field is required", NoDetails);
    NamedConstructors("identity.register.password_required", "Password field is required", NoDetails);
    NamedConstructors("identity.register.name_required", "Name field is required", NoDetails);
  }

  /** Only an error with SQLSTATE 23505 counts as a unique violation. */
  lemma UniqueViolationOnly(err: DbError)
    ensures IsUniqueViolation(err) <==> err == PqError("23505")
  {
  }

  /** A request with a blank field, or one the store refuses, leaves the rows as they were;
      the refusal is 409 exactly when the email (or the id) is already taken, and 500 when
      the store fails otherwise. */
  lemma RefusalsWriteNothing(rows: Rows, req: Request, id: string, env: Env, faults: set<Query>)
    requires EmailsUnique(rows)
    ensures var (r, after) := Registered(rows, req, id, env, faults);
      var t := TrimRequest(req);
      && (r.Failure? ==> after == rows)
      && (Validate(t).Some? ==> r == Failure(Validate(t).value))
      && (Validate(t).None? && CreateQuery in faults ==> r == Failure(CreateFailed()))
      && (Validate(t).None? && CreateQuery !in faults && EmailTaken(rows, t.email) ==>
            r == Failure(EmailExists()))
  {
    var t := TrimRequest(req);
    if Validate(t).None? {
      var fault := CreateQuery in faults;
      var hashed := env.sha256Hex(t.password);
      InsertedRow(rows, id, t.email, hashed, t.name, fault);
      var (c, after) := Inserted(rows, id, t.email, hashed, t.name, fault);
      assert Registered(rows, req, id, env, faults)
        == if c.Success? then (Success(Response(c.value, t.name, t.email)), after)
           else if IsUniqueViolation(c.error) then (Failure(EmailExists()), after)
           else (Failure(CreateFailed()), after);
    }
  }

  /** A registration that succeeds stores one new row under the new id, with the trimmed
      email and name and the digest of the trimmed password, both two-factor flags off; the
      trimmed password then passes ValidatePassword, the email finds the new user, and the
      answer echoes the id, name and email. */
  lemma SuccessStoresUser(rows: Rows, req: Request, id: string, env: Env, faults: set<Query>)
    requires EmailsUnique(rows)
    requires Registered(rows, req, id, env, faults).0.Success?
    ensures var (r, after) := Registered(rows, req, id, env, faults);
      var t := TrimRequest(req);
      && Validate(t).None? && id !in rows && !EmailTaken(rows, t.email)
      && r.value == Response(id, t.name, t.email)
      && after == rows[id := NewRow(t.email, env.sha256Hex(t.password), t.name)]
      && EmailsUnique(after)
      && LookupEmail(after, t.email, false) == Success(User(id, t.email, env.sha256Hex(t.password), t.name, "", false, false, ""))
      && ValidatePassword(LookupEmail(after, t.email, false).value, t.password, env.sha256Hex)
  {
    var t := TrimRequest(req);
    InsertedRow(rows, id, t.email, env.sha256Hex(t.password), t.name, CreateQuery in faults);
  }
}
