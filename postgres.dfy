/**
  The user store of infra/postgres/repository.go: the users table as a map from id to row,
  held by a class whose methods run the repository's statements against it.

  Each UPDATE sets exactly the columns of its SET clause on the row with the given id. The
  statements with a RETURNING clause scan the returned row, so on an id that matches no row
  they report sql.ErrNoRows; Update runs without RETURNING and reports nothing in that case.
  The email column is taken to be unique (the duplicate email is what the register handler
  reads from Postgres error 23505), and so is the id; a new row's id is chosen by the
  database and is a parameter here. A failure of the connection itself is a parameter
  `fault`, after which the statement has no effect.
 */
module Postgres {
  import opened Wrappers
  import opened Domain

  /** A row of the users table; a NULL column is None. */
  datatype Row = Row(
    email: string,
    password: string,
    name: string,
    twoFactorEnabled: bool,
    twoFactorVerified: bool,
    twoFactorSecret: Option<string>,
    twoFactorRecoveryCodes: Option<string>)

  /** What a statement reports: no row (sql.ErrNoRows), a Postgres error with its SQLSTATE
      code, or a failure of the connection. */
  datatype DbError = ErrNoRows | PqError(code: string) | ConnectionError

  /** SQLSTATE unique_violation. */
  const UniqueViolation := "23505"

  /** The statements of the repository, by method. */
  datatype Query =
    | FindByIdQuery | FindByEmailQuery | CreateQuery | UpdateQuery
    | EnableQuery | DisableQuery | MarkVerifiedQuery | SetCodesQuery

  type Rows = map<string, Row>

  /** COALESCE(column, ''). */
  function Coalesce(v: Option<string>): string {
    if v.Some? then v.value else ""
  }

  /** The User the SELECT statements read from a row. */
  function ReadUser(id: string, row: Row): User {
    User(id, row.email, row.password, row.name, Coalesce(row.twoFactorSecret),
         row.twoFactorVerified, row.twoFactorEnabled, Coalesce(row.twoFactorRecoveryCodes))
  }

  predicate EmailsUnique(rows: Rows) {
    forall id, other :: id in rows && other in rows && rows[id].email == rows[other].email ==> id == other
  }

  predicate EmailTaken(rows: Rows, email: string) {
    exists id :: id in rows && rows[id].email == email
  }

  // ------------------------------------------------------------ reads

  /** What FindByID returns. */
  function Lookup(rows: Rows, id: string, fault: bool): Result<User, DbError> {
    if fault then Failure(ConnectionError)
    else if id in rows then Success(ReadUser(id, rows[id]))
    else Failure(ErrNoRows)
  }

  /** What FindByEmail returns: the user of a row with that email. */
  ghost function LookupEmail(rows: Rows, email: string, fault: bool): Result<User, DbError> {
    if fault then Failure(ConnectionError)
    else if EmailTaken(rows, email) then
      var id :| id in rows && rows[id].email == email;
      Success(ReadUser(id, rows[id]))
    else Failure(ErrNoRows)
  }

  /** With unique emails, FindByEmail finds the one row with that email, and a lookup of any
      other email reports no row. */
  lemma LookupEmailFinds(rows: Rows, id: string, email: string)
    requires EmailsUnique(rows)
    ensures id in rows && rows[id].email == email ==>
      LookupEmail(rows, email, false) == Success(ReadUser(id, rows[id]))
    ensures !EmailTaken(rows, email) <==> LookupEmail(rows, email, false) == Failure(ErrNoRows)
  {
  }

  /** A user read by id or by email carries the id and the email it was found by, and an
      absent secret or code list reads as "". */
  lemma ReadsAgree(rows: Rows, id: string)
    requires EmailsUnique(rows) && id in rows
    ensures var u := Lookup(rows, id, false);
      && u.Success? && u.value.id == id
      && u == LookupEmail(rows, rows[id].email, false)
      && (rows[id].twoFactorSecret.None? ==> u.value.twoFactorSecret == "")
      && (rows[id].twoFactorRecoveryCodes.None? ==> u.value.twoFactorRecoveryCodes == "")
  {
    LookupEmailFinds(rows, id, rows[id].email);
  }

  // ------------------------------------------------------------ writes

  /** A row as INSERT creates it: the given email, password and name, two-factor off. */
  function NewRow(email: string, password: string, name: string): Row {
    Row(email, password, name, false, false, None, None)
  }

  /** What Create does: insert a row under the id the database picks, unless that would
      duplicate an id or an email. */
  function Inserted(rows: Rows, id: string, email: string, password: string, name: string,
                    fault: bool): (Result<string, DbError>, Rows) {
    if fault then (Failure(ConnectionError), rows)
    else if id in rows || EmailTaken(rows, email) then (Failure(PqError(UniqueViolation)), rows)
    else (Success(id), rows[id := NewRow(email, password, name)])
  }

  /** What Update does: set email and name on the row with the id, if there is one; an id
      that matches no row is not an error. */
  function Updated(rows: Rows, id: string, email: string, name: string, fault: bool)
    : (Option<DbError>, Rows)
  {
    if fault then (Some(ConnectionError), rows)
    else if id !in rows then (None, rows)
    else if exists other :: other in rows && other != id && rows[other].email == email then
      (Some(PqError(UniqueViolation)), rows)
    else (None, rows[id := rows[id].(email := email, name := name)])
  }

  /** The SET clauses of the two-factor statements. */
  datatype Change = Enable(secret: string) | Disable | MarkVerified | SetCodes(codes: string)

  function Apply(c: Change, r: Row): Row {
    match c
    case Enable(secret) => r.(twoFactorEnabled := true, twoFactorSecret := Some(secret))
    case Disable => r.(twoFactorEnabled := false, twoFactorSecret := None, twoFactorVerified := false)
    case MarkVerified => r.(twoFactorVerified := true)
    case SetCodes(codes) => r.(twoFactorRecoveryCodes := Some(codes))
  }

  /** What an UPDATE ... RETURNING does: change the row with the id, or report no row. */
  function Written(rows: Rows, id: string, c: Change, fault: bool): (Option<DbError>, Rows) {
    if fault then (Some(ConnectionError), rows)
    else if id in rows then (None, rows[id := Apply(c, rows[id])])
    else (Some(ErrNoRows), rows)
  }

  /** Each statement sets exactly the columns of its SET clause: email, password and name never
      change; enabling keeps the verified flag and the codes; disabling clears the secret and
      both flags and keeps the codes; marking verified does not look at or touch the enabled
      flag; setting the codes touches nothing else. */
  lemma ChangeFrames(c: Change, r: Row)
    ensures var n := Apply(c, r);
      && n.email == r.email && n.password == r.password && n.name == r.name
      && (c.Enable? ==> n.twoFactorEnabled && n.twoFactorSecret == Some(c.secret)
                        && n.twoFactorVerified == r.twoFactorVerified
                        && n.twoFactorRecoveryCodes == r.twoFactorRecoveryCodes)
      && (c.Disable? ==> !n.twoFactorEnabled && n.twoFactorSecret.None? && !n.twoFactorVerified
                         && n.twoFactorRecoveryCodes == r.twoFactorRecoveryCodes)
      && (c.MarkVerified? ==> n == r.(twoFactorVerified := true))
      && (c.SetCodes? ==> n == r.(twoFactorRecoveryCodes := Some(c.codes)))
  {
  }

  /** A write changes only the row with the given id, keeps the set of ids, and fails exactly
      on a fault or a missing id, in which case nothing changes. */
  lemma WrittenFrames(rows: Rows, id: string, c: Change, fault: bool)
    ensures var (err, after) := Written(rows, id, c, fault);
      && after.Keys == rows.Keys
      && (forall other :: other in rows && other != id ==> after[other] == rows[other])
      && (err.None? <==> !fault && id in rows)
      && (err.Some? ==> after == rows)
      && (err == Some(ErrNoRows) <==> !fault && id !in rows)
  {
  }

  /** Disabling twice is disabling once. */
  lemma DisableIdempotent(rows: Rows, id: string)
    ensures var (_, once) := Written(rows, id, Disable, false);
      Written(once, id, Disable, false) == Written(rows, id, Disable, false)
  {
    if id in rows {
      var (_, once) := Written(rows, id, Disable, false);
      assert once[id := Apply(Disable, once[id])] == once;
    }
  }

  /** The two-factor writes never change an email, so emails stay unique. */
  lemma WrittenKeepsEmailsUnique(rows: Rows, id: string, c: Change, fault: bool)
    requires EmailsUnique(rows)
    ensures EmailsUnique(Written(rows, id, c, fault).1)
  {
    var after := Written(rows, id, c, fault).1;
    forall a, b | a in after && b in after && after[a].email == after[b].email
      ensures a == b
    {
      assert after[a].email == rows[a].email && after[b].email == rows[b].email;
    }
  }

  /** Create adds exactly one row, under a fresh id, with a fresh email; emails stay unique
      and the new row reads back with the given fields. */
  lemma InsertedRow(rows: Rows, id: string, email: string, password: string, name: string,
                    fault: bool)
    requires EmailsUnique(rows)
    ensures var (r, after) := Inserted(rows, id, email, password, name, fault);
      && EmailsUnique(after)
      && (r == Failure(PqError(UniqueViolation)) <==> !fault && (id in rows || EmailTaken(rows, email)))
      && (r.Success? ==> r.value == id && id !in rows && after == rows[id := NewRow(email, password, name)]
                         && Lookup(after, id, false) == Success(User(id, email, password, name, "", false, false, ""))
                         && LookupEmail(after, email, false) == Lookup(after, id, false))
      && (r.Failure? ==> after == rows)
  {
    var (r, after) := Inserted(rows, id, email, password, name, fault);
    if r.Success? {
      forall a, b | a in after && b in after && after[a].email == after[b].email
        ensures a == b
      {
        if a != id && b != id {
          assert after[a] == rows[a] && after[b] == rows[b];
        }
      }
      LookupEmailFinds(after, id, email);
    }
  }

  /** Update keeps emails unique, reports no error for an id that matches no row, and
      otherwise changes only the email and name of that row. */
  lemma UpdatedRow(rows: Rows, id: string, email: string, name: string, fault: bool)
    requires EmailsUnique(rows)
    ensures var (err, after) := Updated(rows, id, email, name, fault);
      && EmailsUnique(after) && after.Keys == rows.Keys
      && (!fault && id !in rows ==> err.None? && after == rows)
      && (err.None? && id in rows ==> after == rows[id := rows[id].(email := email, name := name)])
      && (err.Some? ==> after == rows)
  {
    var (err, after) := Updated(rows, id, email, name, fault);
    forall a, b | a in after && b in after && after[a].email == after[b].email
      ensures a == b
    {
      if a != id && b != id {
        assert after[a] == rows[a] && after[b] == rows[b];
      }
    }
  }

  // ------------------------------------------------------------ the repository

  /** PgRepository, over the rows of the users table. */
  class UserStore {
    var rows: Rows

    ghost predicate Valid()
      reads this
    {
      EmailsUnique(rows)
    }

    constructor ()
      ensures rows == map[] && Valid()
    {
      rows := map[];
    }

    method FindByID(id: string, fault: bool) returns (r: Result<User, DbError>)
      ensures r == Lookup(rows, id, fault)
    {
      if fault {
        return Failure(ConnectionError);
      }
      if id !in rows {
        return Failure(ErrNoRows);
      }
      r := Success(ReadUser(id, rows[id]));
    }

    method FindByEmail(email: string, fault: bool) returns (r: Result<User, DbError>)
      requires Valid()
      ensures r == LookupEmail(rows, email, fault)
    {
      if fault {
        return Failure(ConnectionError);
      }
      if id :| id in rows && rows[id].email == email {
        LookupEmailFinds(rows, id, email);
        r := Success(ReadUser(id, rows[id]));
      } else {
        r := Failure(ErrNoRows);
      }
    }

    method Create(email: string, password: string, name: string, id: string, fault: bool)
      returns (r: Result<string, DbError>)
      requires Valid()
      modifies this
      ensures Valid()
      ensures (r, rows) == Inserted(old(rows), id, email, password, name, fault)
    {
      InsertedRow(rows, id, email, password, name, fault);
      if fault {
        return Failure(ConnectionError);
      }
      if id in rows || exists other :: other in rows && rows[other].email == email {
        return Failure(PqError(UniqueViolation));
      }
      rows := rows[id := NewRow(email, password, name)];
      r := Success(id);
    }

    method Update(id: string, email: string, name: string, fault: bool) returns (err: Option<DbError>)
      requires Valid()
      modifies this
      ensures Valid()
      ensures (err, rows) == Updated(old(rows), id, email, name, fault)
    {
      UpdatedRow(rows, id, email, name, fault);
      if fault {
        return Some(ConnectionError);
      }
      if id !in rows {
        return None;
      }
      if exists other :: other in rows && other != id && rows[other].email == email {
        return Some(PqError(UniqueViolation));
      }
      rows := rows[id := rows[id].(email := email, name := name)];
      err := None;
    }

    method EnableTwoFactor(id: string, secret: string, fault: bool) returns (err: Option<DbError>)
      requires Valid()
      modifies this
      ensures Valid()
      ensures (err, rows) == Written(old(rows), id, Enable(secret), fault)
    {
      err := Write(id, Enable(secret), fault);
    }

    method DisableTwoFactor(id: string, fault: bool) returns (err: Option<DbError>)
      requires Valid()
      modifies this
      ensures Valid()
      ensures (err, rows) == Written(old(rows), id, Disable, fault)
    {
      err := Write(id, Disable, fault);
    }

    method MarkTwoFactorVerified(id: string, fault: bool) returns (err: Option<DbError>)
      requires Valid()
      modifies this
      ensures Valid()
      ensures (err, rows) == Written(old(rows), id, MarkVerified, fault)
    {
      err := Write(id, MarkVerified, fault);
    }

    method SetRecoveryCodes(id: string, codes: string, fault: bool) returns (err: Option<DbError>)
      requires Valid()
      modifies this
      ensures Valid()
      ensures (err, rows) == Written(old(rows), id, SetCodes(codes), fault)
    {
      err := Write(id, SetCodes(codes), fault);
    }

    /** UPDATE users SET ... WHERE id = $n RETURNING ..., then the scan of the returned row. */
    method Write(id: string, c: Change, fault: bool) returns (err: Option<DbError>)
      requires Valid()
      modifies this
      ensures Valid()
      ensures (err, rows) == Written(old(rows), id, c, fault)
    {
      WrittenKeepsEmailsUnique(rows, id, c, fault);
      if fault {
        return Some(ConnectionError);
      }
      if id !in rows {
        return Some(ErrNoRows);
      }
      rows := rows[id := Apply(c, rows[id])];
      err := None;
    }
  }
}
