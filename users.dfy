/**
 * The `/api/users` routes: list, get by id, create, update and delete user
 * records.  Each handler first applies its authorization gate, then validates
 * the request body, then queries the table, and either answers with a fixed
 * status or changes the table.
 *
 * List and Get only read, and are functions of the table.  Create, Update and
 * Delete are given twice: as a function from the old table to the new table
 * and the reply (the specification, about which the properties are stated),
 * and as a method that runs the same checks step by step against the shared
 * `UserTable` object and is proved to agree with that function.
 */
module UserRoutes {
  import opened Optional
  import opened UserStore

  /** The authenticated caller, as the token middleware attaches it to the request. */
  datatype Principal = Principal(id: int, role: string)

  predicate IsAdmin(p: Principal) {
    p.role == ADMIN_ROLE
  }

  /** Body of `POST /api/users`; `None` is a field the client left out. */
  datatype CreateBody = CreateBody(
    name: Option<string>,
    email: Option<string>,
    password: Option<string>,
    role: Option<string>)

  /** Body of `PUT /api/users/:id`. */
  datatype UpdateBody = UpdateBody(
    name: Option<string>,
    email: Option<string>,
    role: Option<string>,
    isActive: Option<bool>)

  /** JavaScript truthiness of a string field: present and not empty. */
  predicate Truthy(f: Option<string>) {
    f.Some? && f.value != ""
  }

  const MIN_PASSWORD_LENGTH := 6

  const OK := 200
  const CREATED := 201
  const BAD_REQUEST := 400
  const FORBIDDEN := 403
  const NOT_FOUND := 404
  const CONFLICT := 409

  const ACCESS_DENIED := "Access denied"
  const USER_NOT_FOUND := "User not found"
  const CREATE_FIELDS_REQUIRED := "Name, email, and password are required"
  const PASSWORD_TOO_SHORT := "Password must be at least 6 characters long"
  const EMAIL_EXISTS := "User with this email already exists"
  const USER_CREATED := "User created successfully"
  const UPDATE_FIELDS_REQUIRED := "Name and email are required"
  const EMAIL_TAKEN := "Email is already taken"
  const USER_UPDATED := "User updated successfully"
  const CANNOT_DELETE_SELF := "You cannot delete your own account"
  const USER_DELETED := "User deleted successfully"

  /** The fields of a new user that `POST /api/users` echoes back. */
  datatype NewUser = NewUser(id: int, name: string, email: string, role: string)

  /** The JSON a handler answers with. */
  datatype Body =
    | Message(text: string)
      /** The answer of the admin-only gate; its text belongs to the middleware. */
    | GateRejected
    | UserList(users: seq<PublicUser>)
    | UserRecord(user: PublicUser)
    | CreatedUser(message: string, created: NewUser)

  datatype Reply = Reply(status: int, body: Body)

  /** The table after a request, and the reply to it. */
  datatype Outcome = Outcome(table: Table, reply: Reply)

  /** Some row other than `id` already has this email. */
  predicate EmailTakenByOther(rows: seq<User>, email: string, id: int) {
    exists u :: u in rows && u.email == email && u.id != id
  }

  // ---------------------------------------------------------------------
  // GET /api/users  (admin only)
  // ---------------------------------------------------------------------

  /** The selected public columns, ordered `created_at DESC`. */
  function NewestFirst(rows: seq<User>): seq<PublicUser> {
    seq(|rows|, k requires 0 <= k < |rows| => Public(rows[|rows| - 1 - k]))
  }

  function List(t: Table, p: Principal): (r: Reply)
    ensures r.status == FORBIDDEN <==> !IsAdmin(p)
    ensures IsAdmin(p) ==> r.status == OK && r.body.UserList?
    ensures IsAdmin(p) ==> |r.body.users| == |t.rows|
    ensures IsAdmin(p) ==> forall u :: u in t.rows ==> Public(u) in r.body.users
    ensures IsAdmin(p) ==> forall v :: v in r.body.users ==> exists u :: u in t.rows && v == Public(u)
    ensures IsAdmin(p) && WellFormed(t) ==>
      forall i, j :: 0 <= i < j < |r.body.users| ==> r.body.users[i].createdAt > r.body.users[j].createdAt
  {
    if !IsAdmin(p) then Reply(FORBIDDEN, GateRejected)
    else
      var users := NewestFirst(t.rows);
      assert forall k :: 0 <= k < |t.rows| ==> users[|t.rows| - 1 - k] == Public(t.rows[k]);
      Reply(OK, UserList(users))
  }

  // ---------------------------------------------------------------------
  // GET /api/users/:id  (the caller's own record, or any record for an admin)
  // ---------------------------------------------------------------------

  function Get(t: Table, p: Principal, id: int): (r: Reply)
    ensures r.status in {OK, FORBIDDEN, NOT_FOUND}
    ensures r.status == FORBIDDEN <==> !IsAdmin(p) && id != p.id
    ensures r.status == NOT_FOUND <==> (IsAdmin(p) || id == p.id) && !IdInUse(t.rows, id)
    ensures r.status == OK ==> r.body.UserRecord? && exists u :: u in t.rows && u.id == id && r.body.user == Public(u)
  {
    if !IsAdmin(p) && id != p.id then Reply(FORBIDDEN, Message(ACCESS_DENIED))
    else
      var users := WithId(t.rows, id);
      if |users| == 0 then Reply(NOT_FOUND, Message(USER_NOT_FOUND))
      else
        assert users[0] in users;
        Reply(OK, UserRecord(Public(users[0])))
  }

  // ---------------------------------------------------------------------
  // POST /api/users  (admin only)
  // ---------------------------------------------------------------------

  /** Name, email and password are all given and non-empty. */
  predicate CreateFieldsPresent(body: CreateBody) {
    Truthy(body.name) && Truthy(body.email) && Truthy(body.password)
  }

  /** The request passes every check of `POST /api/users`. */
  predicate CreateAccepted(t: Table, p: Principal, body: CreateBody) {
    && IsAdmin(p)
    && CreateFieldsPresent(body)
    && |body.password.value| >= MIN_PASSWORD_LENGTH
    && !EmailInUse(t.rows, body.email.value)
  }

  /** The role a created user gets: the destructuring default applies only to an absent field. */
  function CreatedRole(body: CreateBody): string {
    body.role.GetOr(VIEWER_ROLE)
  }

  function Create(t: Table, hash: string -> Digest, p: Principal, body: CreateBody): (r: Outcome)
    ensures r.reply.status in {CREATED, BAD_REQUEST, FORBIDDEN, CONFLICT}
    ensures r.reply.status == FORBIDDEN <==> !IsAdmin(p)
    ensures r.reply == Reply(BAD_REQUEST, Message(CREATE_FIELDS_REQUIRED)) <==>
      IsAdmin(p) && !CreateFieldsPresent(body)
    ensures r.reply == Reply(BAD_REQUEST, Message(PASSWORD_TOO_SHORT)) <==>
      IsAdmin(p) && CreateFieldsPresent(body) && |body.password.value| < MIN_PASSWORD_LENGTH
    ensures r.reply.status == CONFLICT <==>
      IsAdmin(p) && CreateFieldsPresent(body) && |body.password.value| >= MIN_PASSWORD_LENGTH
      && EmailInUse(t.rows, body.email.value)
    ensures r.reply.status == CREATED <==> CreateAccepted(t, p, body)
    ensures r.reply.status != CREATED ==> r.table == t
    ensures CreateAccepted(t, p, body) ==>
      && r.table == Inserted(t, body.name.value, body.email.value, hash(body.password.value), CreatedRole(body))
      && r.reply.body == CreatedUser(USER_CREATED, NewUser(t.nextId, body.name.value, body.email.value, CreatedRole(body)))
    ensures WellFormed(t) ==> WellFormed(r.table)
    ensures EmailsUnique(t.rows) ==> EmailsUnique(r.table.rows)
  {
    if !IsAdmin(p) then Outcome(t, Reply(FORBIDDEN, GateRejected))
    else if !CreateFieldsPresent(body) then Outcome(t, Reply(BAD_REQUEST, Message(CREATE_FIELDS_REQUIRED)))
    else if |body.password.value| < MIN_PASSWORD_LENGTH then Outcome(t, Reply(BAD_REQUEST, Message(PASSWORD_TOO_SHORT)))
    else if |WithEmail(t.rows, body.email.value)| > 0 then Outcome(t, Reply(CONFLICT, Message(EMAIL_EXISTS)))
    else
      var name, email, role := body.name.value, body.email.value, CreatedRole(body);
      Outcome(
        Inserted(t, name, email, hash(body.password.value), role),
        Reply(CREATED, CreatedUser(USER_CREATED, NewUser(t.nextId, name, email, role))))
  }

  method HandleCreate(db: UserTable, p: Principal, body: CreateBody) returns (reply: Reply)
    requires db.Valid()
    modifies db
    ensures db.Valid()
    ensures Outcome(db.State(), reply) == Create(old(db.State()), db.hash, p, body)
  {
    if !IsAdmin(p) {
      return Reply(FORBIDDEN, GateRejected);
    }
    var name, email, password, role := body.name, body.email, body.password, CreatedRole(body);
    if !Truthy(name) || !Truthy(email) || !Truthy(password) {
      return Reply(BAD_REQUEST, Message(CREATE_FIELDS_REQUIRED));
    }
    if |password.value| < MIN_PASSWORD_LENGTH {
      return Reply(BAD_REQUEST, Message(PASSWORD_TOO_SHORT));
    }
    var existingUsers := WithEmail(db.rows, email.value);
    if |existingUsers| > 0 {
      return Reply(CONFLICT, Message(EMAIL_EXISTS));
    }
    var hashedPassword := db.hash(password.value);
    var insertId := db.Insert(name.value, email.value, hashedPassword, role);
    reply := Reply(CREATED, CreatedUser(USER_CREATED, NewUser(insertId, name.value, email.value, role)));
  }

  // ---------------------------------------------------------------------
  // PUT /api/users/:id  (admin only)
  // ---------------------------------------------------------------------

  predicate UpdateFieldsPresent(body: UpdateBody) {
    Truthy(body.name) && Truthy(body.email)
  }

  /** `role || 'viewer'`: an absent or empty role falls back to viewer. */
  function UpdatedRole(body: UpdateBody): string {
    if Truthy(body.role) then body.role.value else VIEWER_ROLE
  }

  /** `is_active !== undefined ? is_active : 1` */
  function UpdatedActive(body: UpdateBody): bool {
    body.isActive.GetOr(true)
  }

  /** The request passes every check of `PUT /api/users/:id`. */
  predicate UpdateAccepted(t: Table, p: Principal, id: int, body: UpdateBody) {
    && IsAdmin(p)
    && UpdateFieldsPresent(body)
    && IdInUse(t.rows, id)
    && !EmailTakenByOther(t.rows, body.email.value, id)
  }

  function Update(t: Table, p: Principal, id: int, body: UpdateBody): (r: Outcome)
    ensures r.reply.status in {OK, BAD_REQUEST, FORBIDDEN, NOT_FOUND, CONFLICT}
    ensures r.reply.status == FORBIDDEN <==> !IsAdmin(p)
    ensures r.reply.status == BAD_REQUEST <==> IsAdmin(p) && !UpdateFieldsPresent(body)
    ensures r.reply.status == NOT_FOUND <==>
      IsAdmin(p) && UpdateFieldsPresent(body) && !IdInUse(t.rows, id)
    ensures r.reply.status == CONFLICT <==>
      IsAdmin(p) && UpdateFieldsPresent(body) && IdInUse(t.rows, id)
      && EmailTakenByOther(t.rows, body.email.value, id)
    ensures r.reply.status == OK <==> UpdateAccepted(t, p, id, body)
    ensures r.reply.status != OK ==> r.table == t
    ensures UpdateAccepted(t, p, id, body) && WellFormed(t) ==>
      exists k :: 0 <= k < |t.rows| && t.rows[k].id == id &&
        r.table == t.(rows := t.rows[k := Edited(t.rows[k],
          body.name.value, body.email.value, UpdatedRole(body), UpdatedActive(body))])
    ensures WellFormed(t) ==> WellFormed(r.table)
    ensures WellFormed(t) && EmailsUnique(t.rows) ==> EmailsUnique(r.table.rows)
  {
    if !IsAdmin(p) then Outcome(t, Reply(FORBIDDEN, GateRejected))
    else if !UpdateFieldsPresent(body) then Outcome(t, Reply(BAD_REQUEST, Message(UPDATE_FIELDS_REQUIRED)))
    else if |WithId(t.rows, id)| == 0 then Outcome(t, Reply(NOT_FOUND, Message(USER_NOT_FOUND)))
    else if |WithEmailOtherId(t.rows, body.email.value, id)| > 0 then Outcome(t, Reply(CONFLICT, Message(EMAIL_TAKEN)))
    else
      var rows := UpdatedById(t.rows, id, body.name.value, body.email.value, UpdatedRole(body), UpdatedActive(body));
      UpdateFacts(t, id, body);
      Outcome(t.(rows := rows), Reply(OK, Message(USER_UPDATED)))
  }

  /** What an accepted update does to a well-formed table, and that it keeps emails unique. */
  lemma UpdateFacts(t: Table, id: int, body: UpdateBody)
    requires UpdateFieldsPresent(body) && IdInUse(t.rows, id)
    requires !EmailTakenByOther(t.rows, body.email.value, id)
    ensures var rows := UpdatedById(t.rows, id, body.name.value, body.email.value, UpdatedRole(body), UpdatedActive(body));
      WellFormed(t) ==>
        && WellFormed(t.(rows := rows))
        && (EmailsUnique(t.rows) ==> EmailsUnique(rows))
        && exists k :: (0 <= k < |t.rows| && t.rows[k].id == id &&
              rows == t.rows[k := Edited(t.rows[k], body.name.value, body.email.value, UpdatedRole(body), UpdatedActive(body))])
  {
    if WellFormed(t) {
      var name, email, role, active := body.name.value, body.email.value, UpdatedRole(body), UpdatedActive(body);
      var u :| u in t.rows && u.id == id;
      var k :| 0 <= k < |t.rows| && t.rows[k] == u;
      UpdatedKeepsWellFormed(t, id, name, email, role, active);
      UpdatedAt(t.rows, id, k, name, email, role, active);
      forall i | 0 <= i < |t.rows| && i != k ensures t.rows[i].email != email {
        assert t.rows[i] in t.rows;
      }
      if EmailsUnique(t.rows) {
        EditedKeepsEmailsUnique(t.rows, k, name, email, role, active);
      }
    }
  }

  method HandleUpdate(db: UserTable, p: Principal, id: int, body: UpdateBody) returns (reply: Reply)
    requires db.Valid()
    modifies db
    ensures db.Valid()
    ensures Outcome(db.State(), reply) == Update(old(db.State()), p, id, body)
  {
    if !IsAdmin(p) {
      return Reply(FORBIDDEN, GateRejected);
    }
    var name, email := body.name, body.email;
    if !Truthy(name) || !Truthy(email) {
      return Reply(BAD_REQUEST, Message(UPDATE_FIELDS_REQUIRED));
    }
    var existingUsers := WithId(db.rows, id);
    if |existingUsers| == 0 {
      return Reply(NOT_FOUND, Message(USER_NOT_FOUND));
    }
    var emailCheck := WithEmailOtherId(db.rows, email.value, id);
    if |emailCheck| > 0 {
      return Reply(CONFLICT, Message(EMAIL_TAKEN));
    }
    db.UpdateById(id, name.value, email.value, UpdatedRole(body), UpdatedActive(body));
    reply := Reply(OK, Message(USER_UPDATED));
  }

  // ---------------------------------------------------------------------
  // DELETE /api/users/:id  (admin only)
  // ---------------------------------------------------------------------

  predicate DeleteAccepted(t: Table, p: Principal, id: int) {
    IsAdmin(p) && id != p.id && IdInUse(t.rows, id)
  }

  function Delete(t: Table, p: Principal, id: int): (r: Outcome)
    ensures r.reply.status in {OK, BAD_REQUEST, FORBIDDEN, NOT_FOUND}
    ensures r.reply.status == FORBIDDEN <==> !IsAdmin(p)
    ensures r.reply.status == BAD_REQUEST <==> IsAdmin(p) && id == p.id
    ensures r.reply.status == NOT_FOUND <==> IsAdmin(p) && id != p.id && !IdInUse(t.rows, id)
    ensures r.reply.status == OK <==> DeleteAccepted(t, p, id)
    ensures r.reply.status != OK ==> r.table == t
    ensures DeleteAccepted(t, p, id) ==> forall u :: u in r.table.rows <==> u in t.rows && u.id != id
    ensures DeleteAccepted(t, p, id) && WellFormed(t) ==>
      exists k :: 0 <= k < |t.rows| && t.rows[k].id == id && r.table == t.(rows := t.rows[..k] + t.rows[k + 1..])
    ensures WellFormed(t) ==> WellFormed(r.table)
    ensures WellFormed(t) && EmailsUnique(t.rows) ==> EmailsUnique(r.table.rows)
  {
    if !IsAdmin(p) then Outcome(t, Reply(FORBIDDEN, GateRejected))
    else if id == p.id then Outcome(t, Reply(BAD_REQUEST, Message(CANNOT_DELETE_SELF)))
    else if |WithId(t.rows, id)| == 0 then Outcome(t, Reply(NOT_FOUND, Message(USER_NOT_FOUND)))
    else
      DeleteFacts(t, id);
      Outcome(t.(rows := WithoutId(t.rows, id)), Reply(OK, Message(USER_DELETED)))
  }

  /** What deleting an existing id does to a well-formed table. */
  lemma DeleteFacts(t: Table, id: int)
    requires IdInUse(t.rows, id)
    ensures var rows := WithoutId(t.rows, id);
      && (WellFormed(t) ==> WellFormed(t.(rows := rows)))
      && (WellFormed(t) && EmailsUnique(t.rows) ==> EmailsUnique(rows))
      && (WellFormed(t) ==> exists k :: 0 <= k < |t.rows| && t.rows[k].id == id && rows == t.rows[..k] + t.rows[k + 1..])
  {
    var rows := WithoutId(t.rows, id);
    if WellFormed(t) {
      var u :| u in t.rows && u.id == id;
      var k :| 0 <= k < |t.rows| && t.rows[k] == u;
      SelectAscending(t.rows, (v: User) => v.id != id);
      WithoutIdRemovesOne(t.rows, id, k);
      if EmailsUnique(t.rows) {
        RemovedKeepsEmailsUnique(t.rows, k);
      }
    }
  }

  method HandleDelete(db: UserTable, p: Principal, id: int) returns (reply: Reply)
    requires db.Valid()
    modifies db
    ensures db.Valid()
    ensures Outcome(db.State(), reply) == Delete(old(db.State()), p, id)
  {
    if !IsAdmin(p) {
      return Reply(FORBIDDEN, GateRejected);
    }
    if id == p.id {
      return Reply(BAD_REQUEST, Message(CANNOT_DELETE_SELF));
    }
    var existingUsers := WithId(db.rows, id);
    if |existingUsers| == 0 {
      return Reply(NOT_FOUND, Message(USER_NOT_FOUND));
    }
    db.DeleteById(id);
    reply := Reply(OK, Message(USER_DELETED));
  }
  // ---------------------------------------------------------------------
  // Properties that span several requests
  // ---------------------------------------------------------------------

  /** A created user can be read back at its new id, with the stored fields and no password. */
  lemma CreateThenGet(t: Table, hash: string -> Digest, p: Principal, body: CreateBody, q: Principal)
    requires WellFormed(t) && CreateAccepted(t, p, body)
    requires IsAdmin(q) || q.id == t.nextId
    ensures Get(Create(t, hash, p, body).table, q, t.nextId) ==
      Reply(OK, UserRecord(PublicUser(t.nextId, body.name.value, body.email.value, CreatedRole(body), true, t.clock)))
  {
  }

  /** A created user is listed first, being the newest. */
  lemma CreateThenList(t: Table, hash: string -> Digest, p: Principal, body: CreateBody, q: Principal)
    requires WellFormed(t) && CreateAccepted(t, p, body) && IsAdmin(q)
    ensures List(Create(t, hash, p, body).table, q).body.users[0] ==
      PublicUser(t.nextId, body.name.value, body.email.value, CreatedRole(body), true, t.clock)
  {
  }

  /** Creating a second user with the same email is a conflict. */
  lemma CreateSameEmailTwice(t: Table, hash: string -> Digest, p: Principal, first: CreateBody, second: CreateBody)
    requires CreateAccepted(t, p, first)
    requires CreateFieldsPresent(second) && |second.password.value| >= MIN_PASSWORD_LENGTH
    requires second.email == first.email
    ensures Create(Create(t, hash, p, first).table, hash, p, second).reply.status == CONFLICT
  {
  }

  /** Updating a user while keeping its own email is not a conflict. */
  lemma UpdateKeepingOwnEmail(t: Table, p: Principal, k: nat, body: UpdateBody)
    requires WellFormed(t) && EmailsUnique(t.rows)
    requires IsAdmin(p) && UpdateFieldsPresent(body)
    requires k < |t.rows| && body.email.value == t.rows[k].email
    ensures Update(t, p, t.rows[k].id, body).reply.status == OK
  {
  }

  /** An updated user reads back with the new fields and its original id and creation stamp. */
  lemma UpdateThenGet(t: Table, p: Principal, k: nat, body: UpdateBody, q: Principal)
    requires WellFormed(t) && k < |t.rows| && UpdateAccepted(t, p, t.rows[k].id, body)
    requires IsAdmin(q) || q.id == t.rows[k].id
    ensures Get(Update(t, p, t.rows[k].id, body).table, q, t.rows[k].id) ==
      Reply(OK, UserRecord(PublicUser(t.rows[k].id, body.name.value, body.email.value,
                                      UpdatedRole(body), UpdatedActive(body), t.rows[k].createdAt)))
  {
    var id := t.rows[k].id;
    var rows := Update(t, p, id, body).table.rows;
    UpdatedAt(t.rows, id, k, body.name.value, body.email.value, UpdatedRole(body), UpdatedActive(body));
    var found := WithId(rows, id);
    assert rows[k] in rows;
    assert found[0] in found;
    var j :| 0 <= j < |rows| && rows[j] == found[0];
    IdIdentifiesRow(rows, k, j);
  }

  /** Once a user is deleted, nobody can read it back. */
  lemma DeleteThenGet(t: Table, p: Principal, id: int, q: Principal)
    requires DeleteAccepted(t, p, id)
    ensures Get(Delete(t, p, id).table, q, id).status != OK
    ensures IsAdmin(q) ==> Get(Delete(t, p, id).table, q, id).status == NOT_FOUND
  {
  }
}
