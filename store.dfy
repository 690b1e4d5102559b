/**
 * The `users` table of the MySQL database, as the route handlers see it.
 *
 * The table is kept as the sequence of its rows in insertion order, with the
 * AUTO_INCREMENT counter for `id` and an insertion counter standing for the
 * `created_at` timestamp.  Queries (`SELECT ... WHERE`) are filters over the
 * rows; `INSERT`, `UPDATE ... WHERE id = ?` and `DELETE ... WHERE id = ?` are
 * the three ways the table changes.
 */
module UserStore {

  /** The stored bcrypt output; the model never looks inside it. */
  datatype Digest = Digest(text: string)

  /** One row of the `users` table. */
  datatype User = User(
    id: int,
    name: string,
    email: string,
    password: Digest,
    role: string,
    isActive: bool,
    createdAt: nat)

  /** The columns the directory routes select: every column except `password`. */
  datatype PublicUser = PublicUser(
    id: int,
    name: string,
    email: string,
    role: string,
    isActive: bool,
    createdAt: nat)

  function Public(u: User): PublicUser {
    PublicUser(u.id, u.name, u.email, u.role, u.isActive, u.createdAt)
  }

  /** The two role names the application uses; the `role` column itself is free text. */
  const ADMIN_ROLE := "admin"
  const VIEWER_ROLE := "viewer"

  /** The table's contents and its two counters. */
  datatype Table = Table(rows: seq<User>, nextId: int, clock: nat)

  /** A fresh table: AUTO_INCREMENT starts at 1. */
  const EMPTY_TABLE := Table([], 1, 0)

  /** Row `a` was inserted before row `b`: smaller id, earlier stamp. */
  predicate Before(a: User, b: User) {
    a.id < b.id && a.createdAt < b.createdAt
  }

  /** Later rows have larger ids and later creation stamps. */
  predicate Ascending(rows: seq<User>) {
    forall i, j :: 0 <= i < j < |rows| ==> Before(rows[i], rows[j])
  }

  /**
   * What the database guarantees of the table: ids are unique (primary key)
   * and below the AUTO_INCREMENT counter, and rows are stored in creation order.
   */
  predicate WellFormed(t: Table) {
    && Ascending(t.rows)
    && forall u :: u in t.rows ==> u.id < t.nextId && u.createdAt < t.clock
  }

  /** No two rows share an email. */
  predicate EmailsUnique(rows: seq<User>) {
    forall i, j :: 0 <= i < j < |rows| ==> rows[i].email != rows[j].email
  }

  predicate EmailInUse(rows: seq<User>, email: string) {
    exists u :: u in rows && u.email == email
  }

  predicate IdInUse(rows: seq<User>, id: int) {
    exists u :: u in rows && u.id == id
  }

  /** `SELECT ... FROM users WHERE cond`: the matching rows, in table order. */
  function Select(rows: seq<User>, cond: User -> bool): (r: seq<User>)
    ensures |r| <= |rows|
    ensures forall u :: u in r <==> u in rows && cond(u)
    ensures |r| == 0 <==> forall u :: u in rows ==> !cond(u)
  {
    if rows == [] then []
    else
      assert rows == [rows[0]] + rows[1..];
      if cond(rows[0]) then [rows[0]] + Select(rows[1..], cond)
      else Select(rows[1..], cond)
  }

  /** A row put in front of an ascending sequence of later rows. */
  lemma ConsAscending(x: User, s: seq<User>)
    requires Ascending(s)
    requires forall u :: u in s ==> Before(x, u)
    ensures Ascending([x] + s)
  {
    var r := [x] + s;
    forall i, j | 0 <= i < j < |r|
      ensures Before(r[i], r[j])
    {
      assert r[j] == s[j - 1];
      if i > 0 {
        assert r[i] == s[i - 1];
      }
    }
  }

  /** A query keeps the table's order: its result is again ascending. */
  lemma {:induction false} SelectAscending(rows: seq<User>, cond: User -> bool)
    requires Ascending(rows)
    ensures Ascending(Select(rows, cond))
  {
    if rows != [] {
      TailAscending(rows);
      SelectAscending(rows[1..], cond);
      if cond(rows[0]) {
        ConsAscending(rows[0], Select(rows[1..], cond));
      }
    }
  }

  /** `SELECT ... WHERE email = ?` */
  function WithEmail(rows: seq<User>, email: string): seq<User> {
    Select(rows, (u: User) => u.email == email)
  }

  /** `SELECT ... WHERE id = ?` */
  function WithId(rows: seq<User>, id: int): seq<User> {
    Select(rows, (u: User) => u.id == id)
  }

  /** `SELECT ... WHERE email = ? AND id != ?` */
  function WithEmailOtherId(rows: seq<User>, email: string, id: int): seq<User> {
    Select(rows, (u: User) => u.email == email && u.id != id)
  }

  /** The rows a `DELETE FROM users WHERE id = ?` leaves behind. */
  function WithoutId(rows: seq<User>, id: int): seq<User> {
    Select(rows, (u: User) => u.id != id)
  }

  /**
   * `INSERT INTO users (name, email, password, role)`: the row gets the next
   * AUTO_INCREMENT id, the column default `is_active = true` and the current
   * creation stamp.
   */
  function Inserted(t: Table, name: string, email: string, password: Digest, role: string): (t': Table)
    ensures WellFormed(t) ==> WellFormed(t')
    ensures |t'.rows| == |t.rows| + 1 && t'.rows[..|t.rows|] == t.rows
    ensures t'.nextId > t.nextId && t'.clock > t.clock
  {
    Table(t.rows + [User(t.nextId, name, email, password, role, true, t.clock)], t.nextId + 1, t.clock + 1)
  }

  /** Row `u` with the four columns an update sets. */
  function Edited(u: User, name: string, email: string, role: string, isActive: bool): User {
    u.(name := name, email := email, role := role, isActive := isActive)
  }

  /** `UPDATE users SET name, email, role, is_active WHERE id = ?` */
  function UpdatedById(rows: seq<User>, id: int, name: string, email: string, role: string, isActive: bool): (r: seq<User>)
    ensures |r| == |rows|
    ensures forall i :: 0 <= i < |rows| ==>
      r[i].id == rows[i].id && r[i].password == rows[i].password && r[i].createdAt == rows[i].createdAt
    ensures forall i :: 0 <= i < |rows| && rows[i].id != id ==> r[i] == rows[i]
  {
    seq(|rows|, i requires 0 <= i < |rows| =>
      if rows[i].id == id then Edited(rows[i], name, email, role, isActive) else rows[i])
  }

  /** In an ascending table, a row is found at exactly one index by its id. */
  lemma IdIdentifiesRow(rows: seq<User>, k: nat, j: nat)
    requires Ascending(rows) && k < |rows| && j < |rows|
    requires rows[j].id == rows[k].id
    ensures j == k
  {
  }

  /** With unique ids, an update by id changes exactly the one row with that id. */
  lemma UpdatedAt(rows: seq<User>, id: int, k: nat, name: string, email: string, role: string, isActive: bool)
    requires Ascending(rows) && k < |rows| && rows[k].id == id
    ensures UpdatedById(rows, id, name, email, role, isActive) == rows[k := Edited(rows[k], name, email, role, isActive)]
  {
    forall i | 0 <= i < |rows| && rows[i].id == id ensures i == k {
      IdIdentifiesRow(rows, k, i);
    }
  }

  /** An update by id keeps the table well formed: ids and stamps do not change. */
  lemma UpdatedKeepsWellFormed(t: Table, id: int, name: string, email: string, role: string, isActive: bool)
    requires WellFormed(t)
    ensures WellFormed(t.(rows := UpdatedById(t.rows, id, name, email, role, isActive)))
  {
    var rows := UpdatedById(t.rows, id, name, email, role, isActive);
    forall i, j | 0 <= i < j < |rows| ensures Before(rows[i], rows[j]) {
      assert Before(t.rows[i], t.rows[j]);
    }
    forall v | v in rows ensures v.id < t.nextId && v.createdAt < t.clock {
      var i :| 0 <= i < |rows| && rows[i] == v;
      assert t.rows[i] in t.rows;
    }
  }

  /** Giving one row an email no other row has keeps emails unique. */
  lemma EditedKeepsEmailsUnique(rows: seq<User>, k: nat, name: string, email: string, role: string, isActive: bool)
    requires EmailsUnique(rows) && k < |rows|
    requires forall i :: 0 <= i < |rows| && i != k ==> rows[i].email != email
    ensures EmailsUnique(rows[k := Edited(rows[k], name, email, role, isActive)])
  {
  }

  /** Dropping the first row keeps a sequence ascending. */
  lemma TailAscending(rows: seq<User>)
    requires Ascending(rows) && rows != []
    ensures Ascending(rows[1..])
    ensures forall u :: u in rows[1..] ==> Before(rows[0], u)
  {
    var tail := rows[1..];
    forall i, j | 0 <= i < j < |tail| ensures Before(tail[i], tail[j]) {
      assert tail[i] == rows[i + 1] && tail[j] == rows[j + 1];
    }
    forall u | u in tail ensures Before(rows[0], u) {
      var k :| 0 <= k < |tail| && tail[k] == u;
      assert u == rows[k + 1];
    }
  }

  /** With unique ids, a `DELETE ... WHERE id = ?` removes exactly the one row with that id. */
  lemma {:induction false} WithoutIdRemovesOne(rows: seq<User>, id: int, k: nat)
    requires Ascending(rows)
    requires k < |rows| && rows[k].id == id
    ensures WithoutId(rows, id) == rows[..k] + rows[k + 1..]
  {
    var tail := rows[1..];
    TailAscending(rows);
    if k == 0 {
      assert WithoutId(rows, id) == WithoutId(tail, id);
      WithoutIdKeepsAll(tail, id);
      assert rows[..0] + rows[1..] == tail;
    } else {
      assert Before(rows[0], rows[k]);
      WithoutIdRemovesOne(tail, id, k - 1);
      ConsSplice(rows, k);
    }
  }

  /** Putting the first row back in front of a sequence with one row spliced out. */
  lemma ConsSplice(rows: seq<User>, k: nat)
    requires 0 < k < |rows|
    ensures [rows[0]] + (rows[1..][..k - 1] + rows[1..][k..]) == rows[..k] + rows[k + 1..]
  {
    assert rows[1..][..k - 1] == rows[1..k] && rows[1..][k..] == rows[k + 1..];
    assert [rows[0]] + rows[1..k] == rows[..k];
  }

  /** Taking one row out cannot make two emails collide. */
  lemma RemovedKeepsEmailsUnique(rows: seq<User>, k: nat)
    requires k < |rows| && EmailsUnique(rows)
    ensures EmailsUnique(rows[..k] + rows[k + 1..])
  {
    var rest := rows[..k] + rows[k + 1..];
    forall i, j | 0 <= i < j < |rest| ensures rest[i].email != rest[j].email {
      var i', j' := if i < k then i else i + 1, if j < k then j else j + 1;
      assert rest[i] == rows[i'] && rest[j] == rows[j'];
    }
  }

  /** A `DELETE ... WHERE id = ?` for an id no row carries leaves every row. */
  lemma {:induction false} WithoutIdKeepsAll(rows: seq<User>, id: int)
    requires forall u :: u in rows ==> u.id != id
    ensures WithoutId(rows, id) == rows
  {
    if rows != [] {
      assert WithoutId(rows, id) == [rows[0]] + WithoutId(rows[1..], id);
      WithoutIdKeepsAll(rows[1..], id);
      assert [rows[0]] + rows[1..] == rows;
    }
  }

  /**
   * The table as the rest of the application shares it through the
   * connection pool.  Its methods are the statements that change it.
   */
  class UserTable {
    var rows: seq<User>
    var nextId: int
    var clock: nat
    /** `bcrypt.hash(_, 12)`, treated as an opaque function. */
    const hash: string -> Digest

    function State(): Table
      reads this
    {
      Table(rows, nextId, clock)
    }

    ghost predicate Valid()
      reads this
    {
      WellFormed(State())
    }

    constructor (hash: string -> Digest)
      ensures Valid() && State() == EMPTY_TABLE && this.hash == hash
    {
      rows, nextId, clock := [], 1, 0;
      this.hash := hash;
    }

    /** `INSERT INTO users ...`; returns `insertId`. */
    method Insert(name: string, email: string, password: Digest, role: string) returns (id: int)
      requires Valid()
      modifies this
      ensures Valid()
      ensures State() == Inserted(old(State()), name, email, password, role)
      ensures id == old(nextId) && rows[|rows| - 1].id == id
    {
      id := nextId;
      rows := rows + [User(id, name, email, password, role, true, clock)];
      nextId, clock := nextId + 1, clock + 1;
    }

    /** `UPDATE users SET ... WHERE id = ?` */
    method UpdateById(id: int, name: string, email: string, role: string, isActive: bool)
      requires Valid()
      modifies this
      ensures Valid()
      ensures State() == old(State()).(rows := UpdatedById(old(rows), id, name, email, role, isActive))
    {
      rows := UpdatedById(rows, id, name, email, role, isActive);
      assert forall u :: u in rows ==> exists i :: 0 <= i < |rows| && rows[i] == u;
    }

    /** `DELETE FROM users WHERE id = ?` */
    method DeleteById(id: int)
      requires Valid()
      modifies this
      ensures Valid()
      ensures State() == old(State()).(rows := WithoutId(old(rows), id))
    {
      SelectAscending(rows, (u: User) => u.id != id);
      rows := WithoutId(rows, id);
    }
  }
}
