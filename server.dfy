/**
 * Start-up of the API server: before serving requests it makes sure a
 * default administrator account exists.
 */
module Server {
  import opened UserStore

  const DEFAULT_ADMIN_NAME := "Admin User"
  const DEFAULT_ADMIN_EMAIL := "admin@admin.com"
  const DEFAULT_ADMIN_PASSWORD := "admin123"

  /** The table after `createDefaultAdmin`: the admin row is inserted unless its email is taken. */
  function DefaultAdmin(t: Table, hash: string -> Digest): (t': Table)
    ensures !EmailInUse(t.rows, DEFAULT_ADMIN_EMAIL) ==>
      t' == Inserted(t, DEFAULT_ADMIN_NAME, DEFAULT_ADMIN_EMAIL, hash(DEFAULT_ADMIN_PASSWORD), ADMIN_ROLE)
    ensures EmailInUse(t.rows, DEFAULT_ADMIN_EMAIL) ==> t' == t
    ensures EmailInUse(t'.rows, DEFAULT_ADMIN_EMAIL)
    ensures WellFormed(t) ==> WellFormed(t')
    ensures EmailsUnique(t.rows) ==> EmailsUnique(t'.rows)
  {
    if |WithEmail(t.rows, DEFAULT_ADMIN_EMAIL)| == 0 then
      var t' := Inserted(t, DEFAULT_ADMIN_NAME, DEFAULT_ADMIN_EMAIL, hash(DEFAULT_ADMIN_PASSWORD), ADMIN_ROLE);
      assert t'.rows[|t.rows|] in t'.rows;
      t'
    else t
  }

  /** Running the start-up check a second time changes nothing. */
  lemma DefaultAdminIdempotent(t: Table, hash: string -> Digest)
    ensures DefaultAdmin(DefaultAdmin(t, hash), hash) == DefaultAdmin(t, hash)
  {
  }

  /** `createDefaultAdmin()` against the shared table. */
  method CreateDefaultAdmin(db: UserTable)
    requires db.Valid()
    modifies db
    ensures db.Valid()
    ensures db.State() == DefaultAdmin(old(db.State()), db.hash)
  {
    var existingAdmin := WithEmail(db.rows, DEFAULT_ADMIN_EMAIL);
    if |existingAdmin| == 0 {
      var hashedPassword := db.hash(DEFAULT_ADMIN_PASSWORD);
      var _ := db.Insert(DEFAULT_ADMIN_NAME, DEFAULT_ADMIN_EMAIL, hashedPassword, ADMIN_ROLE);
    }
  }
}
