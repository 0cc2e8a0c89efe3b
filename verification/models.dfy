/**
 * The `user` table (src/models.py) and the constraints the database enforces on it. The
 * table is a map from primary key to row together with the serial counter that hands out
 * the next key; rows are never deleted.
 */
module Models {
  import opened Wrappers
  import opened Exceptions
  import Crypto

  datatype User = User(
    id: int,
    email: string,
    profilePictureId: string,
    profilePictureUrl: string,
    hashedPassword: string,
    isActive: bool,
    isSuperuser: bool,
    createdAt: int)

  /** The attributes a new row is built from. The id and `created_at` are the server's to
      assign; flags left out take the column defaults. */
  datatype NewUser = NewUser(
    email: string,
    hashedPassword: string,
    profilePictureId: Option<string>,
    profilePictureUrl: string,
    isActive: Option<bool>,
    isSuperuser: Option<bool>)

  datatype Db = Db(users: map<int, User>, nextId: int)

  /** Range of `sa.Integer`, PostgreSQL's 32-bit `integer`, the type of the `id` column. */
  const IntegerMin := -0x8000_0000
  const IntegerMax := 0x7FFF_FFFF

  /** Whether a number can be bound as a parameter of `integer` type. */
  predicate IsInteger(n: int) {
    IntegerMin <= n <= IntegerMax
  }

  /** Declared width of the `email` column. */
  const EmailWidth := 255

  /** Declared width of the `hashed_password` column in src/models.py:13. */
  const HashedPasswordWidthAsWritten := 32

  /** A width that holds the hashes the service stores (see `InsertAsWrittenRejectsBcryptHash`). */
  const HashedPasswordWidth := Crypto.BcryptHashLength

  predicate EmailInUse(users: map<int, User>, email: string) {
    exists k | k in users :: users[k].email == email
  }

  /** Some row other than the one keyed `id` has this email. */
  predicate EmailHeldByOther(users: map<int, User>, email: string, id: int) {
    exists k | k in users && k != id :: users[k].email == email
  }

  predicate FitsColumns(email: string, hashedPassword: string, hashWidth: int) {
    |email| <= EmailWidth && |hashedPassword| <= hashWidth
  }

  ghost predicate UniqueEmails(users: map<int, User>) {
    forall a, b | a in users && b in users && users[a].email == users[b].email :: a == b
  }

  /** What the table's constraints guarantee of every state: each row is stored under its
      own id, below the serial counter, within the column widths, and emails are unique. */
  ghost predicate WellFormed(db: Db) {
    && 1 <= db.nextId
    && (forall k | k in db.users ::
          && db.users[k].id == k
          && 1 <= k < db.nextId
          && FitsColumns(db.users[k].email, db.users[k].hashedPassword, HashedPasswordWidth))
    && UniqueEmails(db.users)
  }

  /** `session.add(User(**fields))` followed by a commit, for a given `hashed_password` width. */
  function InsertWithWidth(db: Db, n: NewUser, now: int, hashWidth: int): Result<(Db, User), Error> {
    if n.profilePictureId.None? then Err(Database(NotNullViolation("profile_picture_id")))
    else if |n.email| > EmailWidth then Err(Database(ValueTooLong("email")))
    else if |n.hashedPassword| > hashWidth then Err(Database(ValueTooLong("hashed_password")))
    else if EmailInUse(db.users, n.email) then Err(Database(UniqueViolation("email")))
    else
      var u := User(db.nextId, n.email, n.profilePictureId.value, n.profilePictureUrl,
                    n.hashedPassword, n.isActive.GetOr(true), n.isSuperuser.GetOr(false), now);
      Ok((Db(db.users[u.id := u], db.nextId + 1), u))
  }

  /** Inserting a row: it succeeds exactly when the constraints allow it, the new row gets a
      fresh id, the flag defaults and the server's timestamp, and no other row changes. */
  function Insert(db: Db, n: NewUser, now: int): (r: Result<(Db, User), Error>)
    ensures r.Ok? <==>
      n.profilePictureId.Some? && FitsColumns(n.email, n.hashedPassword, HashedPasswordWidth)
      && !EmailInUse(db.users, n.email)
    ensures r.Err? ==> r.error.Database?
    ensures r.Err? && EmailInUse(db.users, n.email) && n.profilePictureId.Some?
      && FitsColumns(n.email, n.hashedPassword, HashedPasswordWidth)
      ==> r.error == Database(UniqueViolation("email"))
    ensures r.Ok? ==>
      var (db', u) := r.value;
      && db'.users == db.users[u.id := u]
      && u.email == n.email
      && u.hashedPassword == n.hashedPassword
      && Some(u.profilePictureId) == n.profilePictureId
      && u.profilePictureUrl == n.profilePictureUrl
      && (n.isActive.None? ==> u.isActive)
      && (n.isActive.Some? ==> u.isActive == n.isActive.value)
      && (n.isSuperuser.None? ==> !u.isSuperuser)
      && (n.isSuperuser.Some? ==> u.isSuperuser == n.isSuperuser.value)
      && u.createdAt == now
    ensures WellFormed(db) && r.Ok? ==> r.value.1.id !in db.users && WellFormed(r.value.0)
  {
    InsertPreservesWellFormed(db, n, now);
    InsertWithWidth(db, n, now, HashedPasswordWidth)
  }

  lemma InsertPreservesWellFormed(db: Db, n: NewUser, now: int)
    ensures WellFormed(db) && InsertWithWidth(db, n, now, HashedPasswordWidth).Ok? ==>
      var (db', u) := InsertWithWidth(db, n, now, HashedPasswordWidth).value;
      u.id !in db.users && WellFormed(db')
  {
    if !WellFormed(db) || InsertWithWidth(db, n, now, HashedPasswordWidth).Err? {
      return;
    }
    var (db', u) := InsertWithWidth(db, n, now, HashedPasswordWidth).value;
    assert !EmailInUse(db.users, n.email);
    forall a, b | a in db'.users && b in db'.users && db'.users[a].email == db'.users[b].email
      ensures a == b
    {
      if a != u.id && b != u.id {
        assert db'.users[a] == db.users[a];
      }
    }
  }

  /** The insert as src/models.py:13 declares the table, with a 32-character hash column. */
  function InsertAsWritten(db: Db, n: NewUser, now: int): (r: Result<(Db, User), Error>)
    ensures r.Ok? ==> |n.hashedPassword| <= HashedPasswordWidthAsWritten
  {
    InsertWithWidth(db, n, now, HashedPasswordWidthAsWritten)
  }

  /** Every bcrypt hash is 60 characters, so with the declared width every otherwise valid
      insert fails; with a width that holds a bcrypt hash the same insert succeeds. */
  lemma InsertAsWrittenRejectsBcryptHash(db: Db, n: NewUser, now: int)
    requires |n.hashedPassword| == Crypto.BcryptHashLength
    requires n.profilePictureId.Some? && |n.email| <= EmailWidth && !EmailInUse(db.users, n.email)
    ensures InsertAsWritten(db, n, now) == Err(Database(ValueTooLong("hashed_password")))
    ensures Insert(db, n, now).Ok?
  {
  }

  /** Writing back a changed row with a commit. */
  function Update(db: Db, u: User): (r: Result<Db, Error>)
    requires u.id in db.users
    ensures r.Ok? <==>
      FitsColumns(u.email, u.hashedPassword, HashedPasswordWidth)
      && !EmailHeldByOther(db.users, u.email, u.id)
    ensures r.Err? ==> r.error.Database?
    ensures r.Ok? ==> r.value.users == db.users[u.id := u] && r.value.nextId == db.nextId
    ensures WellFormed(db) && r.Ok? ==> WellFormed(r.value)
  {
    if |u.email| > EmailWidth then Err(Database(ValueTooLong("email")))
    else if |u.hashedPassword| > HashedPasswordWidth then Err(Database(ValueTooLong("hashed_password")))
    else if EmailHeldByOther(db.users, u.email, u.id) then Err(Database(UniqueViolation("email")))
    else
      var db' := db.(users := db.users[u.id := u]);
      assert WellFormed(db) ==> UniqueEmails(db'.users) by {
        if WellFormed(db) {
          forall a, b | a in db'.users && b in db'.users && db'.users[a].email == db'.users[b].email
            ensures a == b
          {
            if a != u.id && b != u.id {
              assert db'.users[a] == db.users[a];
            }
          }
        }
      }
      Ok(db')
  }

  // ---- The row as a Python object: a map from attribute name to value ----

  datatype Value = Null | Text(text: string) | Flag(flag: bool) | Number(number: int) | Instant(instant: int)

  type Entity = map<string, Value>

  const ColumnNames: set<string> := {
    "id", "email", "profile_picture_id", "profile_picture_url",
    "hashed_password", "is_active", "is_superuser", "created_at"
  }

  /** A mapped class: its table name and the names `dir()` lists for its instances. */
  datatype Mapping = Mapping(tableName: string, dir: set<string>)

  /** `User`: its columns plus the attributes the declarative base gives every mapped class. */
  const UserMapping := Mapping("user", ColumnNames + {
    "__tablename__", "__table__", "__mapper__", "__init__", "metadata", "registry",
    "_sa_class_manager", "_sa_registry"
  })

  function ToEntity(u: User): (e: Entity)
    ensures e.Keys == ColumnNames
  {
    map[
      "id" := Number(u.id),
      "email" := Text(u.email),
      "profile_picture_id" := Text(u.profilePictureId),
      "profile_picture_url" := Text(u.profilePictureUrl),
      "hashed_password" := Text(u.hashedPassword),
      "is_active" := Flag(u.isActive),
      "is_superuser" := Flag(u.isSuperuser),
      "created_at" := Instant(u.createdAt)
    ]
  }

  /** Every column is present and holds a value of the column's type. */
  predicate WellTyped(e: Entity) {
    && "id" in e && e["id"].Number?
    && "email" in e && e["email"].Text?
    && "profile_picture_id" in e && e["profile_picture_id"].Text?
    && "profile_picture_url" in e && e["profile_picture_url"].Text?
    && "hashed_password" in e && e["hashed_password"].Text?
    && "is_active" in e && e["is_active"].Flag?
    && "is_superuser" in e && e["is_superuser"].Flag?
    && "created_at" in e && e["created_at"].Instant?
  }

  /** Reads a row back from an object; attributes that are not columns are ignored. */
  function FromEntity(e: Entity): (r: Option<User>)
    ensures r.Some? <==> WellTyped(e)
    ensures r.Some? ==> forall c | c in ColumnNames :: ToEntity(r.value)[c] == e[c]
  {
    if !WellTyped(e) then None
    else Some(User(
      e["id"].number,
      e["email"].text,
      e["profile_picture_id"].text,
      e["profile_picture_url"].text,
      e["hashed_password"].text,
      e["is_active"].flag,
      e["is_superuser"].flag,
      e["created_at"].instant))
  }

  lemma EntityRoundTrip(u: User)
    ensures FromEntity(ToEntity(u)) == Some(u)
  {
  }
}
