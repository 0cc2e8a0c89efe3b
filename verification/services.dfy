/**
 * The user directory `UserService` (src/services.py): lookup by id and/or email, password
 * authentication, registration insert and partial update. Each operation takes the table
 * and, when it writes, returns the table after its commit; a failed operation commits
 * nothing.
 */
module Services {
  import opened Wrappers
  import opened Exceptions
  import opened Models
  import opened Crypto
  import opened Schemas
  import Patcher

  const NoSelectorMessage := "At least one argument must be filled"

  /** Whether a row passes the query's `where` filters. */
  predicate Selected(u: User, id: Option<int>, email: Option<string>) {
    (id.None? || u.id == id.value) && (email.None? || u.email == email.value)
  }

  /** The value is a row of the table. */
  predicate IsRow(db: Db, u: User) {
    exists k | k in db.users :: db.users[k] == u
  }

  /** Rows `a` and `b` pass the filters only if they are the same row. */
  predicate AtMostOneSelected(db: Db, id: Option<int>, email: Option<string>) {
    forall a, b | a in db.users && b in db.users && Selected(db.users[a], id, email) && Selected(db.users[b], id, email) ::
      a == b
  }

  /** In a well-formed table at most one row matches an id or an email. */
  lemma WellFormedSelectsAtMostOne(db: Db, id: Option<int>, email: Option<string>)
    ensures WellFormed(db) && (id.Some? || email.Some?) ==> AtMostOneSelected(db, id, email)
  {
  }

  /**
   * `get_user`: the single row matching every selector given. No selector is an error; an
   * id outside the range of the `integer` column cannot be bound into the query; no
   * matching row is `None`; more than one is the query's "multiple rows" fault, which a
   * well-formed table never produces.
   */
  function GetUser(db: Db, id: Option<int>, email: Option<string>): (r: Result<Option<User>, Error>)
    ensures id.None? && email.None? ==> r == Err(ValueError(NoSelectorMessage))
    ensures r == Err(Database(OutOfRange("id"))) <==> id.Some? && !IsInteger(id.value)
    ensures r.Ok? && r.value.Some? ==>
      && IsRow(db, r.value.value)
      && Selected(r.value.value, id, email)
      && forall k | k in db.users && Selected(db.users[k], id, email) :: db.users[k] == r.value.value
    ensures r.Ok? && r.value.None? ==> forall k | k in db.users :: !Selected(db.users[k], id, email)
    ensures r == Err(Database(MultipleResultsFound)) <==>
      && (id.Some? || email.Some?) && (id.None? || IsInteger(id.value))
      && !AtMostOneSelected(db, id, email)
    ensures r.Err? && (id.Some? || email.Some?) ==>
      r.error == Database(OutOfRange("id")) || r.error == Database(MultipleResultsFound)
    ensures WellFormed(db) && (id.Some? || email.Some?) && (id.None? || IsInteger(id.value)) ==> r.Ok?
  {
    if id.None? && email.None? then Err(ValueError(NoSelectorMessage))
    else if id.Some? && !IsInteger(id.value) then Err(Database(OutOfRange("id")))
    else if !exists k | k in db.users :: Selected(db.users[k], id, email) then Ok(None)
    else if AtMostOneSelected(db, id, email) then
      var k :| k in db.users && Selected(db.users[k], id, email);
      Ok(Some(db.users[k]))
    else
      WellFormedSelectsAtMostOne(db, id, email);
      Err(Database(MultipleResultsFound))
  }

  /** In a well-formed table every row is stored under its own id. */
  lemma RowsKeyedById(db: Db)
    ensures WellFormed(db) ==> forall v | IsRow(db, v) :: v.id in db.users && db.users[v.id] == v
  {
    if WellFormed(db) {
      forall v | IsRow(db, v) ensures v.id in db.users && db.users[v.id] == v {
        var k :| k in db.users && db.users[k] == v;
      }
    }
  }

  /** Lookup by id in a well-formed table is the map lookup, for every id the column type
      can hold. */
  lemma GetUserById(db: Db, id: int)
    requires WellFormed(db)
    ensures GetUser(db, Some(id), None) ==
      if !IsInteger(id) then Err(Database(OutOfRange("id")))
      else Ok(if id in db.users then Some(db.users[id]) else None)
  {
    var r := GetUser(db, Some(id), None);
    RowsKeyedById(db);
    if id in db.users {
      assert Selected(db.users[id], Some(id), None);
    }
  }

  /** Lookup by email in a well-formed table finds a row exactly when one has that email. */
  lemma GetUserByEmail(db: Db, email: string)
    requires WellFormed(db)
    ensures var r := GetUser(db, None, Some(email));
      && r.Ok?
      && (r.value.Some? <==> EmailInUse(db.users, email))
      && (r.value.Some? ==> r.value.value.email == email)
  {
    var r := GetUser(db, None, Some(email));
    if EmailInUse(db.users, email) {
      var k :| k in db.users && db.users[k].email == email;
      assert Selected(db.users[k], None, Some(email));
    }
    RowsKeyedById(db);
  }

  /**
   * `authenticate_user`: the row with this email, if the password verifies against its
   * hash. The `is_active` flag is not consulted.
   */
  function AuthenticateUser(db: Db, h: Hasher, email: string, password: string): (r: Result<Option<User>, Error>)
    ensures r.Ok? && r.value.Some? ==>
      && IsRow(db, r.value.value)
      && r.value.value.email == email
      && h.verify(password, r.value.value.hashedPassword)
    ensures r.Ok? && r.value.None? ==>
      forall k | k in db.users && db.users[k].email == email :: !h.verify(password, db.users[k].hashedPassword)
    ensures r.Err? ==> r.error == Database(MultipleResultsFound)
    ensures WellFormed(db) ==> r.Ok?
  {
    var found :- GetUser(db, None, Some(email));
    match found
    case None => Ok(None)
    case Some(u) =>
      assert forall k | k in db.users && db.users[k].email == email :: db.users[k] == u by {
        forall k | k in db.users && db.users[k].email == email ensures db.users[k] == u {
          assert Selected(db.users[k], None, Some(email));
        }
      }
      if VerifyPassword(h, password, u.hashedPassword) then Ok(Some(u)) else Ok(None)
  }

  /** A stored row whose hash the password verifies against is returned, active or not. */
  lemma AuthenticateUserFindsRecord(db: Db, h: Hasher, k: int, password: string)
    requires WellFormed(db)
    requires k in db.users && h.verify(password, db.users[k].hashedPassword)
    ensures AuthenticateUser(db, h, db.users[k].email, password) == Ok(Some(db.users[k]))
  {
    var r := AuthenticateUser(db, h, db.users[k].email, password);
    if r.value.Some? {
      var j :| j in db.users && db.users[j] == r.value.value;
    }
  }

  // ---- Profile picture ----

  /** Where the picture id is fetched from (src/utils.py:21). */
  const PictureApi := "https://cataas.com/cat"

  /** The host src/services.py:48 writes into the stored URL. */
  const PictureHostAsWritten := "https://catass.com/cat"

  const PictureQuery := "?width=200&height=200"

  /** How an f-string renders the fetched id; a missing `_id` renders as "None". */
  function PictureIdText(pictureId: Option<string>): string {
    match pictureId
    case Some(s) => s
    case None => "None"
  }

  function PictureUrlOn(host: string, pictureId: Option<string>): string {
    host + "/" + PictureIdText(pictureId) + PictureQuery
  }

  /** The stored picture URL as src/services.py:48 builds it. */
  function ProfilePictureUrlAsWritten(pictureId: Option<string>): (url: string)
    ensures |url| > |PictureHostAsWritten| && url[..|PictureHostAsWritten|] == PictureHostAsWritten
  {
    PictureUrlOn(PictureHostAsWritten, pictureId)
  }

  /** The stored picture URL on the host the picture came from, with the id recoverable. */
  function ProfilePictureUrl(pictureId: Option<string>): (url: string)
    ensures |url| == |PictureApi| + 1 + |PictureIdText(pictureId)| + |PictureQuery|
    ensures url[..|PictureApi| + 1] == PictureApi + "/"
    ensures url[|PictureApi| + 1..|url| - |PictureQuery|] == PictureIdText(pictureId)
    ensures url[|url| - |PictureQuery|..] == PictureQuery
  {
    PictureUrlOn(PictureApi, pictureId)
  }

  /** The URL as written points at a host other than the one the picture was fetched from;
      the corrected URL matches the stored seed records. */
  lemma ProfilePictureUrlAsWrittenMissesApiHost(pictureId: Option<string>)
    ensures ProfilePictureUrlAsWritten(pictureId)[..|PictureApi|] != PictureApi
    ensures ProfilePictureUrl(pictureId)[..|PictureApi|] == PictureApi
  {
    var w := ProfilePictureUrlAsWritten(pictureId);
    assert |PictureApi| == |PictureHostAsWritten|;
    assert w[..|PictureApi|] == PictureHostAsWritten;
    assert PictureHostAsWritten[12] != PictureApi[12];
    var url := ProfilePictureUrl(pictureId);
    assert url[..|PictureApi|] == url[..|PictureApi| + 1][..|PictureApi|];
  }

  /** The corrected URL is the one the seed records store for their pictures, written here
      as its address, id and query. */
  lemma ProfilePictureUrlOfSeedRecord()
    ensures ProfilePictureUrl(Some("Z0aeZsdukWvVItTO"))
      == "https://cataas.com/cat/" + "Z0aeZsdukWvVItTO" + "?width=200&height=200"
  {
    assert PictureApi + "/" == "https://cataas.com/cat/";
  }

  // ---- Create ----

  /** The row a registration produces: email and hash from the form, picture from the fetch;
      id, flags and timestamp are left to the table. */
  function NewUserFrom(h: Hasher, salt: Salt, data: UserSchemaIn, pictureId: Option<string>): NewUser {
    NewUser(data.email, GetPasswordHash(h, salt, data.password1), pictureId,
            ProfilePictureUrl(pictureId), None, None)
  }

  /**
   * `create_user`: hash the password, decorate with the fetched picture and insert. The
   * insert fails when the fetch gave no id or the email is taken.
   */
  function CreateUser(db: Db, h: Hasher, salt: Salt, data: UserSchemaIn, pictureId: Option<string>, now: int)
    : (r: Result<(Db, User), Error>)
    ensures r.Ok? <==>
      && pictureId.Some? && !EmailInUse(db.users, data.email)
      && FitsColumns(data.email, GetPasswordHash(h, salt, data.password1), HashedPasswordWidth)
    ensures r.Err? ==> r.error.Database?
    ensures r.Ok? ==>
      var (db', u) := r.value;
      && db'.users == db.users[u.id := u]
      && u.email == data.email
      && u.isActive && !u.isSuperuser
      && u.createdAt == now
      && Some(u.profilePictureId) == pictureId
      && u.profilePictureUrl == ProfilePictureUrl(pictureId)
      && (RoundTrips(h) ==> h.verify(data.password1, u.hashedPassword))
      && (Discriminates(h) ==> forall other | h.verify(other, u.hashedPassword) :: other == data.password1)
    ensures WellFormed(db) && r.Ok? ==> r.value.1.id !in db.users && WellFormed(r.value.0)
  {
    Insert(db, NewUserFrom(h, salt, data, pictureId), now)
  }

  /** `create_user` against the table and picture host exactly as declared: a 32-character
      `hashed_password` column and the misspelt host. */
  function CreateUserAsWritten(db: Db, h: Hasher, salt: Salt, data: UserSchemaIn, pictureId: Option<string>, now: int)
    : (r: Result<(Db, User), Error>)
    ensures r.Ok? <==>
      && pictureId.Some? && !EmailInUse(db.users, data.email)
      && FitsColumns(data.email, GetPasswordHash(h, salt, data.password1), HashedPasswordWidthAsWritten)
    ensures r.Ok? ==> r.value.1.profilePictureUrl == ProfilePictureUrlAsWritten(pictureId)
  {
    InsertAsWritten(db, NewUser(data.email, GetPasswordHash(h, salt, data.password1), pictureId,
                                ProfilePictureUrlAsWritten(pictureId), None, None), now)
  }

  /** With a hasher producing bcrypt-length hashes, no registration gets past the declared
      column: a request the corrected table accepts is refused with the over-long hash. */
  lemma CreateUserAsWrittenRejectsBcryptHash(db: Db, h: Hasher, salt: Salt, data: UserSchemaIn,
                                             pictureId: Option<string>, now: int)
    requires BcryptShaped(h)
    ensures CreateUserAsWritten(db, h, salt, data, pictureId, now).Err?
    ensures CreateUser(db, h, salt, data, pictureId, now).Ok? ==>
      CreateUserAsWritten(db, h, salt, data, pictureId, now) == Err(Database(ValueTooLong("hashed_password")))
  {
    var hashed := GetPasswordHash(h, salt, data.password1);
    assert |hashed| == BcryptHashLength;
    if CreateUser(db, h, salt, data, pictureId, now).Ok? {
      InsertAsWrittenRejectsBcryptHash(db, NewUser(data.email, hashed, pictureId,
                                                   ProfilePictureUrlAsWritten(pictureId), None, None), now);
    }
  }

  // ---- Patch ----

  /** The reference for a successful patch: each of email, `is_active` and `is_superuser`
      that was sent with a value takes it; every other column keeps its value. */
  function Patched(u: User, p: UserSchemaPatch): User {
    u.(email := if p.email.SetTo? && p.email.value.Some? then p.email.value.value else u.email,
       isActive := if p.isActive.SetTo? && p.isActive.value.Some? then p.isActive.value.value else u.isActive,
       isSuperuser := if p.isSuperuser.SetTo? && p.isSuperuser.value.Some? then p.isSuperuser.value.value else u.isSuperuser)
  }

  /** The names a patch hands over are all attributes of `User` except `password`. */
  lemma PatchNamesKnown(p: UserSchemaPatch)
    ensures var data := SuppliedFields(p);
      && (p.password.Unset? ==> Patcher.AllKnown(UserMapping, data))
      && (p.password.SetTo? ==>
            !Patcher.AllKnown(UserMapping, data)
            && data[Patcher.FirstUnknown(UserMapping, data)].0 == "password")
  {
    var data := SuppliedFields(p);
    SuppliedFieldsAreSent(p);
    assert forall i | 0 <= i < |data| :: data[i] in data;
    assert "password" !in UserMapping.dir;
    if p.password.SetTo? {
      assert IsSent(p, "password");
      assert ("password", SentValue(p, "password")) in data;
    }
  }

  /** For a patch without a password, the last non-null value given to a column is the one
      sent for it. */
  lemma LastNonNullOfSent(p: UserSchemaPatch, c: string)
    requires p.password.Unset?
    ensures Patcher.LastNonNull(SuppliedFields(p), c) ==
      if IsSent(p, c) && !SentValue(p, c).Null? then Some(SentValue(p, c)) else None
  {
    var data := SuppliedFields(p);
    SuppliedFieldsAreSent(p);
    if IsSent(p, c) {
      assert c in PatchFieldNames;
      assert (c, SentValue(p, c)) in data;
      var i :| 0 <= i < |data| && data[i] == (c, SentValue(p, c));
      Patcher.LastNonNullOfDict(data, i);
    } else {
      assert forall i | 0 <= i < |data| :: data[i] in data;
    }
  }

  /** Every name a patch sends with a value is a column. */
  lemma SuppliedNamesAreColumns(p: UserSchemaPatch)
    ensures Patcher.NamedKeys(SuppliedFields(p)) <= ColumnNames + {"password"}
    ensures p.password.Unset? ==> Patcher.NamedKeys(SuppliedFields(p)) <= ColumnNames
  {
    var data := SuppliedFields(p);
    SuppliedFieldsAreSent(p);
    assert forall i | 0 <= i < |data| :: data[i] in data;
  }

  /** Overlaying the sent fields on a user's object gives the object of the reference. */
  lemma PatchOverlay(u: User, p: UserSchemaPatch)
    requires p.password.Unset?
    ensures Patcher.Overlay(ToEntity(u), SuppliedFields(p)) == ToEntity(Patched(u, p))
  {
    var o := Patcher.Overlay(ToEntity(u), SuppliedFields(p));
    var want := ToEntity(Patched(u, p));
    SuppliedNamesAreColumns(p);
    assert o.Keys == want.Keys;
    forall c | c in o.Keys ensures o[c] == want[c] {
      PatchOverlayAt(u, p, c);
    }
  }

  lemma PatchOverlayAt(u: User, p: UserSchemaPatch, c: string)
    requires p.password.Unset?
    requires c in ColumnNames
    ensures var o := Patcher.Overlay(ToEntity(u), SuppliedFields(p));
      c in o && o[c] == ToEntity(Patched(u, p))[c]
  {
    LastNonNullOfSent(p, c);
    Patcher.OverlayAt(ToEntity(u), SuppliedFields(p), c);
    PatchedColumn(u, p, c);
  }

  /** The reference, column by column: a column sent with a value takes it. */
  lemma PatchedColumn(u: User, p: UserSchemaPatch, c: string)
    requires p.password.Unset?
    requires c in ColumnNames
    ensures ToEntity(Patched(u, p))[c] ==
      if IsSent(p, c) && !SentValue(p, c).Null? then SentValue(p, c) else ToEntity(u)[c]
  {
    if c !in PatchFieldNames {
      assert !IsSent(p, c);
    }
  }

  /** What `update_sql_entity` does to a user object for a patch: `password` is not an
      attribute of `User`, so naming it fails (after an email given before it is written);
      any other patch yields the reference. */
  lemma PatchEntity(u: User, p: UserSchemaPatch)
    requires !NothingSupplied(p)
    ensures var o := Patcher.UpdateSqlEntity(UserMapping, ToEntity(u), SuppliedFields(p));
      && (o.raised.None? <==> p.password.Unset?)
      && (o.raised.None? ==> o.entity == ToEntity(Patched(u, p)))
      && (o.raised.Some? ==> o.raised.value == Patcher.MissingAttribute(UserMapping, "password"))
  {
    PatchNamesKnown(p);
    if p.password.Unset? {
      PatchOverlay(u, p);
    }
  }

  /**
   * `patch_user`: the fields that were sent are handed to `update_sql_entity` and the
   * result is committed. An empty patch is refused before anything is touched.
   */
  function PatchUser(db: Db, stored: User, patch: UserSchemaPatch): (r: Result<(Db, User), Error>)
    requires stored.id in db.users
    ensures NothingSupplied(patch) ==> r == Err(ValueError(Patcher.NoDataMessage))
    ensures patch.password.SetTo? ==> r == Err(Patcher.MissingAttribute(UserMapping, "password"))
    ensures !NothingSupplied(patch) && patch.password.Unset? ==>
      (r.Ok? <==>
        FitsColumns(Patched(stored, patch).email, stored.hashedPassword, HashedPasswordWidth)
        && !EmailHeldByOther(db.users, Patched(stored, patch).email, stored.id))
    ensures r.Ok? ==>
      var (db', u) := r.value;
      && u == Patched(stored, patch)
      && db'.users == db.users[stored.id := u]
    ensures WellFormed(db) && r.Ok? ==> WellFormed(r.value.0)
  {
    var data := SuppliedFields(patch);
    if data == [] then Err(ValueError(Patcher.NoDataMessage))
    else
      var outcome := Patcher.UpdateSqlEntity(UserMapping, ToEntity(stored), data);
      if outcome.raised.Some? then
        PatchEntity(stored, patch);
        Err(outcome.raised.value)
      else
        PatchEntity(stored, patch);
        EntityRoundTrip(Patched(stored, patch));
        var u := FromEntity(outcome.entity).value;
        var db' :- Update(db, u);
        Ok((db', u))
  }

  /** A successful patch leaves the id, the hash, the picture and the creation time alone. */
  lemma PatchUserKeepsServerColumns(db: Db, stored: User, patch: UserSchemaPatch)
    requires stored.id in db.users
    ensures var r := PatchUser(db, stored, patch);
      r.Ok? ==>
        && r.value.1.id == stored.id
        && r.value.1.createdAt == stored.createdAt
        && r.value.1.hashedPassword == stored.hashedPassword
        && r.value.1.profilePictureId == stored.profilePictureId
        && r.value.1.profilePictureUrl == stored.profilePictureUrl
  {
  }
}
