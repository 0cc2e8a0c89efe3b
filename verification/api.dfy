/**
 * The routes of src/main.py, as decisions over the table: login, the caller's own record,
 * another user's record under the view policy, and registration. A route that fails
 * returns no table, so the table the caller holds is the one that stays.
 */
module Api {
  import opened Wrappers
  import opened Exceptions
  import opened Models
  import opened Crypto
  import opened Tokens
  import opened Schemas
  import opened Services
  import opened Dependencies

  datatype TokenResponse = TokenResponse(accessToken: string, tokenType: string)

  const BearerTokenType := "bearer"

  /** Some row has this email and a hash the password verifies against. */
  predicate HasCredentials(db: Db, h: Hasher, email: string, password: string) {
    exists k | k in db.users :: db.users[k].email == email && h.verify(password, db.users[k].hashedPassword)
  }

  /** `POST /login`: a bearer token whose subject is the authenticated email. */
  function Login(db: Db, h: Hasher, jwt: Jwt, username: string, password: string, now: nat)
    : (r: Result<TokenResponse, Error>)
    ensures r.Err? ==> r.error == IncorrectEmailOrPassword || r.error == Database(MultipleResultsFound)
    ensures r.Ok? ==>
      && r.value.tokenType == BearerTokenType
      && r.value.accessToken == jwt.create(username, now)
      && HasCredentials(db, h, username, password)
    ensures WellFormed(db) ==>
      (r.Ok? <==> HasCredentials(db, h, username, password))
      && (r.Err? ==> r.error == IncorrectEmailOrPassword)
  {
    var user :- AuthenticateUser(db, h, username, password);
    if user.None? then Err(IncorrectEmailOrPassword)
    else Ok(TokenResponse(jwt.create(user.value.email, now), BearerTokenType))
  }

  /** Whether `caller` may read the record with id `userId`: their own, or any for a superuser. */
  predicate MayView(caller: User, userId: int) {
    userId == caller.id || caller.isSuperuser
  }

  /**
   * `GET /users/{user_id}`: the caller is resolved first, the view policy is applied
   * before the record is looked up, and only then can the record be missing.
   */
  function GetCertainUser(db: Db, jwt: Jwt, token: Option<string>, now: nat, userId: int): (r: Result<User, Error>)
    ensures GetCurrentActiveUser(db, jwt, token, now).Err? ==> r == Err(GetCurrentActiveUser(db, jwt, token, now).error)
    ensures GetCurrentActiveUser(db, jwt, token, now).Ok? && !MayView(GetCurrentActiveUser(db, jwt, token, now).value, userId)
      ==> r == Err(NotSuperUser)
    ensures WellFormed(db) && GetCurrentActiveUser(db, jwt, token, now).Ok?
      && MayView(GetCurrentActiveUser(db, jwt, token, now).value, userId)
      ==> r == if !IsInteger(userId) then Err(Database(OutOfRange("id")))
               else if userId in db.users then Ok(db.users[userId]) else Err(UserNotFound(userId))
    ensures r.Ok? ==> IsRow(db, r.value) && r.value.id == userId
  {
    var caller :- GetCurrentActiveUser(db, jwt, token, now);
    if userId != caller.id && !caller.isSuperuser then Err(NotSuperUser)
    else
      RowsKeyedById(db);
      var user :- GetUser(db, Some(userId), None);
      if user.None? then Err(UserNotFound(userId)) else Ok(user.value)
  }

  /** A caller who may not view two ids gets the same answer for both, so whether a record
      exists is never disclosed to them. */
  lemma GetCertainUserDoesNotDisclose(db: Db, jwt: Jwt, token: Option<string>, now: nat, a: int, b: int)
    requires GetCurrentActiveUser(db, jwt, token, now).Ok?
    requires !GetCurrentActiveUser(db, jwt, token, now).value.isSuperuser
    requires a != GetCurrentActiveUser(db, jwt, token, now).value.id
    requires b != GetCurrentActiveUser(db, jwt, token, now).value.id
    ensures GetCertainUser(db, jwt, token, now, a) == GetCertainUser(db, jwt, token, now, b) == Err(NotSuperUser)
    ensures ToResponse(GetCertainUser(db, jwt, token, now, a).error).status == 403
  {
  }

  /**
   * `POST /users`: an email that is already registered is refused before anything is
   * written; otherwise the new row is inserted.
   */
  function CreateNewUser(db: Db, h: Hasher, salt: Salt, data: UserSchemaIn, pictureId: Option<string>, now: int)
    : (r: Result<(Db, User), Error>)
    ensures EmailInUse(db.users, data.email) ==> r.Err?
    ensures WellFormed(db) && EmailInUse(db.users, data.email) ==> r == Err(EmailAlreadyExists(data.email))
    ensures r.Ok? <==>
      && !EmailInUse(db.users, data.email) && pictureId.Some?
      && FitsColumns(data.email, GetPasswordHash(h, salt, data.password1), HashedPasswordWidth)
    ensures r.Ok? ==>
      var (db', u) := r.value;
      && db'.users == db.users[u.id := u]
      && u.email == data.email && u.isActive && !u.isSuperuser && u.createdAt == now
      && (RoundTrips(h) ==> h.verify(data.password1, u.hashedPassword))
    ensures WellFormed(db) && r.Ok? ==> r.value.1.id !in db.users && WellFormed(r.value.0)
  {
    var existing :- GetUser(db, None, Some(data.email));
    if existing.Some? then Err(EmailAlreadyExists(data.email))
    else
      assert !EmailInUse(db.users, data.email) by {
        assert forall k | k in db.users :: !Selected(db.users[k], None, Some(data.email));
      }
      CreateUser(db, h, salt, data, pictureId, now)
  }

  /** The registration request as a whole: the body is validated (422 on failure), then
      the user is created. */
  function Register(db: Db, h: Hasher, salt: Salt, form: RegistrationForm, pictureId: Option<string>, now: int)
    : (r: Result<(Db, User), Error>)
    ensures ValidateRegistration(form).Err? ==> r == Err(Unprocessable(ValidateRegistration(form).error))
    ensures r.Err? && r.error.Unprocessable? ==> ToResponse(r.error).status == 422
    ensures r.Ok? ==>
      && form.email.Some? && form.password1.Some? && form.password2 == form.password1
      && PasswordLengthOk(form.password1.value)
      && r.value.1.email == form.email.value
  {
    match ValidateRegistration(form)
    case Err(errors) => Err(Unprocessable(errors))
    case Ok(data) => CreateNewUser(db, h, salt, data, pictureId, now)
  }

  /** Registering the same email twice: the second request is refused with 400 and the
      table of the first stays as it is. */
  lemma RegisterTwiceRefused(db: Db, h: Hasher, s1: Salt, s2: Salt, form: RegistrationForm,
                             p1: Option<string>, p2: Option<string>, t1: int, t2: int)
    requires WellFormed(db)
    requires Register(db, h, s1, form, p1, t1).Ok?
    ensures var db' := Register(db, h, s1, form, p1, t1).value.0;
      && WellFormed(db')
      && Register(db', h, s2, form, p2, t2) == Err(EmailAlreadyExists(form.email.value))
      && ToResponse(EmailAlreadyExists(form.email.value)).status == 400
  {
    var (db', u) := Register(db, h, s1, form, p1, t1).value;
    assert db'.users[u.id].email == form.email.value;
  }

  /** A registered user can log in with the password they registered with, and the token
      resolves to their new row until it expires; after it expires the token is refused. */
  lemma RegisterThenLogin(db: Db, h: Hasher, jwt: Jwt, salt: Salt, form: RegistrationForm,
                          pictureId: Option<string>, now: nat, later: nat)
    requires WellFormed(db) && RoundTrips(h) && Honest(jwt) && Expiring(jwt)
    requires Register(db, h, salt, form, pictureId, now).Ok?
    ensures var (db', u) := Register(db, h, salt, form, pictureId, now).value;
      var login := Login(db', h, jwt, form.email.value, form.password1.value, now);
      && login.Ok?
      && (now <= later <= now + AccessTokenExpires ==>
            GetCurrentActiveUser(db', jwt, Some(login.value.accessToken), later) == Ok(u))
      && (now + AccessTokenExpires < later ==>
            GetCurrentActiveUser(db', jwt, Some(login.value.accessToken), later) == Err(Credentials))
  {
    var (db', u) := Register(db, h, salt, form, pictureId, now).value;
    assert db'.users[u.id] == u;
    assert h.verify(form.password1.value, u.hashedPassword);
    var login := Login(db', h, jwt, form.email.value, form.password1.value, now);
    assert login.Ok?;
    if now <= later <= now + AccessTokenExpires {
      assert jwt.check(login.value.accessToken, later) == Valid(u.email);
      CallerResolution(db', jwt, Some(login.value.accessToken), later);
    }
  }

  /** Login does not look at `is_active`: a deactivated user still receives a token, and
      that token is refused only when it is used, with the inactive error. */
  lemma InactiveUserLogsInButIsRefused(db: Db, h: Hasher, jwt: Jwt, k: int, password: string, now: nat, later: nat)
    requires WellFormed(db) && Honest(jwt)
    requires k in db.users && !db.users[k].isActive
    requires h.verify(password, db.users[k].hashedPassword)
    requires now <= later <= now + AccessTokenExpires
    ensures var login := Login(db, h, jwt, db.users[k].email, password, now);
      && login.Ok?
      && GetCurrentActiveUser(db, jwt, Some(login.value.accessToken), later) == Err(InactiveUser)
      && ToResponse(InactiveUser).status == 400
  {
    AuthenticateUserFindsRecord(db, h, k, password);
    var login := Login(db, h, jwt, db.users[k].email, password, now);
    CallerResolution(db, jwt, Some(login.value.accessToken), later);
  }
}
