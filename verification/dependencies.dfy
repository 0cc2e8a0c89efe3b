/**
 * Resolving the caller of a protected route (src/dependencies.py): the bearer token is
 * checked, its subject is looked up by email, and the record found must be active.
 */
module Dependencies {
  import opened Wrappers
  import opened Exceptions
  import opened Models
  import opened Tokens
  import opened Services

  /**
   * `get_current_user`: a missing or refused token and a subject no row has are both
   * credentials errors. The row found is the one whose email is the token's subject.
   */
  function GetCurrentUser(db: Db, jwt: Jwt, token: Option<string>, now: nat): (r: Result<User, Error>)
    ensures token.None? ==> r == Err(Credentials)
    ensures token.Some? && jwt.check(token.value, now).Invalid? ==> r == Err(Credentials)
    ensures r.Ok? ==>
      && token.Some? && jwt.check(token.value, now) == Valid(r.value.email)
      && IsRow(db, r.value)
    ensures WellFormed(db) && token.Some? && jwt.check(token.value, now).Valid? ==>
      (r.Ok? <==> EmailInUse(db.users, jwt.check(token.value, now).subject))
    ensures r.Err? ==> r.error == Credentials || r.error == Database(MultipleResultsFound)
    ensures WellFormed(db) && r.Err? ==> r.error == Credentials
  {
    match token
    case None => Err(Credentials)
    case Some(t) =>
      match jwt.check(t, now)
      case Invalid => Err(Credentials)
      case Valid(email) =>
        var user :- GetUser(db, None, Some(email));
        if user.None? then Err(Credentials) else Ok(user.value)
  }

  /** `get_current_active_user`: the resolved caller, refused when inactive. */
  function GetCurrentActiveUser(db: Db, jwt: Jwt, token: Option<string>, now: nat): (r: Result<User, Error>)
    ensures GetCurrentUser(db, jwt, token, now).Err? ==> r == GetCurrentUser(db, jwt, token, now)
    ensures GetCurrentUser(db, jwt, token, now).Ok? ==>
      r == if GetCurrentUser(db, jwt, token, now).value.isActive then GetCurrentUser(db, jwt, token, now)
           else Err(InactiveUser)
    ensures r.Ok? ==> r.value.isActive
  {
    var user :- GetCurrentUser(db, jwt, token, now);
    if !user.isActive then Err(InactiveUser) else Ok(user)
  }

  /** The three outcomes of resolving a caller, in their order of precedence: a credentials
      error whenever the token does not lead to a row, otherwise the inactive error for an
      inactive row, otherwise that row. */
  lemma CallerResolution(db: Db, jwt: Jwt, token: Option<string>, now: nat)
    requires WellFormed(db)
    ensures var r := GetCurrentActiveUser(db, jwt, token, now);
      && (r == Err(Credentials) <==>
            token.None? || jwt.check(token.value, now).Invalid?
            || !EmailInUse(db.users, jwt.check(token.value, now).subject))
      && (r == Err(InactiveUser) <==>
            && token.Some? && jwt.check(token.value, now).Valid?
            && exists k | k in db.users :: db.users[k].email == jwt.check(token.value, now).subject && !db.users[k].isActive)
      && (r.Ok? ==>
            && r.value.isActive
            && r.value.id in db.users && db.users[r.value.id] == r.value
            && jwt.check(token.value, now) == Valid(r.value.email))
  {
    var c := GetCurrentUser(db, jwt, token, now);
    RowsKeyedById(db);
    if c.Ok? {
      var u := c.value;
      assert db.users[u.id] == u;
      forall k | k in db.users && db.users[k].email == u.email ensures k == u.id {
      }
    }
  }
}
