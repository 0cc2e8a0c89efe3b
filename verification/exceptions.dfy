/**
 * The service's error taxonomy (src/exceptions.py) and the HTTP response each error
 * becomes. The six HTTP exception classes of the source are the first six constructors;
 * the others are raised by the request validator, by the service layer (`ValueError`)
 * and by the database, and reach the client as 422 or as an unhandled 500.
 */
module Exceptions {
  import opened Wrappers
  import opened Strings

  /** Why a request field was refused by the schema validator. */
  datatype FieldProblem = Missing | TooShort | TooLong | Mismatch

  datatype FieldError = FieldError(field: string, problem: FieldProblem)

  /** Faults the database reports at query or commit time. */
  datatype DbFault =
    | NotNullViolation(column: string)
    | UniqueViolation(column: string)
    | ValueTooLong(column: string)
    | OutOfRange(column: string)
    | MultipleResultsFound

  datatype Error =
    | NotSuperUser
    | Credentials
    | InactiveUser
    | IncorrectEmailOrPassword
    | EmailAlreadyExists(email: string)
    | UserNotFound(userId: int)
    | Unprocessable(errors: seq<FieldError>)
    | ValueError(message: string)
    | Database(fault: DbFault)
  {
    /** True for the exception classes the source declares (all `HTTPException`s). */
    predicate IsHttpException() {
      NotSuperUser? || Credentials? || InactiveUser? || IncorrectEmailOrPassword?
      || EmailAlreadyExists? || UserNotFound?
    }
  }

  datatype HttpResponse = HttpResponse(status: int, detail: string, headers: seq<(string, string)>)

  /** The challenge header both authentication failures carry. */
  const BearerChallenge: (string, string) := ("WWW-Authenticate", "Bearer")

  const EmailDetailPrefix := "Email "
  const EmailDetailSuffix := " already exists"
  const UserDetailPrefix := "User with id "
  const UserDetailSuffix := " is not found"

  /** The response the client sees for an error. */
  function ToResponse(e: Error): (r: HttpResponse)
    ensures 400 <= r.status <= 500
    ensures e.NotSuperUser? ==> r.status == 403
    ensures e.Credentials? ==> r.status == 401
    ensures e.InactiveUser? ==> r.status == 400
    ensures e.IncorrectEmailOrPassword? ==> r.status == 401
    ensures e.EmailAlreadyExists? ==> r.status == 400
    ensures e.UserNotFound? ==> r.status == 404
    ensures e.Unprocessable? ==> r.status == 422
    // exactly the two authentication failures are 401s, and exactly those carry the challenge
    ensures r.status == 401 <==> e.Credentials? || e.IncorrectEmailOrPassword?
    ensures BearerChallenge in r.headers <==> r.status == 401
    ensures r.headers == [] || r.headers == [BearerChallenge]
    // anything that is neither a declared exception nor a validation failure is a server fault
    ensures r.status == 500 <==> !e.IsHttpException() && !e.Unprocessable?
  {
    match e
    case NotSuperUser =>
      HttpResponse(403, "You don't have permission to do this", [])
    case Credentials =>
      HttpResponse(401, "Could not validate credentials", [BearerChallenge])
    case InactiveUser =>
      HttpResponse(400, "Inactive", [])
    case IncorrectEmailOrPassword =>
      HttpResponse(401, "Incorrect email or password", [BearerChallenge])
    case EmailAlreadyExists(email) =>
      HttpResponse(400, EmailDetailPrefix + email + EmailDetailSuffix, [])
    case UserNotFound(userId) =>
      HttpResponse(404, UserDetailPrefix + IntToString(userId) + UserDetailSuffix, [])
    case Unprocessable(_) =>
      HttpResponse(422, "Unprocessable Entity", [])
    case ValueError(_) =>
      HttpResponse(500, "Internal Server Error", [])
    case Database(_) =>
      HttpResponse(500, "Internal Server Error", [])
  }

  /** The detail of a duplicate-email error names the email: it can be cut back out. */
  lemma EmailAlreadyExistsDetailNamesEmail(email: string)
    ensures var d := ToResponse(EmailAlreadyExists(email)).detail;
      |d| == |EmailDetailPrefix| + |email| + |EmailDetailSuffix|
      && d[|EmailDetailPrefix|..|d| - |EmailDetailSuffix|] == email
  {
  }

  /** Two duplicate-email errors with the same detail are about the same email. */
  lemma EmailAlreadyExistsDetailInjective(a: string, b: string)
    requires ToResponse(EmailAlreadyExists(a)).detail == ToResponse(EmailAlreadyExists(b)).detail
    ensures a == b
  {
    EmailAlreadyExistsDetailNamesEmail(a);
    EmailAlreadyExistsDetailNamesEmail(b);
  }

  /** The detail of a not-found error names the id: reading the digits back gives the id. */
  lemma UserNotFoundDetailNamesId(userId: int)
    ensures var d := ToResponse(UserNotFound(userId)).detail;
      |UserDetailPrefix| + |UserDetailSuffix| <= |d|
      && ParseInt(d[|UserDetailPrefix|..|d| - |UserDetailSuffix|]) == Some(userId)
  {
    var d := ToResponse(UserNotFound(userId)).detail;
    assert d[|UserDetailPrefix|..|d| - |UserDetailSuffix|] == IntToString(userId);
    ParseIntToString(userId);
  }

  /** The two 401s differ only in their detail, so a client can tell a failed login from a bad token. */
  lemma AuthenticationFailuresDifferOnlyInDetail()
    ensures ToResponse(Credentials).status == ToResponse(IncorrectEmailOrPassword).status
    ensures ToResponse(Credentials).headers == ToResponse(IncorrectEmailOrPassword).headers
    ensures ToResponse(Credentials).detail != ToResponse(IncorrectEmailOrPassword).detail
  {
  }
}
