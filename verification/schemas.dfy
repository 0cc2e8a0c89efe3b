/**
 * Request and response schemas (src/schemas.py): the registration form with its length
 * bounds and password-confirmation check, the partial-update form, and the public view of
 * a user. Email format checking is not modelled; emails are arbitrary strings.
 */
module Schemas {
  import opened Wrappers
  import opened Exceptions
  import opened Models
  import Patcher

  const PasswordMinLength := 6
  const PasswordMaxLength := 24

  predicate PasswordLengthOk(s: string) {
    PasswordMinLength <= |s| <= PasswordMaxLength
  }

  /** `constr(min_length=6, max_length=24)` on a required field. */
  function ConstrainedErrors(field: string, v: Option<string>): (r: seq<FieldError>)
    ensures r == [] <==> v.Some? && PasswordLengthOk(v.value)
    ensures Fields(r) == if r == [] then {} else {field}
  {
    var r :=
      match v
      case None => [FieldError(field, Missing)]
      case Some(s) =>
        if |s| < PasswordMinLength then [FieldError(field, TooShort)]
        else if |s| > PasswordMaxLength then [FieldError(field, TooLong)]
        else [];
    if r != [] then FieldsOfOne(r[0]); assert r == [r[0]]; r else r
  }

  // ---- Registration ----

  /** The registration body as received: each field may be absent. */
  datatype RegistrationForm = RegistrationForm(
    email: Option<string>, password1: Option<string>, password2: Option<string>)

  datatype UserSchemaIn = UserSchemaIn(email: string, password1: string, password2: string)

  /**
   * The `passwords_match` validator as it is meant to behave. `validated1` is `password1`
   * when it passed its own checks (the validator sees it in `values` only then). The
   * result is the value the field keeps.
   */
  function PasswordsMatch(validated1: Option<string>, v: string): (r: Result<string, FieldProblem>)
    ensures r.Ok? <==> validated1.None? || validated1.value == v
    ensures r.Ok? ==> r.value == v
    ensures r.Err? ==> r.error == Mismatch
  {
    if validated1.Some? && v != validated1.value then Err(Mismatch) else Ok(v)
  }

  /** The validator as src/schemas.py:17-20 writes it: it returns nothing, and pydantic
      keeps a validator's return value as the field's value. */
  function PasswordsMatchAsWritten(validated1: Option<string>, v: string): (r: Result<Option<string>, FieldProblem>)
    ensures r.Ok? <==> validated1.None? || validated1.value == v
    ensures r.Ok? ==> r.value.None?
  {
    if validated1.Some? && v != validated1.value then Err(Mismatch) else Ok(None)
  }

  /** A confirmed registration keeps its confirmation with the corrected validator and loses
      it, leaving `password2` as `None`, with the validator as written. */
  lemma PasswordsMatchAsWrittenDropsPassword2()
    ensures PasswordsMatchAsWritten(Some("test_password"), "test_password") == Ok(None)
    ensures PasswordsMatch(Some("test_password"), "test_password") == Ok("test_password")
  {
  }

  function ValidatedPassword1(f: RegistrationForm): Option<string> {
    if f.password1.Some? && PasswordLengthOk(f.password1.value) then f.password1 else None
  }

  /** Errors of `password2`: its own bounds first; the match check runs only when they pass. */
  function Password2Errors(f: RegistrationForm): (r: seq<FieldError>)
    ensures Fields(r) == if r == [] then {} else {"password2"}
    ensures f.password2.None? ==> r == [FieldError("password2", Missing)]
    ensures f.password2.Some? && |f.password2.value| < PasswordMinLength ==> r == [FieldError("password2", TooShort)]
    ensures f.password2.Some? && |f.password2.value| > PasswordMaxLength ==> r == [FieldError("password2", TooLong)]
    // only a password2 within its bounds is compared, and only with a password1 within its own
    ensures f.password2.Some? && PasswordLengthOk(f.password2.value) ==>
      && (r == [] <==> ValidatedPassword1(f).None? || ValidatedPassword1(f).value == f.password2.value)
      && (r != [] ==> r == [FieldError("password2", Mismatch)])
  {
    var own := ConstrainedErrors("password2", f.password2);
    if own != [] then own
    else match PasswordsMatch(ValidatedPassword1(f), f.password2.value)
      case Ok(_) => []
      case Err(problem) => FieldsOfOne(FieldError("password2", problem)); [FieldError("password2", problem)]
  }

  /** All field errors of a registration form, in field order. */
  function RegistrationErrors(f: RegistrationForm): seq<FieldError> {
    (if f.email.None? then [FieldError("email", Missing)] else [])
    + ConstrainedErrors("password1", f.password1)
    + Password2Errors(f)
  }

  /** The fields a list of errors is about. */
  function Fields(errors: seq<FieldError>): set<string> {
    set i | 0 <= i < |errors| :: errors[i].field
  }

  lemma FieldsOfOne(x: FieldError)
    ensures Fields([x]) == {x.field}
  {
    assert [x][0] == x;
  }

  lemma FieldsConcat(a: seq<FieldError>, b: seq<FieldError>)
    ensures Fields(a + b) == Fields(a) + Fields(b)
  {
    var ab := a + b;
    forall f | f in Fields(ab) ensures f in Fields(a) + Fields(b) {
      var i :| 0 <= i < |ab| && ab[i].field == f;
      if i < |a| {
        assert ab[i] == a[i];
      } else {
        assert ab[i] == b[i - |a|];
      }
    }
    forall f | f in Fields(a) + Fields(b) ensures f in Fields(ab) {
      if f in Fields(a) {
        var i :| 0 <= i < |a| && a[i].field == f;
        assert ab[i] == a[i];
      } else {
        var i :| 0 <= i < |b| && b[i].field == f;
        assert ab[|a| + i] == b[i];
      }
    }
  }

  /** Validating a registration body into `UserSchemaIn`, or the list of field errors. */
  function ValidateRegistration(f: RegistrationForm): (r: Result<UserSchemaIn, seq<FieldError>>)
    ensures r.Ok? <==>
      && f.email.Some? && f.password1.Some? && f.password2.Some?
      && PasswordLengthOk(f.password1.value) && f.password2.value == f.password1.value
    ensures r.Ok? ==> r.value == UserSchemaIn(f.email.value, f.password1.value, f.password2.value)
    ensures r.Err? ==> r.error != []
    ensures r.Err? ==> ("email" in Fields(r.error) <==> f.email.None?)
    ensures r.Err? ==>
      ("password1" in Fields(r.error) <==> f.password1.None? || !PasswordLengthOk(f.password1.value))
    // the mismatch is reported only when password1 itself passed
    ensures r.Err? ==>
      ("password2" in Fields(r.error) <==>
        || f.password2.None? || !PasswordLengthOk(f.password2.value)
        || (f.password1.Some? && PasswordLengthOk(f.password1.value)
            && f.password2.value != f.password1.value))
  {
    var errors := RegistrationErrors(f);
    var e := if f.email.None? then [FieldError("email", Missing)] else [];
    var p1 := ConstrainedErrors("password1", f.password1);
    var p2 := Password2Errors(f);
    assert errors == e + p1 + p2;
    FieldsConcat(e, p1);
    FieldsConcat(e + p1, p2);
    FieldsOfOne(FieldError("email", Missing));
    if errors == [] then Ok(UserSchemaIn(f.email.value, f.password1.value, f.password2.value))
    else Err(errors)
  }

  // ---- Partial update ----

  /** A field of a partial update: not sent, or sent with a value or an explicit null. */
  datatype Supplied<T> = Unset | SetTo(value: Option<T>)

  datatype UserSchemaPatch = UserSchemaPatch(
    email: Supplied<string>, password: Supplied<string>,
    isActive: Supplied<bool>, isSuperuser: Supplied<bool>)

  predicate NothingSupplied(p: UserSchemaPatch) {
    p.email.Unset? && p.password.Unset? && p.isActive.Unset? && p.isSuperuser.Unset?
  }

  /** Every field is optional; a password that is sent with a value must be 6 to 24 long. */
  function ValidatePatch(p: UserSchemaPatch): (r: Result<UserSchemaPatch, seq<FieldError>>)
    ensures r.Ok? <==> !(p.password.SetTo? && p.password.value.Some? && !PasswordLengthOk(p.password.value.value))
    ensures r.Ok? ==> r.value == p
    ensures r.Err? ==> r.error != [] && r.error[0].field == "password"
  {
    match p.password
    case SetTo(Some(s)) =>
      var errors := ConstrainedErrors("password", Some(s));
      if errors == [] then Ok(p) else Err(errors)
    case _ => Ok(p)
  }

  const PatchFieldNames: set<string> := {"email", "password", "is_active", "is_superuser"}

  /** Whether the field with this attribute name was sent. */
  predicate IsSent(p: UserSchemaPatch, name: string) {
    match name
    case "email" => p.email.SetTo?
    case "password" => p.password.SetTo?
    case "is_active" => p.isActive.SetTo?
    case "is_superuser" => p.isSuperuser.SetTo?
    case _ => false
  }

  function OrNull<T>(v: Option<T>, toValue: T -> Value): Value {
    match v
    case None => Null
    case Some(x) => toValue(x)
  }

  function TextValue(s: string): Value { Text(s) }

  function FlagValue(b: bool): Value { Flag(b) }

  /** The value sent for a field, `Null` for an explicit null. */
  function SentValue(p: UserSchemaPatch, name: string): Value
    requires IsSent(p, name)
  {
    match name
    case "email" => OrNull(p.email.value, TextValue)
    case "password" => OrNull(p.password.value, TextValue)
    case "is_active" => OrNull(p.isActive.value, FlagValue)
    case "is_superuser" => OrNull(p.isSuperuser.value, FlagValue)
  }

  function FieldItem<T>(name: string, f: Supplied<T>, toValue: T -> Value): (r: seq<Patcher.Item>)
    ensures |r| <= 1
    ensures r != [] <==> f.SetTo?
    ensures forall it | it in r :: it == (name, OrNull(f.value, toValue))
    ensures f.SetTo? ==> (name, OrNull(f.value, toValue)) in r
  {
    match f
    case Unset => []
    case SetTo(v) => [(name, OrNull(v, toValue))]
  }

  /** Position of a field in the schema's declaration order. */
  function Rank(name: string): int {
    match name
    case "email" => 0
    case "password" => 1
    case "is_active" => 2
    case _ => 3
  }

  predicate InFieldOrder(data: seq<Patcher.Item>) {
    forall i, j | 0 <= i < j < |data| :: Rank(data[i].0) < Rank(data[j].0)
  }

  /** Every entry's field has a rank in `[lo, hi)`. */
  predicate RanksIn(data: seq<Patcher.Item>, lo: int, hi: int) {
    forall i | 0 <= i < |data| :: lo <= Rank(data[i].0) < hi
  }

  /** An entry for one field is ordered and carries that field's rank. */
  lemma FieldItemRanked<T>(name: string, f: Supplied<T>, toValue: T -> Value)
    ensures InFieldOrder(FieldItem(name, f, toValue))
    ensures RanksIn(FieldItem(name, f, toValue), Rank(name), Rank(name) + 1)
  {
    var r := FieldItem(name, f, toValue);
    assert forall i | 0 <= i < |r| :: r[i] in r;
  }

  /** Joining two ordered runs whose ranks lie in consecutive intervals keeps the order. */
  lemma InFieldOrderConcat(x: seq<Patcher.Item>, y: seq<Patcher.Item>, lo: int, mid: int, hi: int)
    requires InFieldOrder(x) && InFieldOrder(y)
    requires lo <= mid <= hi && RanksIn(x, lo, mid) && RanksIn(y, mid, hi)
    ensures InFieldOrder(x + y)
    ensures RanksIn(x + y, lo, hi)
  {
    var xy := x + y;
    forall i | 0 <= i < |xy| ensures lo <= Rank(xy[i].0) < hi {
      if i < |x| {
        assert xy[i] == x[i];
      } else {
        assert xy[i] == y[i - |x|];
      }
    }
    forall i, j | 0 <= i < j < |xy| ensures Rank(xy[i].0) < Rank(xy[j].0) {
      if j < |x| {
        assert xy[i] == x[i] && xy[j] == x[j];
      } else if i >= |x| {
        assert xy[i] == y[i - |x|] && xy[j] == y[j - |x|];
      } else {
        assert xy[i] == x[i] && xy[j] == y[j - |x|];
      }
    }
  }

  /** Names in strictly increasing declaration order are distinct. */
  lemma InFieldOrderDistinct(data: seq<Patcher.Item>)
    requires InFieldOrder(data)
    ensures Patcher.DistinctKeys(data)
  {
  }

  /** The entries of the four fields, joined in declaration order, are ordered and distinct. */
  lemma JoinInFieldOrder(a: seq<Patcher.Item>, b: seq<Patcher.Item>, c: seq<Patcher.Item>, d: seq<Patcher.Item>)
    requires InFieldOrder(a) && RanksIn(a, 0, 1)
    requires InFieldOrder(b) && RanksIn(b, 1, 2)
    requires InFieldOrder(c) && RanksIn(c, 2, 3)
    requires InFieldOrder(d) && RanksIn(d, 3, 4)
    ensures InFieldOrder(a + b + c + d)
    ensures Patcher.DistinctKeys(a + b + c + d)
  {
    InFieldOrderConcat(a, b, 0, 1, 2);
    InFieldOrderConcat(a + b, c, 0, 2, 3);
    InFieldOrderConcat(a + b + c, d, 0, 3, 4);
    InFieldOrderDistinct(a + b + c + d);
  }

  /** `.dict(exclude_unset=True)`: the fields that were sent, in declaration order (so
      each at most once), with explicit nulls kept as `None`. */
  function SuppliedFields(p: UserSchemaPatch): (data: seq<Patcher.Item>)
    ensures data == [] <==> NothingSupplied(p)
    ensures InFieldOrder(data)
    ensures Patcher.DistinctKeys(data)
  {
    FieldItemsOrdered(p);
    FieldItems(p)
  }

  /** The entry of each field that was sent, joined in declaration order. */
  function FieldItems(p: UserSchemaPatch): seq<Patcher.Item> {
    FieldItem("email", p.email, TextValue) + FieldItem("password", p.password, TextValue)
    + FieldItem("is_active", p.isActive, FlagValue) + FieldItem("is_superuser", p.isSuperuser, FlagValue)
  }

  lemma FieldItemsOrdered(p: UserSchemaPatch)
    ensures FieldItems(p) == [] <==> NothingSupplied(p)
    ensures InFieldOrder(FieldItems(p))
    ensures Patcher.DistinctKeys(FieldItems(p))
  {
    FieldItemRanked("email", p.email, TextValue);
    FieldItemRanked("password", p.password, TextValue);
    FieldItemRanked("is_active", p.isActive, FlagValue);
    FieldItemRanked("is_superuser", p.isSuperuser, FlagValue);
    JoinInFieldOrder(FieldItem("email", p.email, TextValue), FieldItem("password", p.password, TextValue),
                     FieldItem("is_active", p.isActive, FlagValue), FieldItem("is_superuser", p.isSuperuser, FlagValue));
  }

  /** The mapping holds exactly the sent fields, each with the value sent. */
  lemma SuppliedFieldsAreSent(p: UserSchemaPatch)
    ensures forall it | it in SuppliedFields(p) ::
      it.0 in PatchFieldNames && IsSent(p, it.0) && it.1 == SentValue(p, it.0)
    ensures forall name | name in PatchFieldNames && IsSent(p, name) ::
      (name, SentValue(p, name)) in SuppliedFields(p)
  {
    var a := FieldItem("email", p.email, TextValue);
    var b := FieldItem("password", p.password, TextValue);
    var c := FieldItem("is_active", p.isActive, FlagValue);
    var d := FieldItem("is_superuser", p.isSuperuser, FlagValue);
    var data := SuppliedFields(p);
    assert data == a + b + c + d;
    forall it | it in data
      ensures it.0 in PatchFieldNames && IsSent(p, it.0) && it.1 == SentValue(p, it.0)
    {
      if it in a {
        assert it.0 == "email";
      } else if it in b {
        assert it.0 == "password";
      } else if it in c {
        assert it.0 == "is_active";
      } else {
        assert it in d;
        assert it.0 == "is_superuser";
      }
    }
  }

  // ---- Response ----

  /** The public view of a user: `UserSchemaOut`. */
  datatype UserSchemaOut = UserSchemaOut(
    id: int, email: string, profilePictureUrl: string, isActive: bool, createdAt: int)

  /** The fields `UserSchemaOut` declares. */
  const OutFieldNames: set<string> := {"id", "email", "profile_picture_url", "is_active", "created_at"}

  function ToOut(u: User): (o: UserSchemaOut) {
    UserSchemaOut(u.id, u.email, u.profilePictureUrl, u.isActive, u.createdAt)
  }

  /** The view as the JSON object it is sent as: field name to value. */
  function Serialize(o: UserSchemaOut): (m: Entity)
    ensures m.Keys == OutFieldNames
  {
    map[
      "id" := Number(o.id),
      "email" := Text(o.email),
      "profile_picture_url" := Text(o.profilePictureUrl),
      "is_active" := Flag(o.isActive),
      "created_at" := Instant(o.createdAt)
    ]
  }

  /** Two users have the same view exactly when they agree on the five public columns; so
      the password hash, the picture id and the superuser flag never show. */
  lemma ToOutSeesOnlyPublicColumns(u: User, v: User)
    ensures ToOut(u) == ToOut(v) <==>
      u.id == v.id && u.email == v.email && u.profilePictureUrl == v.profilePictureUrl
      && u.isActive == v.isActive && u.createdAt == v.createdAt
    ensures ToOut(u) == ToOut(u.(hashedPassword := v.hashedPassword,
                                 profilePictureId := v.profilePictureId,
                                 isSuperuser := v.isSuperuser))
  {
  }

  /** `orm_mode` reads each view field from the row's attribute of the same name: the sent
      object is the row's attribute map cut down to the view's fields, which leave out the
      hash, the picture id and the superuser flag. */
  lemma OutFieldsArePublicColumns(u: User)
    ensures var sent := Serialize(ToOut(u));
      && sent.Keys <= ColumnNames
      && (forall c | c in sent :: sent[c] == ToEntity(u)[c])
      && "hashed_password" !in sent && "profile_picture_id" !in sent && "is_superuser" !in sent
  {
  }
}
