# KittyAuth user service: authentication and authorization core in Dafny

This project models the decision logic of KittyAuth, a small FastAPI user service.
- **Users.** Users register with an email and a password confirmed twice.
- **Login.** They log in for a bearer token and read their own record with it.
- **Access policy.** A superuser may read anyone's record.
- **Persistence.** Records live in one `user` table.

What the model covers:
- **Table.** The table is a map from primary key to row plus the serial counter. `WellFormed` states the database's constraints: each row keyed by its id, ids below the counter, column widths, unique emails. The `hashed_password` width used is 60, the corrected one that holds a bcrypt hash (see Findings), not the declared 32. Every writing operation preserves it.
- **`UserService`.** Lookup by id and/or email, password authentication, the insert made at registration, and the partial update.
- **Attribute patcher.** The generic `update_sql_entity` is modelled on a row seen as a map from attribute name to value. It is compared with an independent reference, `Patcher.Overlay`: the last non-`None` value given to each name wins.
- **Request decisions.**
  - Resolving a token to a caller.
  - Refusing inactive callers.
  - The view policy of `GET /users/{user_id}`.
  - Login.
  - The duplicate-email check of registration.
  - `GET /users/me`, which returns the resolved active caller (`Dependencies.GetCurrentActiveUser`) unchanged.
- **Schemas.** Password bounds of 6 to 24, the confirmation check, the optional patch fields, and the five-field public view.
- **Errors.** Each error kind and the HTTP status, detail and headers it becomes.

Bcrypt and the JWT library are not modelled. Each is passed around as a value: a `Crypto.Hasher` (hash and verify functions) and a `Tokens.Jwt` (issuer and checker). The properties the service relies on are ghost predicates, which the lemmas that need them require:
- `RoundTrips`: a hash verifies against its plaintext.
- `Discriminates`: a hash verifies against no other plaintext. Bcrypt does not meet this (see Left out); only the hashing test pair relies on it.
- `Honest`: a token checked before expiry yields its subject.
- `Expiring`: a token checked after its expiry second is refused; the expiry second itself is still accepted.

The concrete `Reference` values show these predicates can be met. The salt, the token's issue time and the current time are inputs. The picture id fetched from the cat API is an input to registration.

Layout, one module per source component:
- `wrappers.dfy`: Option and Result.
- `strings.dfy`: decimal rendering and parsing for error details.
- `exceptions.dfy`, `crypto.dfy`, `tokens.dfy`.
- `models.dfy`: the table and its constraints.
- `patcher.dfy`: `update_sql_entity`.
- `schemas.dfy`, `services.dfy`, `dependencies.dfy`.
- `api.dfy`: the routes.

## Model

| member | source | states |
|---|---|---|
| `Exceptions.ToResponse` | src/exceptions.py:5-52 | 403, 401, 400, 401, 400 and 404 for the six declared exceptions; exactly the two authentication failures are 401s, and exactly those carry `WWW-Authenticate: Bearer`; validation failures are 422; anything else is a 500 |
| `Exceptions.EmailAlreadyExistsDetailNamesEmail` | src/exceptions.py:39-44 | the duplicate-email detail is "Email ", the email, " already exists"; the email can be cut back out of it |
| `Exceptions.EmailAlreadyExistsDetailInjective` | src/exceptions.py:43 | two duplicate-email details are equal only for the same email |
| `Exceptions.UserNotFoundDetailNamesId` | src/exceptions.py:47-52 | the not-found detail carries the requested id in decimal, and parsing it back gives the id, negative ids included |
| `Exceptions.AuthenticationFailuresDifferOnlyInDetail` | src/exceptions.py:13-36 | a bad token and a failed login share status and challenge header and differ in detail |
| `Crypto.GetPasswordHash` | src/utils.py:9-10 | under the round-trip assumption the stored hash verifies against its password; under discrimination, against no other; under bcrypt's shape, it is 60 characters |
| `Crypto.VerifyPassword` | src/utils.py:13-14 | under the round-trip assumption a password verifies against every hash made from it; under discrimination, a hash it verifies against was made from it |
| `Crypto.HashedPasswordVerifies` | tests/test_utils.py:39-50 | "test_password" verifies against its own hash and "test" does not |
| `Crypto.ReferenceIsSound` | src/utils.py:9-14 | the round-trip and discrimination assumptions can hold together (a concrete salted hasher meets both) |
| `Tokens.ReferenceIsHonest` | src/config.py:31 | a token checker with the 12-hour lifetime can read back the subject up to and including the expiry second and refuse the token after it |
| `Models.Insert` | src/models.py:9-16 | the insert succeeds exactly when the picture id is present, the email and hash fit their columns and the email is unused; a taken email is a unique violation; the new row has a fresh id, `is_active` true and `is_superuser` false unless given, and the server's `created_at`; well-formedness is preserved |
| `Models.InsertAsWritten` | src/models.py:13 | with the 32-character hash column, only hashes of at most 32 characters are ever stored |
| `Models.InsertAsWrittenRejectsBcryptHash` | src/models.py:13 | an otherwise valid insert of a 60-character bcrypt hash fails as too long with the declared width and succeeds with a width that holds it |
| `Models.Update` | src/services.py:62-63 | committing a changed row succeeds exactly when it fits the columns and no other row holds its email; only that row changes; well-formedness is preserved |
| `Models.FromEntity` | src/models.py:6-16 | an attribute map reads back as a row exactly when every column is present with its type, and the row agrees with the map on every column |
| `Models.EntityRoundTrip` | src/models.py:6-16 | reading back the attribute map of a row gives the row |
| `Patcher.ApplyItems` | src/utils.py:33-38 | the loop raises exactly when some name is not an attribute, and the error names the first such name in mapping order |
| `Patcher.ApplyItemsIsOverlay` | src/utils.py:33-38 | the object after the loop is the reference overlay of all entries, or, when the loop raises, of the entries before the unknown name (earlier writes stay) |
| `Patcher.UpdateSqlEntity` | src/utils.py:28-40 | an empty mapping raises "No data to update entity" and touches nothing; otherwise it raises exactly on an unknown name; the object is the reference overlay of the entries the loop got through |
| `Patcher.UpdateSqlEntityOfDict` | src/utils.py:33-40 | for a `dict` of known names: each name with a value is set to it, a name with `None` keeps its value, unnamed attributes are unchanged, nothing else is added |
| `Schemas.ConstrainedErrors` | src/schemas.py:14-15 | a password field passes exactly when present with 6 to 24 characters, and its errors are about that field only |
| `Schemas.PasswordsMatch` | src/schemas.py:17-20 | the confirmation passes exactly when `password1` did not validate or equals it, and keeps its value |
| `Schemas.PasswordsMatchAsWritten` | src/schemas.py:17-20 | the validator as written accepts the same inputs but leaves `None` as the field's value |
| `Schemas.PasswordsMatchAsWrittenDropsPassword2` | src/schemas.py:17-20 | a matching confirmation is kept by the corrected validator and replaced by `None` by the one as written |
| `Schemas.Password2Errors` | src/schemas.py:15-20 | `password2` errors concern only `password2`: missing, too short and too long are reported alone; only a `password2` within its bounds is compared, and it fails with a single mismatch error exactly when `password1` validated and differs |
| `Schemas.ValidateRegistration` | src/schemas.py:12-20 | the body is accepted exactly when all fields are present, `password1` is 6 to 24 long and `password2` equals it; an error names `email` iff it is missing, `password1` iff it is missing or of bad length, `password2` iff it is missing, of bad length, or differs from a valid `password1` |
| `Schemas.ValidatePatch` | src/schemas.py:26-30 | every patch field is optional; a patch is refused exactly when it sends a password of bad length, and the error is about `password` |
| `Schemas.SuppliedFields` | src/services.py:58 | `dict(exclude_unset=True)` is empty exactly when nothing was sent; its names are in declaration order and distinct |
| `Schemas.SuppliedFieldsAreSent` | src/services.py:58 | the mapping holds exactly the sent fields with their sent values, explicit nulls as `None` |
| `Schemas.ToOutSeesOnlyPublicColumns` | src/schemas.py:33-38 | two rows have the same public view exactly when they agree on id, email, picture URL, `is_active` and `created_at`; hash, picture id and superuser flag never show |
| `Schemas.OutFieldsArePublicColumns` | src/schemas.py:33-38 | the serialized view has exactly the five declared fields, each a table column carrying that column's value; `hashed_password`, `profile_picture_id` and `is_superuser` are not among them |
| `Services.GetUser` | src/services.py:19-32 | no selector raises "At least one argument must be filled"; an id outside the 32-bit `integer` column's range is a database fault exactly when given; a row is returned only if it matches every given selector and is the only one that does; `None` only if no row matches; more than one match is the multiple-rows fault, raised exactly when an in-range query matches several rows, which a well-formed table never does |
| `Services.GetUserById` | src/services.py:25-26 | by id, a well-formed table yields the row keyed by that id, or `None` when there is none, for every id in the `integer` range; an id outside it is the out-of-range fault |
| `Services.GetUserByEmail` | src/services.py:27-28 | by email, a well-formed table yields a row exactly when some row has that email, and it is that row |
| `Services.AuthenticateUser` | src/services.py:34-40 | returns a row only if it has the email and the password verifies against its hash; returns `None` only if no row with the email verifies |
| `Services.AuthenticateUserFindsRecord` | src/services.py:34-40 | a row whose hash the password verifies against is returned, whatever its `is_active` |
| `Services.ProfilePictureUrlAsWritten` | src/services.py:48 | the URL as written starts with the `catass.com` host |
| `Services.ProfilePictureUrl` | src/utils.py:21 | the corrected URL is the cat API's address, a slash, the picture id and the size query, and the id can be cut back out |
| `Services.ProfilePictureUrlAsWrittenMissesApiHost` | src/services.py:48 | the URL as written never starts with the API address the picture came from; the corrected one always does |
| `Services.ProfilePictureUrlOfSeedRecord` | tests/conftest.py:22 | the corrected URL for the seed picture is the URL the seed records store |
| `Services.CreateUser` | src/services.py:42-54 | the insert succeeds exactly when a picture id was fetched, the email is unused and the hash fits; the row has the email, default flags, the server timestamp and the fetched picture, and (for a round-tripping hasher) a hash the registered password verifies against |
| `Services.CreateUserAsWritten` | src/services.py:42-54 | against the declared 32-character hash column, the insert succeeds exactly when a picture id was fetched, the email is unused and the hash fits 32 characters; the row stores the URL with the misspelt host |
| `Services.CreateUserAsWrittenRejectsBcryptHash` | src/models.py:13 | with bcrypt-length hashes every registration fails as written; one the corrected table accepts fails with the over-long `hashed_password` |
| `Services.PatchEntity` | src/utils.py:33-38 | a patch that sends `password` raises the missing-attribute error for it, because `User` has no such attribute; any other non-empty patch leaves exactly the reference row |
| `Services.PatchUser` | src/services.py:56-65 | an empty patch raises "No data to update entity"; a patch naming `password` raises; otherwise the commit succeeds exactly when the patched row fits and its email is not another row's, and the stored row becomes the reference, where sent non-null email, `is_active` and `is_superuser` replace the old values |
| `Services.PatchUserKeepsServerColumns` | src/services.py:56-65 | a successful patch keeps id, hash, picture and `created_at` |
| `Dependencies.GetCurrentUser` | src/dependencies.py:20-37 | a missing or refused token is a credentials error; a valid token yields the row whose email is its subject, and in a well-formed table it fails exactly when no row has that email |
| `Dependencies.GetCurrentActiveUser` | src/dependencies.py:40-44 | resolution errors pass through unchanged; a resolved inactive caller is refused with the inactive error; an active one is returned unchanged |
| `Dependencies.CallerResolution` | src/dependencies.py:20-44 | credentials error exactly when the token leads to no row; inactive error exactly when it leads to an inactive row; otherwise the stored active row with the token's subject as email |
| `Api.Login` | src/main.py:28-39 | in a well-formed table login succeeds exactly when a row has the email and the password verifies, giving a "bearer" token minted for that email; it fails otherwise with the incorrect-credentials error |
| `Api.GetCertainUser` | src/main.py:48-62 | caller errors come first; a caller who is neither the owner nor a superuser is refused before the lookup; an allowed caller gets the out-of-range fault for an id outside the `integer` range, else the row keyed by the id, or the not-found error naming it |
| `Api.GetCertainUserDoesNotDisclose` | src/main.py:55-60 | a non-superuser asking for any two ids other than their own gets the same 403 for both, whether the records exist or not |
| `Api.CreateNewUser` | src/main.py:65-76 | an email already in the table is refused with the duplicate-email error before anything is written; otherwise the row is inserted |
| `Api.Register` | src/main.py:65-69 | an invalid body is a 422 carrying the field errors; a created user has the registered email, and its password was confirmed and of valid length |
| `Api.RegisterTwiceRefused` | tests/test_main.py:172-179 | a second registration with the same email is refused with 400 and the table after the first is unchanged |
| `Api.RegisterThenLogin` | src/main.py:28-45 | a registered user can log in with the registered password; the token resolves to the new row up to and including its expiry second and is refused afterwards |
| `Api.InactiveUserLogsInButIsRefused` | src/dependencies.py:40-44 | a deactivated user still gets a token at login, and using it is refused with the inactive error (400) |

## Left out

- **Bcrypt.** The cost factor, salt generation and hash format are abstracted into `Crypto.Hasher` and ghost predicates. A concrete witness shows the predicates can be met.
- **`fastapi_jwt_auth`.** Signing, encoding and the clock are abstracted into `Tokens.Jwt`. The 12-hour lifetime (src/config.py:31) appears only in the `Honest` and `Expiring` predicates.
- **The cat picture fetch** (src/utils.py:17-25). It is a network call; its result is the `pictureId` input, and a failed fetch is `None`.
- **Sessions, engine, async and concurrency.** In particular, the check-then-insert race in `create_new_user` is not modelled. Operations are sequential and a failed operation commits nothing.
- **Serial counter on failed inserts.** The counter is not advanced by a failed insert, although a real sequence may be.
- **Dependency injection and parsing.** FastAPI's injection, routing and path or form parsing (the 422s for a non-integer `user_id` or a malformed login form) are not modelled. The 422 detail body is not modelled: the error carries the list of field errors, but `Exceptions.ToResponse` gives its detail only as "Unprocessable Entity".
- **Missing bearer header.** `OAuth2PasswordBearer` answers this with its own 401 "Not authenticated" before `get_current_user` runs. Here a missing token is the credentials error: same status and header, different detail.
- **Names used but never defined.** `TokenSubject`, `UserSchemaRegistration` and `transform_data_to_save` are used but defined nowhere in the source. Their evident roles are modelled: the subject is the email, `UserSchemaIn` is the registration body, and the saved fields are the email and the hash of `password1`. src/database.py is not part of this model.
- **Email format validation** (`EmailStr`). Emails are arbitrary strings.
- **Re-hashing a patched password.** There is no PATCH route in src/main.py, so `Services.PatchUser` is modelled at the service level. As written, any patch that sends `password` raises in `update_sql_entity`, and that is what is modelled. The re-hashing that tests/test_main.py:182-195 expects is not in the code.
- **Response status and field count.** The created-user response status is FastAPI's default 200. The tests count six fields in the public view, but `UserSchemaOut` declares five; the model follows the schema.
- **Authentication ignores `is_active`.** Neither `authenticate_user` nor `login` consults `is_active`, so an inactive user can log in and is refused only when the token is used. The model follows the code (`Api.InactiveUserLogsInButIsRefused`).
- **`Exceptions.ToResponse`:** the status for `ValueError` and database faults is the generic 500 of an unhandled exception. The body the server sends for it is not modelled.

- **Crypto.GetPasswordHash: `Discriminates` is an idealisation.** Bcrypt reads only the first 72 bytes of a password, so two passwords agreeing on those bytes verify against each other's hashes, and a fixed-length hash cannot tell all strings apart. The contract's discrimination clause, and every clause that requires `Discriminates`, is therefore not a promise about bcrypt; only `Crypto.HashedPasswordVerifies` and the `Reference` witness rely on it.
- **Services.CreateUser: stated for the corrected program.** It uses the 60-character hash column and the `cataas.com` host. The program as written is `Services.CreateUserAsWritten`, which never succeeds with bcrypt hashes (see Findings).
- **Schemas.ValidateRegistration: stated for the corrected validator.** The accepted body keeps `password2`; as written, `passwords_match` returns nothing and the accepted `password2` is `None` (`Schemas.PasswordsMatchAsWritten`). No later step reads `password2`, so the routes do not depend on the difference.
- **Api.CreateNewUser, Api.Register and Api.RegisterThenLogin: stated for the corrected program.** They build on `Services.CreateUser` and `Schemas.ValidateRegistration`, so they describe registration with the corrected column width, host and validator.
- **Models.Insert: the serial counter is unbounded.** Running out of the 32-bit `id` sequence is not modelled.

## Findings

| source | as written | input that shows it | evidently intended | confidence | as-written member | corrected member |
|---|---|---|---|---|---|---|
| src/services.py:48 | the stored picture URL uses the host `catass.com` | any picture id, e.g. `Z0aeZsdukWvVItTO`, is stored as `https://catass.com/cat/Z0aeZsdukWvVItTO?width=200&height=200` | the host the id was fetched from, `cataas.com` (src/utils.py:21), as the seed records store it (tests/conftest.py:22) | medium, not executed | `Services.ProfilePictureUrlAsWritten` (shown by `Services.ProfilePictureUrlAsWrittenMissesApiHost`) | `Services.ProfilePictureUrl` |
| src/models.py:13 | `hashed_password` is `String(32)` | any bcrypt hash, e.g. the 60-character seed hash at tests/conftest.py:20, is longer than the column on a database that enforces `VARCHAR` lengths, so every registration fails | a column at least 60 characters wide | medium, not executed | `Models.InsertAsWritten` (shown by `Models.InsertAsWrittenRejectsBcryptHash`) | `Models.Insert` |
| src/schemas.py:17-20 | the `passwords_match` validator returns nothing | `password1 = password2 = "test_password"`: validation succeeds and `password2` becomes `None`, since pydantic keeps a validator's return value | return `v` so the confirmation keeps its value | high, not executed | `Schemas.PasswordsMatchAsWritten` (shown by `Schemas.PasswordsMatchAsWrittenDropsPassword2`) | `Schemas.PasswordsMatch` |
