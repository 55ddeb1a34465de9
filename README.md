# noteForge user service, modelled in Dafny

This project models the account rules of the noteForge user service
(`src/services/user.service.ts`) and its application error type
(`src/utils/ApiError.ts`).

The service keeps one user table keyed by `id`, with the columns `username`,
`email`, `password` (a bcrypt hash), `fname` and `lname`. Each service
function runs its guard checks, if any, in a fixed order, and throws an
`ApiError` at the first that fails. Login and lookup only read. Registration,
delete and the three updates then make exactly one insert, delete or update.

Layout:

- `wrappers.dfy`, module `Wrappers`: `Option`.
- `api_error.dfy`, module `ApiErrors`: the immutable `ApiError` value. The
  `isOperational` flag is a `const` member that is always `true`.
- `user_model.dfy`, module `UserModel`: the user row, the table (a `map` from
  id to row), the store's unique constraints (`Unique`), the store's
  `findUnique` lookups by username and by email, and the abstract hashing
  facility `Hasher`. It also holds the errors the service raises, each with the
  source's message, status code and error code.
- `user_rules.dfy`, module `UserRules`: the meaning of each service function
  as a pure function of the table before the call. It gives the outcome and
  the table after the call.
- `user_service.dfy`, module `UserService`: class `UserStore`. It owns the
  table in a `map` field, and its methods follow the source statement by
  statement. Each method is proved to give exactly the outcome and new table
  that `UserRules` gives, and to keep the unique constraints.
- `user_properties.dfy`, module `UserProperties`: properties that span
  several calls. These include logging in after registering, after a rename or
  after a password change; login failures that cannot be told apart; delete
  then login; and uniqueness over any sequence of calls.

A call ends in one of three ways (`Outcome`): `Ok(value)`, `Err(apiError)`
for a thrown `ApiError`, or `StoreFailure` for an exception the store throws
that the service does not catch.

bcrypt is abstract. `Hasher.hash(plain, cost)` produces the stored hash and
`Hasher.matches(plain, stored)` is the compare. The only thing assumed about
them is `Hasher.Sound()`: every plaintext matches its own hash. Lemmas that
need it take it as a hypothesis.

Where the code's behaviour may be unexpected, the model follows the code:

- Registration returns nothing and checks no uniqueness itself. A clashing
  username, email or id fails in the store (`StoreFailure`), and the table is
  unchanged.
- Lookup of an empty id fails with `NOT_FOUND` and status 403, not 404. Any
  other id returns nothing, whether a row exists or not.
- Changing one's email to the email one already has fails with `CONFLICT`
  (409). The check is against every row, the user's own included.
- The work factor is 12 at registration and 10 at password change.
- Deleting a missing id (requester equal to target) fails in the store
  (`StoreFailure`).
- Login sends every identifier that contains '@' to the email lookup, and
  registration accepts a username that contains '@'. Such a user cannot log in
  by username unless some row has that string as its email.
- Likewise, registration accepts an email without '@', and login sends such a
  string to the username lookup. Such a user cannot log in by email unless some
  row has that string as its username.

## Model

| member | source | states |
|---|---|---|
| ApiErrors.NewApiError | src/utils/ApiError.ts:8-14 | the error holds message, statusCode, errorCode and details exactly as passed; an omitted details is None; isOperational is true |
| UserModel.FindByUsername | src/services/user.service.ts:115-118 | finds a row exactly when some row holds the username, and then it is that unique row |
| UserModel.FindByEmail | src/services/user.service.ts:146 | finds a row exactly when some row holds the email, and then it is that unique row |
| UserRules.CreateUser | src/services/user.service.ts:15-35 | never raises an ApiError; fails in the store exactly on a taken id, username or email, leaving the table unchanged; on success adds exactly one row holding hash(password, 12) and the given username, email, fname and lname, keeps every other row, and keeps usernames and emails unique |
| UserRules.Login | src/services/user.service.ts:37-62 | the row named by the identifier (email if it contains '@', else username) yields Ok({userId}) when the password matches its hash, else 401 UNAUTHORIZED; no matching row gives the same 401 error |
| UserRules.SelectUser | src/services/user.service.ts:65-84 | an empty id fails with 403 NOT_FOUND "No User ID Found!"; any other id succeeds and returns nothing |
| UserRules.DeleteUser | src/services/user.service.ts:86-97 | requester different from target gives 403 FORBIDDEN_REQUEST; a missing target is a store failure; success exactly when requester equals target and the row exists; every failure leaves the table unchanged; success removes exactly the target row and keeps the rest |
| UserRules.UpdateUsername | src/services/user.service.ts:99-132 | in order: unknown id 404, unchanged name 400, name held by any row 409; success exactly when the id exists and the name is free; failures leave the table unchanged; success changes only that row's username and keeps uniqueness |
| UserRules.UpdateEmail | src/services/user.service.ts:134-156 | in order: unknown id 404, wrong password 401, email held by any row 409; success exactly when none applies; failures leave the table unchanged; success changes only that row's email and keeps uniqueness |
| UserRules.UpdatePassword | src/services/user.service.ts:158-179 | in order: unknown id 404, wrong current password 401, new plaintext equal to current 400; failures leave the table unchanged; success changes only that row's hash, to hash(newPassword, 10) |
| UserService.UserStore.constructor | src/services/user.service.ts:10-13 | the store starts over a given table that satisfies the unique constraints |
| UserService.UserStore.CreateUser | src/services/user.service.ts:15-35 | outcome and new table are exactly UserRules.CreateUser of the old table; uniqueness is kept |
| UserService.UserStore.LoginUser | src/services/user.service.ts:37-62 | the outcome is exactly UserRules.Login of the current table; the method cannot change the table |
| UserService.UserStore.SelectUser | src/services/user.service.ts:65-84 | the outcome is exactly UserRules.SelectUser; the method cannot change the table |
| UserService.UserStore.DeleteUser | src/services/user.service.ts:86-97 | outcome and new table are exactly UserRules.DeleteUser of the old table; uniqueness is kept |
| UserService.UserStore.UpdateUsername | src/services/user.service.ts:99-132 | outcome and new table are exactly UserRules.UpdateUsername of the old table; uniqueness is kept |
| UserService.UserStore.UpdateEmail | src/services/user.service.ts:134-156 | outcome and new table are exactly UserRules.UpdateEmail of the old table; uniqueness is kept |
| UserService.UserStore.UpdatePassword | src/services/user.service.ts:158-179 | outcome and new table are exactly UserRules.UpdatePassword of the old table; uniqueness is kept |
| UserService.RegisterLoginDelete | src/services/user.service.ts:15-97 | on an empty store: register alice, log in by username and by email and get her id, an unchanged rename fails with 400, another user's delete is forbidden, her own delete empties the store |
| UserProperties.LoginLookupKey | src/services/user.service.ts:39-54 | login returns a given id exactly when that row's email (identifier with '@') or username (otherwise) equals the identifier and the password matches |
| UserProperties.LoginFailuresIdentical | src/services/user.service.ts:45-61 | an unknown identifier and a wrong password give the identical error: 401 UNAUTHORIZED "Username or Password is Incorrect!" |
| UserProperties.LoginByUsernameOrEmail | src/services/user.service.ts:39-54 | for a username without '@' and an email with '@', logging in by either gives the same outcome, the user's id when the password matches |
| UserProperties.RegisterThenLogin | src/services/user.service.ts:15-54 | given a sound hasher, after a successful registration the registered plaintext logs in and returns the new id by the username when it has no '@', and by the email when it has one |
| UserProperties.DeleteThenLoginFails | src/services/user.service.ts:86-97 | a self-delete of an existing row succeeds; afterwards the row is gone and every identifier that named it fails to log in with 401 |
| UserProperties.UpdateUsernameThenLogin | src/services/user.service.ts:99-132 | after a successful rename, a new username without '@' logs in to the same id with the unchanged password |
| UserProperties.UpdateEmailThenLogin | src/services/user.service.ts:134-156 | after a successful email change, a new email with '@' logs in to the same id with the same password |
| UserProperties.EmailWithoutAtCannotLogIn | src/services/user.service.ts:39-49 | an email without '@' that is no row's username never logs in: it fails with 401 "Username or Password is Incorrect!" |
| UserProperties.AtSignUsernameCannotLogIn | src/services/user.service.ts:39-49 | a username containing '@' that is no row's email never logs in: it fails with 401 "Username or Password is Incorrect!" |
| UserProperties.UpdateEmailToOwnConflicts | src/services/user.service.ts:146-153 | with the right password, changing to one's current email fails with 409 and leaves the table unchanged |
| UserProperties.UpdatePasswordThenLogin | src/services/user.service.ts:158-179 | given a sound hasher and a username without '@', after a successful password change the new password logs in by that username to the same id |
| UserProperties.StepPreservesUnique | src/services/user.service.ts:15-179 | no single service call breaks the uniqueness of usernames and emails |
| UserProperties.ReplayPreservesUnique | src/services/user.service.ts:15-179 | usernames and emails stay unique through any sequence of service calls |

## Left out

- Environment loading and store client construction (`dotenv`, `PrismaPg`, `PrismaClient`): these are process configuration. The model replaces them with the table that `UserStore` owns.
- bcrypt internals: salting, the adaptive cost and the constant-time compare are cryptographic. `hash` is a function of the plaintext and the work factor only, so two hashes of one password are equal in the model.
- The stored hash is never checked to differ from the plaintext. The model states only that the row holds `hash(password, 12)`; that a bcrypt hash never equals its input is a property of bcrypt and is not assumed.
- Id generation: the id the store generates on insert is a parameter of `CreateUser` (`generatedId`).
- Store errors: a store exception is one opaque `StoreFailure`, without the store's error codes. Store unavailability is not modelled.
- Concurrency and `async`: each call is atomic against the table. Races between a check and the write are not modelled.
- `Error.captureStackTrace` and the rest of the `Error` base class except `message`: these are runtime stack plumbing.
- `src/utils/ApiResponse.ts`: the service never uses it.
- The `notes` relation and the `select` projections: the schema owns them. The model assumes the relation never refuses a delete (no restrictive referential action), so a self-delete of an existing row always succeeds. Registration and lookup discard their projections; the updates use only the columns the model keeps (username, email, password hash).
- ApiErrors.NewApiError: `details` is typed `Option<string>`, which is what the constructor accepts; the field's wider declared type `unknown` is not modelled.
