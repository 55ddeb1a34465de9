/**
 * The data the user service of src/services/user.service.ts works on:
 * the user table, the password-hashing facility, the store's unique
 * lookups, and the errors the service raises.
 */
module UserModel {
  import opened Wrappers
  import opened ApiErrors

  /** The store's opaque primary key. */
  type UserId = string

  /** One row of the user table. The password column holds the stored password hash. */
  datatype User = User(
    username: string,
    email: string,
    passwordHash: string,
    fname: string,
    lname: string)

  /** The user table, keyed by id. */
  type Table = map<UserId, User>

  /**
   * The password-hashing facility (bcrypt in the source), left abstract:
   * `hash(plain, cost)` produces a stored hash with the given work factor and
   * `matches(plain, stored)` is the verification compare.
   */
  datatype Hasher = Hasher(hash: (string, nat) -> string, matches: (string, string) -> bool)
  {
    /** The one property assumed of the facility: a plaintext matches its own hash. */
    ghost predicate Sound()
    {
      forall plain: string, cost: nat :: matches(plain, hash(plain, cost))
    }
  }

  /** Work factor used when a user registers. */
  const RegisterHashCost: nat := 12

  /** Work factor used when a user changes their password. */
  const UpdatePasswordHashCost: nat := 10

  /**
   * What a service call ends with: a value, a thrown `ApiError`, or an
   * exception of the store that the service does not catch.
   */
  datatype Outcome<+T> = Ok(value: T) | Err(error: ApiError) | StoreFailure

  /** The value a successful login returns: `{ userId }`. */
  datatype LoginPayload = LoginPayload(userId: UserId)

  predicate UsernameTaken(t: Table, name: string)
  {
    exists id :: id in t && t[id].username == name
  }

  predicate EmailTaken(t: Table, email: string)
  {
    exists id :: id in t && t[id].email == email
  }

  /** The store's unique constraints: no two rows share a username or an email. */
  predicate Unique(t: Table)
  {
    forall a, b :: a in t && b in t && a != b ==>
      t[a].username != t[b].username && t[a].email != t[b].email
  }

  /** `findUnique({ where: { username } })`: the one row holding `name`, if any. */
  function FindByUsername(t: Table, name: string): (r: Option<UserId>)
    requires Unique(t)
    ensures r.None? <==> !UsernameTaken(t, name)
    ensures forall id :: id in t && t[id].username == name ==> r == Some(id)
  {
    if UsernameTaken(t, name) then
      var id :| id in t && t[id].username == name; Some(id)
    else
      None
  }

  /** `findUnique({ where: { email } })`: the one row holding `email`, if any. */
  function FindByEmail(t: Table, email: string): (r: Option<UserId>)
    requires Unique(t)
    ensures r.None? <==> !EmailTaken(t, email)
    ensures forall id :: id in t && t[id].email == email ==> r == Some(id)
  {
    if EmailTaken(t, email) then
      var id :| id in t && t[id].email == email; Some(id)
    else
      None
  }

  /** A login identifier containing '@' names an email; any other names a username. */
  predicate Identifies(u: User, identifier: string)
  {
    if '@' in identifier then u.email == identifier else u.username == identifier
  }

  // The errors the service raises, with the source's messages, status codes and error codes.

  const LoginIncorrect: ApiError := NewApiError("Username or Password is Incorrect!", 401, "UNAUTHORIZED")
  const MissingUserId: ApiError := NewApiError("No User ID Found!", 403, "NOT_FOUND")
  const DeleteForbidden: ApiError :=
    NewApiError("You don't have the required privilages to delete this user!", 403, "FORBIDDEN_REQUEST")
  const UserNotFound: ApiError := NewApiError("User not found", 404, "NOT_FOUND")
  const UsernameUnchanged: ApiError :=
    NewApiError("New Username must be different than the Current Username!", 400, "VALIDATION_ERROR")
  const UsernameConflict: ApiError := NewApiError("Username already taken", 409, "CONFLICT")
  const PasswordIncorrect: ApiError := NewApiError("Incorrect Password!", 401, "UNAUTHORIZED")
  const EmailConflict: ApiError := NewApiError("Email already exists.", 409, "CONFLICT")
  const PasswordUnchanged: ApiError :=
    NewApiError("New Password must not match the Old Password", 400, "VALIDATION_ERROR")
}
