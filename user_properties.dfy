/**
 * Properties of the user service that relate several calls, stated over
 * the reference semantics in UserRules.
 */
module UserProperties {
  import opened Wrappers
  import opened ApiErrors
  import opened UserModel
  import opened UserRules

  /** A login identifier's lookup key: email when it contains '@', username otherwise. */
  lemma LoginLookupKey(t: Table, h: Hasher, identifier: string, password: string, id: UserId)
    requires Unique(t)
    ensures Login(t, h, identifier, password) == Ok(LoginPayload(id)) <==>
              && id in t
              && (if '@' in identifier then t[id].email == identifier else t[id].username == identifier)
              && h.matches(password, t[id].passwordHash)
  {
  }

  /**
   * An unknown identifier and a wrong password fail with one and the same
   * error, so a caller cannot tell which check failed.
   */
  lemma LoginFailuresIdentical(t: Table, h: Hasher, unknown: string, anyPassword: string,
                               known: string, wrongPassword: string)
    requires Unique(t)
    requires forall id :: id in t ==> !Identifies(t[id], unknown)
    requires exists id :: id in t && Identifies(t[id], known) && !h.matches(wrongPassword, t[id].passwordHash)
    ensures Login(t, h, unknown, anyPassword) == Login(t, h, known, wrongPassword)
    ensures Login(t, h, known, wrongPassword) == Err(LoginIncorrect)
    ensures LoginIncorrect.statusCode == 401 && LoginIncorrect.errorCode == "UNAUTHORIZED"
    ensures LoginIncorrect.message == "Username or Password is Incorrect!"
  {
  }

  /** A user whose username has no '@' and whose email has one logs in by either and gets the same id. */
  lemma LoginByUsernameOrEmail(t: Table, h: Hasher, id: UserId, password: string)
    requires Unique(t) && id in t
    requires '@' !in t[id].username && '@' in t[id].email
    ensures Login(t, h, t[id].username, password) == Login(t, h, t[id].email, password)
    ensures h.matches(password, t[id].passwordHash) ==>
              Login(t, h, t[id].email, password) == Ok(LoginPayload(id))
  {
  }

  /** A freshly registered user can log in at once with the plaintext password they registered with. */
  lemma RegisterThenLogin(t: Table, h: Hasher, username: string, email: string, password: string,
                          fname: string, lname: string, generatedId: UserId)
    requires Unique(t) && h.Sound()
    requires CreateUser(t, h, username, email, password, fname, lname, generatedId).outcome.Ok?
    ensures var after := CreateUser(t, h, username, email, password, fname, lname, generatedId).after;
            && ('@' !in username ==> Login(after, h, username, password) == Ok(LoginPayload(generatedId)))
            && ('@' in email ==> Login(after, h, email, password) == Ok(LoginPayload(generatedId)))
  {
  }

  /** After a successful self-delete, no identifier that named the deleted row logs in any more. */
  lemma DeleteThenLoginFails(t: Table, h: Hasher, id: UserId, identifier: string, password: string)
    requires Unique(t) && id in t && Identifies(t[id], identifier)
    ensures DeleteUser(t, id, id).outcome == Ok(())
    ensures id !in DeleteUser(t, id, id).after
    ensures Login(DeleteUser(t, id, id).after, h, identifier, password) == Err(LoginIncorrect)
  {
  }

  /** Once a username change succeeds, the new name (without '@') logs in to the same row. */
  lemma UpdateUsernameThenLogin(t: Table, h: Hasher, id: UserId, newUsername: string, password: string)
    requires Unique(t) && '@' !in newUsername
    requires UpdateUsername(t, id, newUsername).outcome.Ok?
    requires h.matches(password, t[id].passwordHash)
    ensures Login(UpdateUsername(t, id, newUsername).after, h, newUsername, password) == Ok(LoginPayload(id))
  {
  }

  /** Once an email change succeeds, the new email (with '@') logs in to the same row. */
  lemma UpdateEmailThenLogin(t: Table, h: Hasher, newEmail: string, id: UserId, password: string)
    requires Unique(t) && '@' in newEmail
    requires UpdateEmail(t, h, newEmail, id, password).outcome.Ok?
    ensures Login(UpdateEmail(t, h, newEmail, id, password).after, h, newEmail, password) == Ok(LoginPayload(id))
  {
  }

  /**
   * A username containing '@' is always looked up as an email, so unless some
   * row has that string as its email, logging in with it fails.
   */
  lemma AtSignUsernameCannotLogIn(t: Table, h: Hasher, id: UserId, password: string)
    requires Unique(t) && id in t && '@' in t[id].username
    requires !EmailTaken(t, t[id].username)
    ensures Login(t, h, t[id].username, password) == Err(LoginIncorrect)
  {
  }

  /**
   * An email without '@' is always looked up as a username, so unless some
   * row has that string as its username, logging in with it fails.
   */
  lemma EmailWithoutAtCannotLogIn(t: Table, h: Hasher, id: UserId, password: string)
    requires Unique(t) && id in t && '@' !in t[id].email
    requires !UsernameTaken(t, t[id].email)
    ensures Login(t, h, t[id].email, password) == Err(LoginIncorrect)
  {
  }

  /** Changing one's email to the email one already has is a conflict, not a validation error. */
  lemma UpdateEmailToOwnConflicts(t: Table, h: Hasher, id: UserId, password: string)
    requires id in t && h.matches(password, t[id].passwordHash)
    ensures UpdateEmail(t, h, t[id].email, id, password) == Transition(Err(EmailConflict), t)
  {
  }

  /** Once a password change succeeds, the new password logs in and the row keeps its username. */
  lemma UpdatePasswordThenLogin(t: Table, h: Hasher, newPassword: string, id: UserId, currentPassword: string)
    requires Unique(t) && h.Sound() && id in t && '@' !in t[id].username
    requires UpdatePassword(t, h, newPassword, id, currentPassword).outcome.Ok?
    ensures Login(UpdatePassword(t, h, newPassword, id, currentPassword).after, h, t[id].username, newPassword)
              == Ok(LoginPayload(id))
  {
  }

  /** Any one call of the service, with the arguments in the source's order. */
  datatype Call =
    | CreateUserCall(username: string, email: string, password: string, fname: string, lname: string,
                     generatedId: UserId)
    | LoginUserCall(identifier: string, password: string)
    | SelectUserCall(id: UserId)
    | DeleteUserCall(requesterId: UserId, targetId: UserId)
    | UpdateUsernameCall(id: UserId, newUsername: string)
    | UpdateEmailCall(newEmail: string, id: UserId, password: string)
    | UpdatePasswordCall(newPassword: string, id: UserId, currentPassword: string)

  /** The table after one call; the two read-only calls leave it as it was. */
  function Step(t: Table, h: Hasher, c: Call): (after: Table)
  {
    match c
    case CreateUserCall(username, email, password, fname, lname, generatedId) =>
      CreateUser(t, h, username, email, password, fname, lname, generatedId).after
    case LoginUserCall(_, _) => t
    case SelectUserCall(_) => t
    case DeleteUserCall(requesterId, targetId) => DeleteUser(t, requesterId, targetId).after
    case UpdateUsernameCall(id, newUsername) => UpdateUsername(t, id, newUsername).after
    case UpdateEmailCall(newEmail, id, password) => UpdateEmail(t, h, newEmail, id, password).after
    case UpdatePasswordCall(newPassword, id, currentPassword) =>
      UpdatePassword(t, h, newPassword, id, currentPassword).after
  }

  /** The table after the calls run one after another, whatever each of them returns. */
  function Replay(t: Table, h: Hasher, calls: seq<Call>): (after: Table)
    decreases |calls|
  {
    if calls == [] then t else Replay(Step(t, h, calls[0]), h, calls[1..])
  }

  /** No call breaks the unique constraints on usernames and emails. */
  lemma StepPreservesUnique(t: Table, h: Hasher, c: Call)
    requires Unique(t)
    ensures Unique(Step(t, h, c))
  {
  }

  /** Usernames and emails stay unique across the table through every sequence of calls. */
  lemma {:induction false} ReplayPreservesUnique(t: Table, h: Hasher, calls: seq<Call>)
    requires Unique(t)
    ensures Unique(Replay(t, h, calls))
    decreases |calls|
  {
    if calls != [] {
      StepPreservesUnique(t, h, calls[0]);
      ReplayPreservesUnique(Step(t, h, calls[0]), h, calls[1..]);
    }
  }
}
