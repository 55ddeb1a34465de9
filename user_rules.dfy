/**
 * The meaning of each function of src/services/user.service.ts as a pure
 * function of the table before the call: what the call returns and what the
 * table is afterwards. The methods of UserService.UserStore are proved to
 * behave exactly so.
 */
module UserRules {
  import opened Wrappers
  import opened ApiErrors
  import opened UserModel

  /** The result of one state-changing call and the table after it. */
  datatype Transition = Transition(outcome: Outcome<()>, after: Table)

  /** `after` is `t` with the row `id` replaced by `updated` and every other row left as it was. */
  predicate ReplacesOnly(t: Table, after: Table, id: UserId, updated: User)
  {
    && id in t
    && after.Keys == t.Keys
    && after[id] == updated
    && forall k :: k in t && k != id ==> after[k] == t[k]
  }

  /**
   * `createUserService(username, email, password, fname, lname)`: hash the
   * password with work factor 12 and insert the row under the id the store
   * generates. The service checks nothing itself; the store's primary-key
   * and unique constraints reject a clashing insert, as an uncaught failure.
   */
  function CreateUser(t: Table, h: Hasher, username: string, email: string, password: string,
                      fname: string, lname: string, generatedId: UserId): (s: Transition)
    ensures !s.outcome.Err?
    ensures s.outcome == StoreFailure <==>
              generatedId in t || UsernameTaken(t, username) || EmailTaken(t, email)
    ensures s.outcome == StoreFailure ==> s.after == t
    ensures s.outcome.Ok? ==>
              && s.after.Keys == t.Keys + {generatedId}
              && s.after[generatedId] == User(username, email, h.hash(password, 12), fname, lname)
              && forall k :: k in t ==> s.after[k] == t[k]
    ensures Unique(t) ==> Unique(s.after)
  {
    var passwordHash := h.hash(password, RegisterHashCost);
    if generatedId in t || UsernameTaken(t, username) || EmailTaken(t, email) then
      Transition(StoreFailure, t)
    else
      Transition(Ok(()), t[generatedId := User(username, email, passwordHash, fname, lname)])
  }

  /**
   * `loginUserService(identifier, password)`: find the row by email when the
   * identifier contains '@' and by username otherwise, then compare the
   * password. An unknown identifier and a wrong password fail alike.
   */
  function Login(t: Table, h: Hasher, identifier: string, password: string): (r: Outcome<LoginPayload>)
    requires Unique(t)
    ensures forall id :: id in t && Identifies(t[id], identifier) ==>
              r == if h.matches(password, t[id].passwordHash) then Ok(LoginPayload(id)) else Err(LoginIncorrect)
    ensures (forall id :: id in t ==> !Identifies(t[id], identifier)) ==> r == Err(LoginIncorrect)
  {
    var user := if '@' in identifier then FindByEmail(t, identifier) else FindByUsername(t, identifier);
    if user.None? then
      Err(LoginIncorrect)
    else if h.matches(password, t[user.value].passwordHash) then
      Ok(LoginPayload(user.value))
    else
      Err(LoginIncorrect)
  }

  /**
   * `selectUserService(id)`: an empty id is refused with 403; otherwise the
   * row is read and the result discarded, so the call returns nothing.
   */
  function SelectUser(id: UserId): (r: Outcome<()>)
    ensures r.Ok? <==> id != ""
    ensures r.Err? <==> id == ""
    ensures r.Err? ==> r.error == MissingUserId
  {
    if id == "" then Err(MissingUserId) else Ok(())
  }

  /**
   * `deleteUserService(requesterId, targetId)`: only a user may delete
   * themselves. Deleting a missing row is a store failure the service does
   * not catch.
   */
  function DeleteUser(t: Table, requesterId: UserId, targetId: UserId): (s: Transition)
    ensures s.outcome == Err(DeleteForbidden) <==> requesterId != targetId
    ensures s.outcome == StoreFailure <==> requesterId == targetId && targetId !in t
    ensures s.outcome.Ok? <==> requesterId == targetId && targetId in t
    ensures !s.outcome.Ok? ==> s.after == t
    ensures s.outcome.Ok? ==>
              && targetId in t
              && s.after.Keys == t.Keys - {targetId}
              && forall k :: k in s.after ==> s.after[k] == t[k]
    ensures Unique(t) ==> Unique(s.after)
  {
    if requesterId != targetId then
      Transition(Err(DeleteForbidden), t)
    else if targetId !in t then
      Transition(StoreFailure, t)
    else
      Transition(Ok(()), t - {targetId})
  }

  /**
   * `updateUsernameService(id, newUsername)`: unknown id (404), unchanged
   * name (400), name held by any row (409), in that order; otherwise only
   * that row's username changes.
   */
  function UpdateUsername(t: Table, id: UserId, newUsername: string): (s: Transition)
    ensures s.outcome == Err(UserNotFound) <==> id !in t
    ensures s.outcome == Err(UsernameUnchanged) <==> id in t && newUsername == t[id].username
    ensures s.outcome == Err(UsernameConflict) <==>
              id in t && newUsername != t[id].username && UsernameTaken(t, newUsername)
    ensures s.outcome.Ok? <==> id in t && !UsernameTaken(t, newUsername)
    ensures !s.outcome.Ok? ==> s.outcome.Err? && s.after == t
    ensures s.outcome.Ok? ==> ReplacesOnly(t, s.after, id, t[id].(username := newUsername))
    ensures Unique(t) ==> Unique(s.after)
  {
    if id !in t then
      Transition(Err(UserNotFound), t)
    else if newUsername == t[id].username then
      Transition(Err(UsernameUnchanged), t)
    else if UsernameTaken(t, newUsername) then
      Transition(Err(UsernameConflict), t)
    else
      Transition(Ok(()), t[id := t[id].(username := newUsername)])
  }

  /**
   * `updateEmailService(newEmail, id, password)`: unknown id (404), wrong
   * password (401), email held by any row, the user's own included (409), in
   * that order; otherwise only that row's email changes.
   */
  function UpdateEmail(t: Table, h: Hasher, newEmail: string, id: UserId, password: string): (s: Transition)
    ensures s.outcome == Err(UserNotFound) <==> id !in t
    ensures s.outcome == Err(PasswordIncorrect) <==> id in t && !h.matches(password, t[id].passwordHash)
    ensures s.outcome == Err(EmailConflict) <==>
              id in t && h.matches(password, t[id].passwordHash) && EmailTaken(t, newEmail)
    ensures s.outcome.Ok? <==>
              id in t && h.matches(password, t[id].passwordHash) && !EmailTaken(t, newEmail)
    ensures !s.outcome.Ok? ==> s.outcome.Err? && s.after == t
    ensures s.outcome.Ok? ==> ReplacesOnly(t, s.after, id, t[id].(email := newEmail))
    ensures Unique(t) ==> Unique(s.after)
  {
    if id !in t then
      Transition(Err(UserNotFound), t)
    else if !h.matches(password, t[id].passwordHash) then
      Transition(Err(PasswordIncorrect), t)
    else if EmailTaken(t, newEmail) then
      Transition(Err(EmailConflict), t)
    else
      Transition(Ok(()), t[id := t[id].(email := newEmail)])
  }

  /**
   * `updatePasswordService(newPassword, id, currentPassword)`: unknown id
   * (404), wrong current password (401), new plaintext equal to the current
   * one (400), in that order; otherwise only that row's hash changes, to a
   * hash of the new password with work factor 10.
   */
  function UpdatePassword(t: Table, h: Hasher, newPassword: string, id: UserId,
                          currentPassword: string): (s: Transition)
    ensures s.outcome == Err(UserNotFound) <==> id !in t
    ensures s.outcome == Err(PasswordIncorrect) <==>
              id in t && !h.matches(currentPassword, t[id].passwordHash)
    ensures s.outcome == Err(PasswordUnchanged) <==>
              id in t && h.matches(currentPassword, t[id].passwordHash) && newPassword == currentPassword
    ensures s.outcome.Ok? <==>
              id in t && h.matches(currentPassword, t[id].passwordHash) && newPassword != currentPassword
    ensures !s.outcome.Ok? ==> s.outcome.Err? && s.after == t
    ensures s.outcome.Ok? ==> ReplacesOnly(t, s.after, id, t[id].(passwordHash := h.hash(newPassword, 10)))
    ensures Unique(t) ==> Unique(s.after)
  {
    if id !in t then
      Transition(Err(UserNotFound), t)
    else if !h.matches(currentPassword, t[id].passwordHash) then
      Transition(Err(PasswordIncorrect), t)
    else if newPassword == currentPassword then
      Transition(Err(PasswordUnchanged), t)
    else
      Transition(Ok(()), t[id := t[id].(passwordHash := h.hash(newPassword, UpdatePasswordHashCost))])
  }
}
