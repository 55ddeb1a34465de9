/**
 * The service functions of src/services/user.service.ts as methods of an
 * object that owns the user table. Each method re-reads the table, runs its
 * guard checks in the source's order and then makes at most one insert,
 * update or delete. Each is proved to do exactly what UserRules describes.
 */
module UserService {
  import opened Wrappers
  import opened ApiErrors
  import opened UserModel
  import UserRules

  class UserStore {
    /** The user table the store holds. */
    var users: Table
    /** The password-hashing facility. */
    const hasher: Hasher

    /** The store's unique constraints hold. */
    ghost predicate Valid()
      reads this
    {
      Unique(users)
    }

    /** A store over an existing table. */
    constructor (initial: Table, hasher: Hasher)
      requires Unique(initial)
      ensures Valid()
      ensures users == initial && this.hasher == hasher
    {
      users := initial;
      this.hasher := hasher;
    }

    method CreateUser(username: string, email: string, password: string, fname: string, lname: string,
                      generatedId: UserId) returns (r: Outcome<()>)
      requires Valid()
      modifies this
      ensures Valid()
      ensures UserRules.Transition(r, users) ==
                UserRules.CreateUser(old(users), hasher, username, email, password, fname, lname, generatedId)
    {
      var passwordHash := hasher.hash(password, RegisterHashCost);
      if generatedId in users || UsernameTaken(users, username) || EmailTaken(users, email) {
        // the store's primary-key or unique constraint rejects the insert
        return StoreFailure;
      }
      users := users[generatedId := User(username, email, passwordHash, fname, lname)];
      r := Ok(());
    }

    method LoginUser(identifier: string, password: string) returns (r: Outcome<LoginPayload>)
      requires Valid()
      ensures r == UserRules.Login(users, hasher, identifier, password)
    {
      var isEmail := '@' in identifier;
      var user := if isEmail then FindByEmail(users, identifier) else FindByUsername(users, identifier);
      if user.None? {
        return Err(LoginIncorrect);
      }
      var isPasswordCorrect := hasher.matches(password, users[user.value].passwordHash);
      if isPasswordCorrect {
        r := Ok(LoginPayload(user.value));
      } else {
        r := Err(LoginIncorrect);
      }
    }

    method SelectUser(id: UserId) returns (r: Outcome<()>)
      ensures r == UserRules.SelectUser(id)
    {
      if id == "" {
        return Err(MissingUserId);
      }
      // the row (or its absence) is read and then discarded
      var row := if id in users then Some(users[id]) else None;
      r := Ok(());
    }

    method DeleteUser(requesterId: UserId, targetId: UserId) returns (r: Outcome<()>)
      requires Valid()
      modifies this
      ensures Valid()
      ensures UserRules.Transition(r, users) == UserRules.DeleteUser(old(users), requesterId, targetId)
    {
      if requesterId != targetId {
        return Err(DeleteForbidden);
      }
      if targetId !in users {
        // deleting a missing row is an error of the store
        return StoreFailure;
      }
      users := users - {targetId};
      r := Ok(());
    }

    method UpdateUsername(id: UserId, newUsername: string) returns (r: Outcome<()>)
      requires Valid()
      modifies this
      ensures Valid()
      ensures UserRules.Transition(r, users) == UserRules.UpdateUsername(old(users), id, newUsername)
    {
      if id !in users {
        return Err(UserNotFound);
      }
      var currentUser := users[id];
      if newUsername == currentUser.username {
        return Err(UsernameUnchanged);
      }
      var usernameTaken := FindByUsername(users, newUsername);
      if usernameTaken.Some? {
        return Err(UsernameConflict);
      }
      users := users[id := currentUser.(username := newUsername)];
      r := Ok(());
    }

    method UpdateEmail(newEmail: string, id: UserId, password: string) returns (r: Outcome<()>)
      requires Valid()
      modifies this
      ensures Valid()
      ensures UserRules.Transition(r, users) == UserRules.UpdateEmail(old(users), hasher, newEmail, id, password)
    {
      if id !in users {
        return Err(UserNotFound);
      }
      var currentUser := users[id];
      var isPasswordCorrect := hasher.matches(password, currentUser.passwordHash);
      if !isPasswordCorrect {
        return Err(PasswordIncorrect);
      }
      var emailExists := FindByEmail(users, newEmail);
      if emailExists.Some? {
        return Err(EmailConflict);
      }
      users := users[id := currentUser.(email := newEmail)];
      r := Ok(());
    }

    method UpdatePassword(newPassword: string, id: UserId, currentPassword: string) returns (r: Outcome<()>)
      requires Valid()
      modifies this
      ensures Valid()
      ensures UserRules.Transition(r, users) ==
                UserRules.UpdatePassword(old(users), hasher, newPassword, id, currentPassword)
    {
      if id !in users {
        return Err(UserNotFound);
      }
      var currentUser := users[id];
      var isPasswordCorrect := hasher.matches(currentPassword, currentUser.passwordHash);
      if !isPasswordCorrect {
        return Err(PasswordIncorrect);
      }
      if newPassword == currentPassword {
        return Err(PasswordUnchanged);
      }
      var hashedNewPassword := hasher.hash(newPassword, UpdatePasswordHashCost);
      users := users[id := currentUser.(passwordHash := hashedNewPassword)];
      r := Ok(());
    }
  }

  /**
   * A caller's view: register, then log in with the same plaintext by
   * username and by email, change the username, and delete oneself.
   */
  method RegisterLoginDelete(store: UserStore)
    requires store.Valid() && store.hasher.Sound() && store.users == map[]
    modifies store
    ensures store.Valid() && store.users == map[]
  {
    var created := store.CreateUser("alice", "alice@x.com", "secret123", "Alice", "A", "u1");
    assert created == Ok(());
    var login := store.LoginUser("alice", "secret123");
    assert login == Ok(LoginPayload("u1"));
    login := store.LoginUser("alice@x.com", "secret123");
    assert login == Ok(LoginPayload("u1"));
    var renamed := store.UpdateUsername("u1", "alice");
    assert renamed == Err(UsernameUnchanged);
    var forbidden := store.DeleteUser("u2", "u1");
    assert forbidden == Err(DeleteForbidden) && "u1" in store.users;
    var deleted := store.DeleteUser("u1", "u1");
    assert deleted == Ok(());
  }
}
