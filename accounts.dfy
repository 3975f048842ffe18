/**
 * Accounts and the login session (`checkPassword`, `getLoggedUsername`,
 * `signup`, `logout` and `changePassword` in index.py). The `users`
 * collection is a map from user id to record; the Flask session is a map
 * from key to user id, of which only the "logged" entry is used.
 */
module Accounts {
  import opened Passwords

  type UserId = nat

  /** A document of the `users` collection. */
  datatype User = User(username: string, password: PasswordHash, profilePic: string)

  /** The session key that holds the logged-in user's id. */
  const LoggedKey: string := "logged"

  /** What a POST to `/signup` ends in; each rejection has its own flash message. */
  datatype SignupOutcome =
    | InvalidUsername        // 'Invalid Username'
    | UsernameTaken          // 'That Username is taken!'
    | InvalidPassword        // 'Invalid Password'
    | AccountCreated         // 'Account Created!'

  /** What a POST to `/changePassword` ends in. */
  datatype ChangePasswordOutcome =
    | NotLoggedIn            // redirect to the login page
    | EmptyOldPassword       // 'Invalid Old Password'
    | EmptyNewPassword       // 'Invalid New Password'
    | WrongOldPassword       // 'Invalid Old Password'
    | SamePassword           // 'New Password must be different from Old Password'
    | PasswordChanged        // 'Password Changed'

  /** Some stored user has this username (`find_one({"username": ...})` finds one). */
  predicate HasUsername(users: map<UserId, User>, username: string)
  {
    exists id :: id in users && users[id].username == username
  }

  /** No two stored users share a username. */
  ghost predicate UniqueUsernames(users: map<UserId, User>)
  {
    forall a, b :: a in users && b in users && users[a].username == users[b].username ==> a == b
  }

  /** No stored user has the empty username (signup refuses it). */
  ghost predicate NonEmptyUsernames(users: map<UserId, User>)
  {
    forall id :: id in users ==> users[id].username != ""
  }

  ghost predicate ValidUsers(users: map<UserId, User>)
  {
    UniqueUsernames(users) && NonEmptyUsernames(users)
  }

  /** The session names a user that is in the store. */
  predicate LoggedInAs(users: map<UserId, User>, session: map<string, UserId>, id: UserId)
  {
    LoggedKey in session && session[LoggedKey] == id && id in users
  }

  /** Adding the record `signup` inserts keeps usernames unique and non-empty. */
  lemma SignupKeepsValid(users: map<UserId, User>, id: UserId, username: string, password: PasswordHash)
    requires ValidUsers(users)
    requires id !in users && username != "" && !HasUsername(users, username)
    ensures ValidUsers(users[id := User(username, password, "")])
  {
  }

  /** Replacing one user's password hash keeps usernames unique and non-empty. */
  lemma SetPasswordKeepsValid(users: map<UserId, User>, id: UserId, password: PasswordHash)
    requires ValidUsers(users) && id in users
    ensures ValidUsers(users[id := users[id].(password := password)])
  {
  }

  /**
   * The application state one request sees: the `users` collection and the
   * requesting client's session.
   */
  class QuizApp {
    var users: map<UserId, User>
    var session: map<string, UserId>

    /** The store invariant; it reads only the store, so session changes keep it. */
    ghost predicate Valid()
      reads this`users
    {
      ValidUsers(users)
    }

    /** An empty `users` collection and an empty session. */
    constructor ()
      ensures Valid() && users == map[] && session == map[]
    {
      users := map[];
      session := map[];
    }

    /**
     * `checkPassword`: succeeds exactly when the user with that username has
     * a stored hash that verifies the password; on success, and only then,
     * records that user's id under "logged". The user store is not touched.
     */
    method CheckPassword(username: string, password: string) returns (ok: bool)
      requires Valid()
      modifies this`session
      ensures Valid()
      ensures ok <==> exists id :: id in users && users[id].username == username && Verify(users[id].password, password)
      ensures ok ==> exists id :: id in users && users[id].username == username && session == old(session)[LoggedKey := id]
      ensures !ok ==> session == old(session)
    {
      if exists id :: id in users && users[id].username == username {
        var id :| id in users && users[id].username == username;
        if Verify(users[id].password, password) {
          session := session[LoggedKey := id];
          assert users[id].username == username && Verify(users[id].password, password);
          return true;
        }
      }
      return false;
    }

    /**
     * `getLoggedUsername`: the username of the user the session names,
     * leaving the session as it is; "" when the session names no stored user,
     * in which case a stale "logged" entry is dropped.
     */
    method GetLoggedUsername() returns (name: string)
      requires Valid()
      modifies this`session
      ensures Valid()
      ensures forall id :: LoggedInAs(users, old(session), id) ==> name == users[id].username && session == old(session)
      ensures (LoggedKey in old(session) && old(session)[LoggedKey] !in users) ==> name == "" && session == old(session) - {LoggedKey}
      ensures LoggedKey !in old(session) ==> name == "" && session == old(session)
      ensures name == "" <==> !(LoggedKey in old(session) && old(session)[LoggedKey] in users)
    {
      if LoggedKey in session {
        var id := session[LoggedKey];
        if id in users {
          return users[id].username;
        }
        session := session - {LoggedKey};
      }
      return "";
    }

    /** `logout`: drops "logged" and keeps every other session entry; a second call changes nothing. */
    method Logout()
      requires Valid()
      modifies this`session
      ensures Valid()
      ensures session == old(session) - {LoggedKey}
      ensures LoggedKey !in old(session) ==> session == old(session)
    {
      if LoggedKey in session {
        session := session - {LoggedKey};
      }
    }

    /**
     * `signup`: rejects an empty username first, then a username already
     * taken, then an empty password; only when all pass does it insert one
     * record with the hashed password and no profile picture, under the
     * fresh id the store assigns. The session is not touched.
     */
    method Signup(username: string, password: string, newId: UserId, salt: nat) returns (r: SignupOutcome)
      requires Valid() && newId !in users
      modifies this`users
      ensures Valid()
      ensures r == InvalidUsername <==> username == ""
      ensures r == UsernameTaken <==> username != "" && HasUsername(old(users), username)
      ensures r == InvalidPassword <==> username != "" && !HasUsername(old(users), username) && password == ""
      ensures r == AccountCreated <==> username != "" && !HasUsername(old(users), username) && password != ""
      ensures r != AccountCreated ==> users == old(users)
      ensures r == AccountCreated ==> users == old(users)[newId := User(username, Hash(password, salt), "")]
      ensures r == AccountCreated ==> |users| == |old(users)| + 1
    {
      if username == "" {
        return InvalidUsername;
      }
      if HasUsername(users, username) {
        return UsernameTaken;
      }
      if password == "" {
        return InvalidPassword;
      }
      SignupKeepsValid(users, newId, username, Hash(password, salt));
      users := users[newId := User(username, Hash(password, salt), "")];
      return AccountCreated;
    }

    /**
     * `changePassword`: needs a logged-in user, a non-empty old and new
     * password (checked in that order), an old password that verifies, and a
     * new password different from the old one. On success only the logged-in
     * user's password hash changes; on every rejection the store is as it was.
     * The session changes only by dropping a stale "logged" entry.
     */
    method ChangePassword(oldPassword: string, newPassword: string, salt: nat) returns (r: ChangePasswordOutcome)
      requires Valid()
      modifies this`users, this`session
      ensures Valid()
      ensures r == NotLoggedIn <==> !(LoggedKey in old(session) && old(session)[LoggedKey] in old(users))
      ensures r == NotLoggedIn ==> session == old(session) - {LoggedKey}
      ensures r != NotLoggedIn ==> session == old(session)
      ensures forall id :: LoggedInAs(old(users), old(session), id) ==>
        r == (if oldPassword == "" then EmptyOldPassword
              else if newPassword == "" then EmptyNewPassword
              else if !Verify(old(users)[id].password, oldPassword) then WrongOldPassword
              else if oldPassword == newPassword then SamePassword
              else PasswordChanged)
      ensures r == PasswordChanged <==> (exists id :: LoggedInAs(old(users), old(session), id) &&
                                                   oldPassword != "" && newPassword != "" &&
                                                   Verify(old(users)[id].password, oldPassword) && oldPassword != newPassword)
      ensures r != PasswordChanged ==> users == old(users)
      ensures r == PasswordChanged ==> (exists id :: LoggedInAs(old(users), old(session), id) &&
                                                  users == old(users)[id := old(users)[id].(password := Hash(newPassword, salt))])
    {
      var username := GetLoggedUsername();
      if username == "" {
        return NotLoggedIn;
      }
      if oldPassword == "" {
        return EmptyOldPassword;
      }
      if newPassword == "" {
        return EmptyNewPassword;
      }
      ghost var loggedId := session[LoggedKey];
      var ok := CheckPassword(username, oldPassword);
      assert session == old(session);
      if ok {
        if oldPassword == newPassword {
          return SamePassword;
        }
        var id :| id in users && users[id].username == username;
        assert id == loggedId;
        SetPasswordKeepsValid(users, id, Hash(newPassword, salt));
        users := users[id := users[id].(password := Hash(newPassword, salt))];
        return PasswordChanged;
      }
      return WrongOldPassword;
    }
  }

  /**
   * A client session against a fresh store, showing what callers can conclude
   * from the contracts alone: sign up, log in, change the password, log out.
   */
  method AccountWalkthrough(salt: nat)
  {
    var app := new QuizApp();
    var created := app.Signup("alice", "pw", 0, salt);
    assert created == AccountCreated;
    var again := app.Signup("alice", "other", 1, salt);
    assert again == UsernameTaken;

    var wrong := app.CheckPassword("alice", "nope");
    assert !wrong && LoggedKey !in app.session;
    var ok := app.CheckPassword("alice", "pw");
    assert app.users.Keys == {0};
    assert app.users[0].username == "alice" && Verify(app.users[0].password, "pw");
    assert ok;
    assert app.session == map[LoggedKey := 0];

    var name := app.GetLoggedUsername();
    assert name == "alice";
    var same := app.ChangePassword("pw", "pw", salt);
    assert same == SamePassword;
    var changed := app.ChangePassword("pw", "new", salt);
    assert changed == PasswordChanged;
    var stale := app.CheckPassword("alice", "pw");
    assert !stale;

    app.Logout();
    name := app.GetLoggedUsername();
    assert name == "";
    var after := app.ChangePassword("new", "newer", salt);
    assert after == NotLoggedIn;
  }
}
