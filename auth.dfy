/**
 * The account registry: two hardcoded admin accounts, a list of registered
 * users and the current session, both of which the browser's local storage
 * holds under the keys `users` and `user`.
 */
module Auth {
  import opened Wrappers

  /** An account as stored: the admin list entries and the registered users. */
  datatype Account = Account(username: string, password: string, email: string)

  /** The session object stored under `user`. */
  datatype SessionUser = SessionUser(username: string, email: string, isAdmin: bool)

  datatype LoginResult = LoginOk(user: SessionUser) | InvalidCredentials
  datatype RegisterResult = Registered(user: SessionUser) | UsernameTaken

  const AdminAccounts: seq<Account> := [
    Account("admin", "admin123", "admin@pythonlearn.com"),
    Account("teacher", "teacher123", "teacher@pythonlearn.com")
  ]

  /** Some account of the list has this username. */
  predicate HasUsername(accounts: seq<Account>, username: string)
  {
    exists i :: 0 <= i < |accounts| && accounts[i].username == username
  }

  /** `isAdmin(username)`: the name of one of the hardcoded admins, which are exactly `admin` and `teacher`. */
  predicate IsAdmin(username: string)
    ensures IsAdmin(username) <==> username == "admin" || username == "teacher"
  {
    assert AdminAccounts[0].username == "admin" && AdminAccounts[1].username == "teacher";
    HasUsername(AdminAccounts, username)
  }

  /** The first account whose username and password both equal the given ones. */
  function FindAccount(accounts: seq<Account>, username: string, password: string): (r: Option<Account>)
    ensures r.Some? <==> exists i :: 0 <= i < |accounts| && accounts[i].username == username && accounts[i].password == password
    ensures r.Some? ==> r.value.username == username && r.value.password == password && r.value in accounts
    ensures r.Some? ==> exists i :: && 0 <= i < |accounts| && r.value == accounts[i]
                                    && forall j :: 0 <= j < i ==>
                                         !(accounts[j].username == username && accounts[j].password == password)
  {
    if accounts == [] then None
    else if accounts[0].username == username && accounts[0].password == password then Some(accounts[0])
    else FindAccount(accounts[1..], username, password)
  }

  /** No two stored users share a username, and none uses an admin's. */
  predicate UsernamesUnique(users: seq<Account>)
  {
    && (forall i, j :: 0 <= i < j < |users| ==> users[i].username != users[j].username)
    && (forall i :: 0 <= i < |users| ==> !IsAdmin(users[i].username))
  }

  /** What `login(username, password)` answers given the stored users: admins first. */
  function LoginAttempt(users: seq<Account>, username: string, password: string): (r: LoginResult)
    ensures FindAccount(AdminAccounts, username, password).Some? ==>
              r.LoginOk? && r.user.isAdmin && r.user.username == username
    ensures r.LoginOk? && !r.user.isAdmin ==>
              FindAccount(AdminAccounts, username, password).None? && FindAccount(users, username, password).Some?
    ensures r.InvalidCredentials? <==>
              FindAccount(AdminAccounts, username, password).None? && FindAccount(users, username, password).None?
    ensures r.LoginOk? ==> r.user.username == username
    ensures r.LoginOk? && r.user.isAdmin ==>
              FindAccount(AdminAccounts, username, password).Some? &&
              r.user.email == FindAccount(AdminAccounts, username, password).value.email
    ensures r.LoginOk? && !r.user.isAdmin ==>
              FindAccount(users, username, password).Some? &&
              r.user.email == FindAccount(users, username, password).value.email
  {
    match FindAccount(AdminAccounts, username, password)
    case Some(admin) => LoginOk(SessionUser(admin.username, admin.email, true))
    case None =>
      match FindAccount(users, username, password)
      case Some(user) => LoginOk(SessionUser(user.username, user.email, false))
      case None => InvalidCredentials
  }

  /** Only the two admin password pairs log in as an admin. */
  lemma AdminLogin(users: seq<Account>, username: string, password: string)
    ensures LoginAttempt(users, username, password).LoginOk? && LoginAttempt(users, username, password).user.isAdmin <==>
            (username == "admin" && password == "admin123") || (username == "teacher" && password == "teacher123")
  {
    if FindAccount(AdminAccounts, username, password).Some? {
      var i :| 0 <= i < |AdminAccounts| && AdminAccounts[i].username == username && AdminAccounts[i].password == password;
      assert i == 0 || i == 1;
    } else {
      assert AdminAccounts[0].username == "admin" && AdminAccounts[0].password == "admin123";
      assert AdminAccounts[1].username == "teacher" && AdminAccounts[1].password == "teacher123";
    }
  }

  /** In a registry whose usernames are unique, the account found for a username is the one holding it. */
  lemma FindUnique(users: seq<Account>, k: nat, password: string)
    requires UsernamesUnique(users) && k < |users| && users[k].password == password
    ensures FindAccount(users, users[k].username, password) == Some(users[k])
  {
    if k > 0 {
      assert users[0].username != users[k].username;
      assert users[1..][k - 1] == users[k];
      assert UsernamesUnique(users[1..]) by {
        forall i, j | 0 <= i < j < |users[1..]| ensures users[1..][i].username != users[1..][j].username {
          assert users[1..][i] == users[i + 1] && users[1..][j] == users[j + 1];
        }
      }
      FindUnique(users[1..], k - 1, password);
    }
  }

  /** A user just registered can log in with the same username and password, as a non-admin. */
  lemma RegisterThenLogin(users: seq<Account>, username: string, email: string, password: string)
    requires UsernamesUnique(users)
    requires !IsAdmin(username) && !HasUsername(users, username)
    ensures UsernamesUnique(users + [Account(username, password, email)])
    ensures LoginAttempt(users + [Account(username, password, email)], username, password) ==
            LoginOk(SessionUser(username, email, false))
  {
    var after := users + [Account(username, password, email)];
    assert after[|users|] == Account(username, password, email);
    FindUnique(after, |users|, password);
  }

  /** The users list and the session as local storage holds them. */
  class AccountStore {
    /** The parsed `users` entry (an absent entry reads as the empty list). */
    var users: seq<Account>
    /** The parsed `user` entry. */
    var session: Option<SessionUser>

    ghost predicate Valid()
      reads this`users
    {
      UsernamesUnique(users)
    }

    /** Storage as a fresh browser has it: no users, nobody logged in. */
    constructor ()
      ensures Valid()
      ensures users == [] && session == None
    {
      users := [];
      session := None;
    }

    /** `getCurrentUser()`: the stored session, or null. */
    function GetCurrentUser(): (r: Option<SessionUser>)
      reads this`session
      ensures r.Some? <==> session.Some?
      ensures r.Some? ==> r.value == session.value
    {
      session
    }

    /** `isAuthenticated()`: a session is stored. */
    function IsAuthenticated(): (r: bool)
      reads this`session
      ensures r <==> GetCurrentUser().Some?
    {
      session.Some?
    }

    /**
     * `login(username, password)`: admin credentials first, then the stored
     * users; on success the session becomes that user, on failure it stays.
     */
    method Login(username: string, password: string) returns (r: LoginResult)
      modifies this`session
      ensures r == LoginAttempt(users, username, password)
      ensures r.LoginOk? ==> session == Some(r.user)
      ensures r.InvalidCredentials? ==> session == old(session)
    {
      var admin := FindAccount(AdminAccounts, username, password);
      if admin.Some? {
        var userData := SessionUser(admin.value.username, admin.value.email, true);
        session := Some(userData);
        return LoginOk(userData);
      }
      var user := FindAccount(users, username, password);
      if user.Some? {
        var userData := SessionUser(user.value.username, user.value.email, false);
        session := Some(userData);
        return LoginOk(userData);
      }
      return InvalidCredentials;
    }

    /**
     * `register(username, email, password)`: refused for an admin's or a
     * stored user's username; otherwise the account is appended and its
     * owner logged in as a non-admin.
     */
    method Register(username: string, email: string, password: string) returns (r: RegisterResult)
      modifies this`users, this`session
      ensures old(Valid()) ==> Valid()
      ensures IsAdmin(username) || HasUsername(old(users), username) ==>
                r == UsernameTaken && users == old(users) && session == old(session)
      ensures !IsAdmin(username) && !HasUsername(old(users), username) ==>
                && users == old(users) + [Account(username, password, email)]
                && r == Registered(SessionUser(username, email, false))
                && session == Some(r.user)
    {
      if IsAdmin(username) {
        return UsernameTaken;
      }
      if HasUsername(users, username) {
        return UsernameTaken;
      }
      ghost var before := users;
      users := users + [Account(username, password, email)];
      if UsernamesUnique(before) {
        RegisterThenLogin(before, username, email, password);
      }
      var userData := SessionUser(username, email, false);
      session := Some(userData);
      return Registered(userData);
    }

    /** `logout()`: the session is removed; the users stay. */
    method Logout()
      modifies this`session
      ensures session == None && !IsAuthenticated()
    {
      session := None;
    }
  }

  /**
   * A registration followed by a logout and a login with the same password
   * signs the new user back in.
   */
  method RegisterLogoutLogin(store: AccountStore, username: string, email: string, password: string)
    returns (registered: RegisterResult, login: LoginResult)
    requires store.Valid()
    modifies store
    ensures store.Valid()
    ensures registered.Registered? <==> !IsAdmin(username) && !HasUsername(old(store.users), username)
    ensures registered.Registered? ==> login == LoginOk(SessionUser(username, email, false)) && store.IsAuthenticated()
  {
    ghost var before := store.users;
    registered := store.Register(username, email, password);
    store.Logout();
    login := store.Login(username, password);
    if registered.Registered? {
      RegisterThenLogin(before, username, email, password);
    }
  }
}
