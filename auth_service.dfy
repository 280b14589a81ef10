/**
 * The credential check and token payload of the authentication service.
 * Users live in a constant table; token signing is a collaborator passed in
 * as `sign`, about which nothing is assumed.
 */
module AuthService {
  import opened Wrappers
  import opened Lists

  datatype User = User(id: string, username: string, password: string, roles: seq<string>)

  /** A user as `validateUser` hands it out: every field but the password. */
  datatype UserView = UserView(id: string, username: string, roles: seq<string>)

  datatype JwtPayload = JwtPayload(username: string, sub: string, roles: seq<string>)

  datatype LoginResult = LoginResult(access_token: string)

  /** The fixed user table the service looks users up in. */
  const MockedUsers: seq<User> := [
    User("user1", "admin", "password123", ["admin"]),
    User("user2", "user", "password456", ["user"])
  ]

  /** The key users are looked up by. */
  function UserName(u: User): string { u.username }

  /** `const { password, ...result } = user`. */
  function WithoutPassword(u: User): UserView
  {
    UserView(u.id, u.username, u.roles)
  }

  /**
   * The credential check against a user table: the FIRST user with that
   * username is taken, and it passes exactly when its password is the given
   * string; anything else (no such user, wrong password) is `None`.
   */
  function ValidateUserIn(users: seq<User>, username: string, pass: string): (r: Option<UserView>)
    ensures r.Some? <==> HasKey(users, UserName, username) && users[IndexOf(users, UserName, username)].password == pass
    ensures r.Some? ==> r.value == WithoutPassword(users[IndexOf(users, UserName, username)])
  {
    FindIsFirst(users, UserName, username);
    match Find(users, UserName, username)
    case None => None
    case Some(user) => if pass == user.password then Some(WithoutPassword(user)) else None
  }

  /** `validateUser(username, pass)` on the service's own table. */
  function ValidateUser(username: string, pass: string): (r: Option<UserView>)
    ensures r.Some? <==> exists u :: u in MockedUsers && u.username == username && u.password == pass
    ensures r.Some? ==> r.value == WithoutPassword(MockedUsers[0]) || r.value == WithoutPassword(MockedUsers[1])
  {
    assert UserName(MockedUsers[0]) == "admin" && UserName(MockedUsers[1]) == "user";
    ValidateUserIn(MockedUsers, username, pass)
  }

  /** An unknown username is rejected, whatever the password. */
  lemma ValidateUserUnknown(users: seq<User>, username: string, pass: string)
    requires forall u :: u in users ==> u.username != username
    ensures ValidateUserIn(users, username, pass) == None
  {
  }

  /**
   * Only the first user with a username is ever considered: users with the
   * same name further down the table change nothing, even when their password
   * would match.
   */
  lemma OnlyFirstUserCounts(users: seq<User>, later: seq<User>, username: string, pass: string)
    requires HasKey(users, UserName, username)
    ensures ValidateUserIn(users + later, username, pass) == ValidateUserIn(users, username, pass)
  {
    IndexOfAppend(users, later, UserName, username);
    var i := IndexOf(users, UserName, username);
    assert (users + later)[i] == users[i];
    assert HasKey(users + later, UserName, username) by {
      assert UserName((users + later)[i]) == username;
    }
  }

  /** The payload `{username, sub: id, roles}` that `login` signs. */
  function PayloadOf(user: UserView): JwtPayload
  {
    JwtPayload(user.username, user.id, user.roles)
  }

  /**
   * The contract of `PayloadOf`: the payload identifies the user, as the
   * source's comment on the payload literal says; distinct users sign
   * distinct payloads.
   */
  lemma PayloadIdentifiesUser(u1: UserView, u2: UserView)
    requires PayloadOf(u1) == PayloadOf(u2)
    ensures u1 == u2
  {
  }

  /** `login(user)`: `{access_token: sign(payload)}`, one call to `sign`. */
  function Login(user: UserView, sign: JwtPayload -> string): LoginResult
  {
    LoginResult(sign(PayloadOf(user)))
  }

  /**
   * Logging in with what a successful credential check returned signs the
   * username together with the id and roles of the first table entry of that
   * name, and never its password.
   */
  lemma LoginAfterValidate(users: seq<User>, username: string, pass: string, sign: JwtPayload -> string)
    requires ValidateUserIn(users, username, pass).Some?
    ensures var u := users[IndexOf(users, UserName, username)];
            Login(ValidateUserIn(users, username, pass).value, sign).access_token ==
            sign(JwtPayload(username, u.id, u.roles))
  {
  }

  /** The mock signer of the unit tests. */
  function MockSign(p: JwtPayload): string { "mocked_jwt_token_for_" + p.username }

  /** Right credentials give the user without its password; wrong ones give `None`. */
  lemma ValidateUserEjemplos()
    ensures ValidateUser("admin", "password123") == Some(UserView("user1", "admin", ["admin"]))
    ensures ValidateUser("nonexistent", "password123") == None
    ensures ValidateUser("admin", "wrongpassword") == None
  {
    assert UserName(MockedUsers[0]) == "admin";
    ValidateUserUnknown(MockedUsers, "nonexistent", "password123");
  }

  /** The test's login: the token is the mock signature of the payload. */
  lemma LoginEjemplo()
    ensures Login(UserView("user1", "admin", ["admin"]), MockSign).access_token == "mocked_jwt_token_for_admin"
  {
  }
}
