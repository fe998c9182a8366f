/** Registration, the login decision and the current-user lookup over the
    `users` table. Password hashing is outside the model: registration is
    given the hash, and login is given the check as a function. */
module Accounts {
  import opened Schema

  /** `data.get(key)` is truthy: the key is present, not null, not "". */
  predicate Given(field: Option<string>) {
    field.Some? && field.value != ""
  }

  function Usernames(users: map<UserId, User>): set<string> {
    set u | u in users :: users[u].username
  }

  /** The query `User.query.filter_by(username=name).first()`. */
  function UserNamed(users: map<UserId, User>, name: string): (found: Option<UserId>)
    requires UniqueUsernames(users)
    ensures found.Some? ==> found.value in users && users[found.value].username == name
    ensures found.None? <==> name !in Usernames(users)
  {
    if exists u :: u in users && users[u].username == name then
      var u :| u in users && users[u].username == name;
      Some(u)
    else
      None
  }

  datatype RegisterReply = RegisterReply(status: Status, user: Option<UserId>)

  datatype RegisterOutcome = RegisterOutcome(reply: RegisterReply, users: map<UserId, User>, nextUserId: nat)

  /** Registration: both fields required, the username must be free, and the
      insert fails at commit when a column is too long. `passwordHash` is
      the salted hash of `password`. */
  function RegisterSpec(users: map<UserId, User>, nextUserId: nat,
                        username: Option<string>, password: Option<string>, passwordHash: string): (out: RegisterOutcome)
    ensures out.reply.status in {Created201, BadRequest400, ServerError500}
    ensures out.reply.status == BadRequest400 <==>
              !Given(username) || !Given(password) || username.value in Usernames(users)
    ensures out.reply.status != Created201 ==> out.users == users && out.reply.user.None?
    ensures out.reply.status == Created201 ==>
              && out.reply.user == Some(nextUserId)
              && out.users == users[nextUserId := User(username.value, passwordHash)]
    ensures out.reply.status == Created201 <==>
              && Given(username) && Given(password) && username.value !in Usernames(users)
              && UserFits(User(username.value, passwordHash))
    ensures out.reply.status == ServerError500 <==>
              && Given(username) && Given(password) && username.value !in Usernames(users)
              && !UserFits(User(username.value, passwordHash))
    ensures out.nextUserId >= nextUserId
  {
    if !Given(username) || !Given(password) then
      RegisterOutcome(RegisterReply(BadRequest400, None), users, nextUserId)
    else if username.value in Usernames(users) then
      RegisterOutcome(RegisterReply(BadRequest400, None), users, nextUserId)
    else
      var user := User(username.value, passwordHash);
      if UserFits(user) then
        RegisterOutcome(RegisterReply(Created201, Some(nextUserId)), users[nextUserId := user], nextUserId + 1)
      else
        RegisterOutcome(RegisterReply(ServerError500, None), users, nextUserId + 1)
  }

  /** A successful registration adds exactly one user, under a fresh id, and
      keeps the table's invariant; any other outcome leaves it as it was. */
  lemma RegisterKeepsUsers(users: map<UserId, User>, nextUserId: nat,
                           username: Option<string>, password: Option<string>, passwordHash: string)
    requires UsersInvariant(users, nextUserId)
    ensures var out := RegisterSpec(users, nextUserId, username, password, passwordHash);
            && UsersInvariant(out.users, out.nextUserId)
            && (out.reply.status == Created201 ==>
                  nextUserId !in users && out.users.Keys == users.Keys + {nextUserId} && |out.users| == |users| + 1)
  {
    var out := RegisterSpec(users, nextUserId, username, password, passwordHash);
    if out.reply.status == Created201 {
      assert nextUserId !in users;
      forall i | i in users ensures users[i].username != username.value {
        assert users[i].username in Usernames(users);
      }
    }
  }

  /** Registering a name a second time is refused and changes nothing, so
      the table keeps exactly one user with that name. */
  lemma RegisterTwiceRefused(users: map<UserId, User>, nextUserId: nat,
                             username: string, password: string, hash1: string, hash2: string)
    requires UsersInvariant(users, nextUserId)
    requires RegisterSpec(users, nextUserId, Some(username), Some(password), hash1).reply.status == Created201
    ensures var first := RegisterSpec(users, nextUserId, Some(username), Some(password), hash1);
            var second := RegisterSpec(first.users, first.nextUserId, Some(username), Some(password), hash2);
            && second.reply == RegisterReply(BadRequest400, None)
            && second.users == first.users
            && (forall u :: u in second.users && second.users[u].username == username ==> u == nextUserId)
  {
    var first := RegisterSpec(users, nextUserId, Some(username), Some(password), hash1);
    assert first.users[nextUserId].username == username;
    assert username in Usernames(first.users);
    RegisterKeepsUsers(users, nextUserId, Some(username), Some(password), hash1);
  }

  datatype LoginReply = LoginReply(status: Status, user: Option<UserId>)

  /** The login decision; `checkPassword(hash, password)` is the password
      hash check. Token issuance is outside the model: a 200 names the user
      the token would be issued for. */
  function Login(users: map<UserId, User>, username: Option<string>, password: Option<string>,
                 checkPassword: (string, string) -> bool): (r: LoginReply)
    requires UniqueUsernames(users)
    ensures r.status in {Ok200, BadRequest400, Unauthorized401}
    ensures r.status == BadRequest400 <==> !Given(username) || !Given(password)
    ensures r.status == Ok200 <==>
              && Given(username) && Given(password)
              && exists u :: u in users && users[u].username == username.value
                                       && checkPassword(users[u].passwordHash, password.value)
    ensures r.user.Some? <==> r.status == Ok200
    ensures r.user.Some? ==> r.user.value in users && users[r.user.value].username == username.value
  {
    if !Given(username) || !Given(password) then
      LoginReply(BadRequest400, None)
    else
      match UserNamed(users, username.value)
      case None => LoginReply(Unauthorized401, None)
      case Some(u) =>
        if checkPassword(users[u].passwordHash, password.value) then LoginReply(Ok200, Some(u))
        else LoginReply(Unauthorized401, None)
  }

  /** An unknown username and a wrong password get the very same reply, so
      the reply does not tell which of the two was wrong. */
  lemma LoginFailuresAlike(users: map<UserId, User>, unknown: string, known: UserId, password: string,
                           checkPassword: (string, string) -> bool)
    requires UniqueUsernames(users)
    requires unknown != "" && password != ""
    requires unknown !in Usernames(users)
    requires known in users && users[known].username != ""
    requires !checkPassword(users[known].passwordHash, password)
    ensures Login(users, Some(unknown), Some(password), checkPassword)
         == Login(users, Some(users[known].username), Some(password), checkPassword)
         == LoginReply(Unauthorized401, None)
  {
    assert UserNamed(users, users[known].username) == Some(known);
  }

  datatype UserReply = UserReply(status: Status, user: Option<(UserId, string)>)

  /** The current-user lookup: the caller's id and username, or 404 when
      the id no longer names a user. */
  function CurrentUser(users: map<UserId, User>, caller: UserId): (r: UserReply)
    ensures r.status == Ok200 <==> caller in users
    ensures r.status != Ok200 ==> r == UserReply(NotFound404, None)
    ensures r.status == Ok200 ==> r.user.Some? && r.user.value.0 == caller && r.user.value.1 == users[caller].username
  {
    if caller in users then UserReply(Ok200, Some((caller, users[caller].username)))
    else UserReply(NotFound404, None)
  }
}
