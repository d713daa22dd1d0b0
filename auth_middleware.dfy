/**
 * The two guards in front of protected routes: isAuthenticated, which turns
 * the token cookie into `req.user`, and authorizeRoles, which lets a request
 * through only for the listed roles. Token verification is a parameter.
 */
module AuthMiddleware {
  import opened Wrappers
  import opened Ids
  import opened AuthController

  /** What a middleware does with the request: hand it on, answer with an error status, or throw. */
  datatype Next = Proceed | Reject(code: int) | Throw

  /** The parts of an Express request the guards read and write. */
  class Request {
    var token: Option<string>
    var user: Option<Account>

    constructor (token: Option<string>)
      ensures this.token == token && user.None?
    {
      this.token := token;
      user := None;
    }
  }

  /** User.findById(id): the account, or null when no record has that id. */
  function FindById(users: map<UserId, Account>, id: UserId): (r: Option<Account>)
    ensures r.Some? <==> id in users
    ensures r.Some? ==> r.value == users[id]
  {
    if id in users then Some(users[id]) else None
  }

  /** The outcome of isAuthenticated and the `req.user` it leaves behind. */
  datatype Outcome = Outcome(next: Next, user: Option<Account>)

  /**
   * isAuthenticated on a request carrying `token` and `current` as req.user.
   * `verify` is jwt.verify with the server key: the id in a genuine token,
   * None where it would throw.
   */
  function Authenticate(token: Option<string>, verify: string -> Option<UserId>,
                        users: map<UserId, Account>, current: Option<Account>): (o: Outcome)
    ensures !Present(token) ==> o == Outcome(Reject(401), current)
    ensures o.next == Proceed <==> Present(token) && verify(token.value).Some?
    ensures o.next != Proceed ==> o.user == current
    ensures o.next == Proceed ==> o.user == FindById(users, verify(token.value).value)
  {
    if !Present(token) then Outcome(Reject(401), current)
    else match verify(token.value)
      case None => Outcome(Throw, current)
      case Some(id) => Outcome(Proceed, FindById(users, id))
  }

  /** isAuthenticated: sets req.user as Authenticate says and reports whether the chain goes on. */
  method IsAuthenticated(req: Request, verify: string -> Option<UserId>, users: map<UserId, Account>)
    returns (n: Next)
    modifies req
    ensures req.token == old(req.token)
    ensures Outcome(n, req.user) == Authenticate(old(req.token), verify, users, old(req.user))
  {
    if !Present(req.token) {
      return Reject(401);
    }
    var decoded := verify(req.token.value);
    if decoded.None? {
      return Throw;
    }
    req.user := FindById(users, decoded.value);
    n := Proceed;
  }

  /**
   * authorizeRoles(...roles) as written: a present user with a listed role
   * passes and any other present user gets 403, but a null req.user throws
   * while the 403 message reads its role.
   */
  function AuthorizeRolesAsWritten(roles: seq<string>, user: Option<Account>): (n: Next)
    ensures user.None? ==> n == Throw
    ensures user.Some? ==> (n == Proceed <==> user.value.role in roles)
    ensures user.Some? && n != Proceed ==> n == Reject(403)
  {
    if user.None? then Throw
    else if user.value.role !in roles then Reject(403)
    else Proceed
  }

  /** authorizeRoles(...roles): only a present user with a listed role passes; everyone else gets 403. */
  function AuthorizeRoles(roles: seq<string>, user: Option<Account>): (n: Next)
    ensures n == Proceed <==> user.Some? && user.value.role in roles
    ensures n != Proceed ==> n == Reject(403)
  {
    if user.None? || user.value.role !in roles then Reject(403) else Proceed
  }

  /** The two versions differ only when there is no user. */
  lemma AuthorizeRolesAgreeOnUsers(roles: seq<string>, user: Option<Account>)
    ensures user.Some? ==> AuthorizeRolesAsWritten(roles, user) == AuthorizeRoles(roles, user)
    ensures user.None? ==> AuthorizeRolesAsWritten(roles, user) == Throw && AuthorizeRoles(roles, user) == Reject(403)
  {
  }

  /**
   * A genuine token whose account has since been deleted passes
   * isAuthenticated with req.user null, and the role check then throws
   * instead of answering 403.
   */
  lemma DeletedAccountTokenThrows(token: string, verify: string -> Option<UserId>,
                                  users: map<UserId, Account>, roles: seq<string>)
    requires token != "" && verify(token).Some? && verify(token).value !in users
    ensures var o := Authenticate(Some(token), verify, users, None);
      o.next == Proceed && AuthorizeRolesAsWritten(roles, o.user) == Throw
      && AuthorizeRoles(roles, o.user) == Reject(403)
  {
  }

  /**
   * The chain isAuthenticated, authorizeRoles(...roles) in front of the
   * administrator routes lets a request through exactly when its token is
   * genuine and names an existing account whose role is listed.
   */
  lemma RoleGateAdmitsExactly(token: Option<string>, verify: string -> Option<UserId>,
                              users: map<UserId, Account>, current: Option<Account>, roles: seq<string>)
    ensures var o := Authenticate(token, verify, users, current);
      (o.next == Proceed && AuthorizeRoles(roles, o.user) == Proceed)
      <==> (Present(token) && verify(token.value).Some? && verify(token.value).value in users
            && users[verify(token.value).value].role in roles)
  {
  }
}
