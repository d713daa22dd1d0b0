/**
 * The client's authentication state: five reducers over the session fields,
 * with the token and the user mirrored in browser storage so that a reload
 * restores the session. A user object is a map from field name to value.
 */
module AuthSlice {
  import opened Wrappers

  type UserObject = map<string, string>

  /** The session fields a reload rebuilds from storage. */
  datatype Session = Session(user: Option<UserObject>, token: Option<string>, isAuthenticated: bool)

  /**
   * The initial state read from storage: the stored user, the stored token
   * unless it is empty, and isAuthenticated exactly when the token is kept.
   */
  function Restore(storedToken: Option<string>, storedUser: Option<UserObject>): (s: Session)
    ensures s.user == storedUser
    ensures s.token.Some? <==> storedToken.Some? && storedToken.value != ""
    ensures s.token.Some? ==> s.token == storedToken
    ensures s.isAuthenticated <==> s.token.Some?
  {
    var token := if storedToken.Some? && storedToken.value != "" then storedToken else None;
    Session(storedUser, token, token.Some?)
  }

  /** The session is signed in exactly while it holds a token. */
  predicate Consistent(s: Session) {
    s.isAuthenticated <==> s.token.Some?
  }

  /** Storage mirrors the session: the same user, and the same token unless the stored one is empty. */
  predicate Mirrors(s: Session, storedToken: Option<string>, storedUser: Option<UserObject>) {
    storedUser == s.user && (storedToken == s.token || (s.token.None? && storedToken == Some("")))
  }

  /** The state a reload builds is consistent and mirrors the storage it came from. */
  lemma RestoreMirrors(storedToken: Option<string>, storedUser: Option<UserObject>)
    ensures Consistent(Restore(storedToken, storedUser))
    ensures Mirrors(Restore(storedToken, storedUser), storedToken, storedUser)
  {
  }

  /** A reload gives back a mirrored session, unless that session holds the empty token. */
  lemma ReloadRestoresSession(s: Session, storedToken: Option<string>, storedUser: Option<UserObject>)
    requires Consistent(s) && Mirrors(s, storedToken, storedUser)
    ensures s.token != Some("") ==> Restore(storedToken, storedUser) == s
    ensures s.token == Some("") ==> Restore(storedToken, storedUser) == Session(s.user, None, false)
  {
  }

  /** { ...user, ...payload }: the payload's fields over the current user's (none when there is no user). */
  function Merge(user: Option<UserObject>, payload: UserObject): (m: UserObject)
    ensures m.Keys == payload.Keys + (if user.Some? then user.value.Keys else {})
    ensures forall k :: k in payload ==> m[k] == payload[k]
    ensures user.Some? ==> forall k :: k in user.value && k !in payload ==> m[k] == user.value[k]
  {
    if user.Some? then user.value + payload else payload
  }

  /** selectUserRole: the user's role, or none when there is no user or it has no role. */
  function SelectUserRole(user: Option<UserObject>): (r: Option<string>)
    ensures r.Some? <==> user.Some? && "role" in user.value
    ensures r.Some? ==> r.value == user.value["role"]
  {
    if user.Some? && "role" in user.value then Some(user.value["role"]) else None
  }

  /** After updateUser the role is the payload's when it carries one, and unchanged otherwise. */
  lemma RoleAfterMerge(user: Option<UserObject>, payload: UserObject)
    ensures SelectUserRole(Some(Merge(user, payload)))
         == if "role" in payload then Some(payload["role"]) else SelectUserRole(user)
  {
  }

  /** The auth slice of the store, with the two storage keys it writes. */
  class AuthState {
    var user: Option<UserObject>
    var token: Option<string>
    var isAuthenticated: bool
    var loading: bool
    var error: Option<string>
    var storedToken: Option<string>
    var storedUser: Option<UserObject>

    function Current(): Session
      reads this
    {
      Session(user, token, isAuthenticated)
    }

    ghost predicate Valid()
      reads this
    {
      Consistent(Current()) && Mirrors(Current(), storedToken, storedUser)
    }

    /** initialState: the session restored from storage, not loading, no error. */
    constructor (storedToken: Option<string>, storedUser: Option<UserObject>)
      ensures Valid()
      ensures Current() == Restore(storedToken, storedUser)
      ensures !loading && error.None?
      ensures this.storedToken == storedToken && this.storedUser == storedUser
    {
      var s := Restore(storedToken, storedUser);
      user, token, isAuthenticated := s.user, s.token, s.isAuthenticated;
      loading, error := false, None;
      this.storedToken, this.storedUser := storedToken, storedUser;
    }

    /** loginStart: loading, error cleared, nothing else touched. */
    method LoginStart()
      requires Valid()
      modifies this
      ensures Valid()
      ensures loading && error.None?
      ensures Current() == old(Current())
      ensures storedToken == old(storedToken) && storedUser == old(storedUser)
    {
      loading, error := true, None;
    }

    /** loginSuccess: the payload's user and token become the session and are persisted; the error is left as it was. */
    method LoginSuccess(payloadUser: UserObject, payloadToken: string)
      requires Valid()
      modifies this
      ensures Valid()
      ensures Current() == Session(Some(payloadUser), Some(payloadToken), true)
      ensures !loading && error == old(error)
      ensures storedToken == Some(payloadToken) && storedUser == Some(payloadUser)
    {
      loading, isAuthenticated := false, true;
      user, token := Some(payloadUser), Some(payloadToken);
      storedToken, storedUser := Some(payloadToken), Some(payloadUser);
    }

    /** loginFailure: records the error and signs out, clearing storage. */
    method LoginFailure(payload: string)
      requires Valid()
      modifies this
      ensures Valid()
      ensures Current() == Session(None, None, false)
      ensures !loading && error == Some(payload)
      ensures storedToken.None? && storedUser.None?
    {
      loading, error := false, Some(payload);
      isAuthenticated, user, token := false, None, None;
      storedToken, storedUser := None, None;
    }

    /** logout: signs out, clears the error and the loading flag, and clears storage. */
    method Logout()
      requires Valid()
      modifies this
      ensures Valid()
      ensures Current() == Session(None, None, false)
      ensures !loading && error.None?
      ensures storedToken.None? && storedUser.None?
    {
      isAuthenticated, user, token, error, loading := false, None, None, None, false;
      storedToken, storedUser := None, None;
    }

    /** updateUser: merges the payload over the user and persists the result; token and flags are untouched. */
    method UpdateUser(payload: UserObject)
      requires Valid()
      modifies this
      ensures Valid()
      ensures user == Some(Merge(old(user), payload)) && storedUser == user
      ensures token == old(token) && isAuthenticated == old(isAuthenticated)
      ensures loading == old(loading) && error == old(error) && storedToken == old(storedToken)
    {
      user := Some(Merge(user, payload));
      storedUser := user;
    }
  }
}
