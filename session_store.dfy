/**
 * `SessionAuth`: an in-memory map from session id to user id, with create,
 * lookup and destroy. The fresh session id (a `uuid4` in the source) is an
 * argument of `CreateSession`.
 */
module SessionStore {
  import opened Wrappers
  import ApiAuth
  import Users

  /** Neither None nor empty: what `not x` rejects for a string argument. */
  predicate IsNonEmpty(s: Option<string>)
  {
    s.Some? && s.value != ""
  }

  /**
   * The base lookup `user_id_by_session_id.get(session_id)` behind the guard
   * on the id. The expiring layer reuses it with a different value type.
   */
  function Lookup<V>(m: map<string, V>, sessionId: Option<string>): (r: Option<V>)
    ensures r.Some? <==> IsNonEmpty(sessionId) && sessionId.value in m
    ensures r.Some? ==> r.value == m[sessionId.value]
  {
    if !IsNonEmpty(sessionId) then None
    else if sessionId.value in m then Some(m[sessionId.value])
    else None
  }

  class SessionAuth {
    var userIdBySessionId: map<string, string>
    /** The configured session cookie name, None when unset. */
    const sessionName: Option<string>

    /** Every stored user id is one `CreateSession` accepted. */
    ghost predicate Valid()
      reads this
    {
      forall sid :: sid in userIdBySessionId ==> userIdBySessionId[sid] != ""
    }

    constructor (sessionName: Option<string>)
      ensures this.sessionName == sessionName
      ensures userIdBySessionId == map[] && Valid()
    {
      this.sessionName := sessionName;
      userIdBySessionId := map[];
    }

    /** `create_session(user_id)`; `newId` is the fresh `uuid4` text. */
    method CreateSession(userId: Option<string>, newId: string) returns (sessionId: Option<string>)
      requires Valid()
      modifies this
      ensures Valid()
      ensures !IsNonEmpty(userId) ==> sessionId.None? && userIdBySessionId == old(userIdBySessionId)
      ensures IsNonEmpty(userId) ==>
        && sessionId == Some(newId)
        && userIdBySessionId == old(userIdBySessionId)[newId := userId.value]
    {
      if !IsNonEmpty(userId) {
        return None;
      }
      userIdBySessionId := userIdBySessionId[newId := userId.value];
      sessionId := Some(newId);
    }

    /** `user_id_for_session_id(session_id)`. */
    function UserIdForSessionId(sessionId: Option<string>): (r: Option<string>)
      reads this
      ensures r.Some? <==> IsNonEmpty(sessionId) && sessionId.value in userIdBySessionId
      ensures r.Some? ==> r.value == userIdBySessionId[sessionId.value]
    {
      Lookup(userIdBySessionId, sessionId)
    }

    /** `current_user(request)`: the user whose id the session cookie resolves to. */
    function CurrentUser(request: Option<ApiAuth.Request>, users: Users.UserTable): (r: Option<Users.User>)
      reads this
      ensures r.Some? ==>
        var sid := ApiAuth.SessionCookie(request, sessionName);
        IsNonEmpty(sid) && sid.value in userIdBySessionId && r.value.id == userIdBySessionId[sid.value]
      ensures ApiAuth.SessionCookie(request, sessionName).None? ==> r.None?
      ensures var u := UserIdForSessionId(ApiAuth.SessionCookie(request, sessionName));
        u.Some? && users.Loaded? && (exists v :: v in users.rows && v.id == u.value) ==> r.Some? && r.value.id == u.value
    {
      Users.Get(users, UserIdForSessionId(ApiAuth.SessionCookie(request, sessionName)))
    }

    /** `destroy_session(request)`: log out the session named by the cookie. */
    method DestroySession(request: Option<ApiAuth.Request>) returns (destroyed: bool)
      modifies this
      ensures destroyed <==> IsNonEmpty(old(UserIdForSessionId(ApiAuth.SessionCookie(request, sessionName))))
      ensures destroyed ==> userIdBySessionId == old(userIdBySessionId) - {ApiAuth.SessionCookie(request, sessionName).value}
      ensures !destroyed ==> userIdBySessionId == old(userIdBySessionId)
      ensures old(Valid()) ==> Valid()
    {
      if request.None? {
        return false;
      }
      var sessionId := ApiAuth.SessionCookie(request, sessionName);
      if !IsNonEmpty(sessionId) || !IsNonEmpty(UserIdForSessionId(sessionId)) {
        return false;
      }
      userIdBySessionId := userIdBySessionId - {sessionId.value};
      destroyed := true;
    }
  }

  /**
   * Log in, then log out twice with the same cookie: the first logout
   * succeeds, the second finds no session.
   */
  method LoginLogoutTwice(auth: SessionAuth, userId: string, newId: string, cookies: map<string, string>)
    returns (first: bool, second: bool)
    requires auth.Valid() && userId != "" && newId != ""
    requires auth.sessionName.Some? && cookies == map[auth.sessionName.value := newId]
    modifies auth
    ensures first && !second
    ensures newId !in auth.userIdBySessionId
  {
    var sid := auth.CreateSession(Some(userId), newId);
    var request := Some(ApiAuth.Request(map[], cookies));
    first := auth.DestroySession(request);
    second := auth.DestroySession(request);
  }
}
