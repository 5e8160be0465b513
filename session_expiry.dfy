/**
 * `SessionExpAuth`: the session map stores `{user_id, created_at}` and a
 * lookup treats a session older than `session_duration` seconds as absent.
 * Expiry is lazy: nothing is ever evicted. Clock readings are the integer
 * argument `now` (seconds).
 */
module SessionExpiry {
  import opened Wrappers
  import PyInt
  import ApiAuth
  import Users
  import SessionStore

  /** The dictionary `{'user_id': ..., 'created_at': ...}`; `.get` of a missing key is None. */
  datatype SessionDict = SessionDict(userId: Option<string>, createdAt: Option<int>)

  /** `int(getenv('SESSION_DURATION', 0))`, with 0 when that raises `ValueError`. */
  function SessionDuration(config: Option<string>): (d: int)
    ensures config.None? ==> d == 0
    ensures config.Some? && PyInt.Parse(config.value).None? ==> d == 0
    ensures config.Some? && PyInt.Parse(config.value).Some? ==> d == PyInt.Parse(config.value).value
  {
    match config
    case None => 0
    case Some(text) =>
      match PyInt.Parse(text)
      case None => 0
      case Some(n) => n
  }

  /** A configured number is read back as that number. */
  lemma ConfiguredDurationIsRead(n: int)
    ensures SessionDuration(Some(PyInt.Format(n))) == n
  {
    PyInt.ParseFormat(n);
  }

  /** A value `int` rejects leaves sessions without expiry. */
  lemma MalformedDurationIsZero()
    ensures SessionDuration(Some("1h")) == 0
    ensures SessionDuration(Some("")) == 0
  {
    assert PyInt.Strip("1h") == "1h";
    assert !PyInt.WellFormedDigits("1h") by { assert !PyInt.IsDigit("1h"[1]); }
  }

  /** True iff a session made at `createdAt` is past its lifetime at `now`. */
  predicate Expired(createdAt: int, duration: int, now: int)
  {
    createdAt + duration < now
  }

  /** `user_id_for_session_id(session_id)` of the expiring layer. */
  function ExpLookup(m: map<string, SessionDict>, duration: int, sessionId: Option<string>, now: int): (r: Option<string>)
    ensures r.Some? <==>
      && SessionStore.IsNonEmpty(sessionId) && sessionId.value in m
      && m[sessionId.value].userId.Some?
      && (duration <= 0 ||
          (m[sessionId.value].createdAt.Some? && !Expired(m[sessionId.value].createdAt.value, duration, now)))
    ensures r.Some? ==> r == m[sessionId.value].userId
  {
    match SessionStore.Lookup(m, sessionId)
    case None => None
    case Some(session) =>
      if duration <= 0 then session.userId
      else if session.createdAt.None? then None
      else if Expired(session.createdAt.value, duration, now) then None
      else session.userId
  }

  /** Without a positive duration a session never expires, whatever its age. */
  lemma NoDurationNeverExpires(m: map<string, SessionDict>, duration: int, sid: string, now: int)
    requires duration <= 0 && sid != "" && sid in m
    ensures ExpLookup(m, duration, Some(sid), now) == m[sid].userId
  {
  }

  /**
   * With duration D > 0, a session created at t0 resolves exactly while
   * now <= t0 + D: still valid at t0 + D, gone at t0 + D + 1.
   */
  lemma ValidUntilDeadline(m: map<string, SessionDict>, duration: int, sid: string, userId: string, t0: int, now: int)
    requires duration > 0 && sid != "" && sid in m && m[sid] == SessionDict(Some(userId), Some(t0))
    ensures ExpLookup(m, duration, Some(sid), now) == (if now <= t0 + duration then Some(userId) else None)
    ensures ExpLookup(m, duration, Some(sid), t0 + duration) == Some(userId)
    ensures ExpLookup(m, duration, Some(sid), t0 + duration + 1) == None
  {
  }

  /** With a positive duration, a record without `created_at` never resolves. */
  lemma MissingCreationTimeIsAbsent(m: map<string, SessionDict>, duration: int, sid: string, now: int)
    requires duration > 0 && sid != "" && sid in m && m[sid].createdAt.None?
    ensures ExpLookup(m, duration, Some(sid), now) == None
  {
  }

  class SessionExpAuth {
    var userIdBySessionId: map<string, SessionDict>
    const sessionDuration: int
    const sessionName: Option<string>

    /** Every record was written by `CreateSession`: a non-empty user id and a creation time. */
    ghost predicate Valid()
      reads this
    {
      forall sid :: sid in userIdBySessionId ==>
        SessionStore.IsNonEmpty(userIdBySessionId[sid].userId) && userIdBySessionId[sid].createdAt.Some?
    }

    /** `__init__`; `durationConfig` is the `SESSION_DURATION` setting, None when unset. */
    constructor (durationConfig: Option<string>, sessionName: Option<string>)
      ensures sessionDuration == SessionDuration(durationConfig) && this.sessionName == sessionName
      ensures userIdBySessionId == map[] && Valid()
    {
      sessionDuration := SessionDuration(durationConfig);
      this.sessionName := sessionName;
      userIdBySessionId := map[];
    }

    /** `create_session(user_id)` at time `now`, with fresh id `newId`. */
    method CreateSession(userId: Option<string>, newId: string, now: int) returns (sessionId: Option<string>)
      requires Valid()
      modifies this
      ensures Valid()
      ensures !SessionStore.IsNonEmpty(userId) ==> sessionId.None? && userIdBySessionId == old(userIdBySessionId)
      ensures SessionStore.IsNonEmpty(userId) ==>
        && sessionId == Some(newId)
        && userIdBySessionId == old(userIdBySessionId)[newId := SessionDict(userId, Some(now))]
    {
      if !SessionStore.IsNonEmpty(userId) {
        return None;
      }
      userIdBySessionId := userIdBySessionId[newId := SessionDict(userId, Some(now))];
      sessionId := Some(newId);
    }

    /** `user_id_for_session_id(session_id)` at time `now`; it reads the map and changes nothing. */
    function UserIdForSessionId(sessionId: Option<string>, now: int): (r: Option<string>)
      reads this
      ensures r.Some? ==> SessionStore.IsNonEmpty(sessionId) && sessionId.value in userIdBySessionId
      ensures r.Some? ==> r == userIdBySessionId[sessionId.value].userId
      ensures Valid() && SessionStore.IsNonEmpty(sessionId) && sessionId.value in userIdBySessionId ==>
        var session := userIdBySessionId[sessionId.value];
        (sessionDuration <= 0 || !Expired(session.createdAt.value, sessionDuration, now)) ==> r == session.userId
      ensures r == ExpLookup(userIdBySessionId, sessionDuration, sessionId, now)
    {
      ExpLookup(userIdBySessionId, sessionDuration, sessionId, now)
    }

    /** The inherited `current_user`, resolved through the expiring lookup. */
    function CurrentUser(request: Option<ApiAuth.Request>, users: Users.UserTable, now: int): (r: Option<Users.User>)
      reads this
      ensures r.Some? ==> UserIdForSessionId(ApiAuth.SessionCookie(request, sessionName), now) == Some(r.value.id)
      ensures var u := UserIdForSessionId(ApiAuth.SessionCookie(request, sessionName), now);
        u.Some? && users.Loaded? && (exists v :: v in users.rows && v.id == u.value) ==> r.Some? && r.value.id == u.value
    {
      Users.Get(users, UserIdForSessionId(ApiAuth.SessionCookie(request, sessionName), now))
    }

    /**
     * The inherited `destroy_session`, which calls the expiring lookup: an
     * expired session cannot be destroyed and stays in the map.
     */
    method DestroySession(request: Option<ApiAuth.Request>, now: int) returns (destroyed: bool)
      modifies this
      ensures destroyed <==> SessionStore.IsNonEmpty(old(UserIdForSessionId(ApiAuth.SessionCookie(request, sessionName), now)))
      ensures destroyed ==> userIdBySessionId == old(userIdBySessionId) - {ApiAuth.SessionCookie(request, sessionName).value}
      ensures !destroyed ==> userIdBySessionId == old(userIdBySessionId)
      ensures old(Valid()) ==> Valid()
    {
      if request.None? {
        return false;
      }
      var sessionId := ApiAuth.SessionCookie(request, sessionName);
      if !SessionStore.IsNonEmpty(sessionId) || !SessionStore.IsNonEmpty(UserIdForSessionId(sessionId, now)) {
        return false;
      }
      userIdBySessionId := userIdBySessionId - {sessionId.value};
      destroyed := true;
    }
  }

  /**
   * A session created at `t0` with duration D > 0 and presented at
   * `t0 + D + 1` is reported absent, cannot be logged out, and stays stored.
   */
  method ExpiredLogout(auth: SessionExpAuth, userId: string, newId: string, t0: int, cookies: map<string, string>)
    returns (user: Option<string>, destroyed: bool)
    requires auth.Valid() && userId != "" && newId != "" && auth.sessionDuration > 0
    requires auth.sessionName.Some? && cookies == map[auth.sessionName.value := newId]
    modifies auth
    ensures user.None? && !destroyed
    ensures newId in auth.userIdBySessionId && auth.userIdBySessionId[newId] == SessionDict(Some(userId), Some(t0))
  {
    var sid := auth.CreateSession(Some(userId), newId, t0);
    var later := t0 + auth.sessionDuration + 1;
    var request := Some(ApiAuth.Request(map[], cookies));
    user := auth.UserIdForSessionId(Some(newId), later);
    destroyed := auth.DestroySession(request, later);
  }
}
