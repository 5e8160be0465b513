/**
 * `SessionDBAuth`: sessions are `UserSession` records in a record store,
 * modelled as an in-memory sequence in insertion order. The store's file
 * snapshot (`save_to_file`, `load_from_file`) is not part of this model.
 * `create_session` also goes through the expiring layer, so the inherited
 * in-memory map is written too, though this layer never reads it.
 */
module SessionDb {
  import opened Wrappers
  import ApiAuth
  import Users
  import SessionStore
  import SessionExpiry

  /** A `UserSession` row; `createdAt` is the time the record was made. */
  datatype UserSession = UserSession(userId: string, sessionId: string, createdAt: int)

  /** The index of the first record with session id `sid` (`UserSession.search(...)[0]`). */
  function FirstWithSessionId(records: seq<UserSession>, sid: string): (r: Option<nat>)
    ensures r.Some? ==> r.value < |records| && records[r.value].sessionId == sid
    ensures r.Some? ==> forall j :: 0 <= j < r.value ==> records[j].sessionId != sid
    ensures r.None? <==> forall j :: 0 <= j < |records| ==> records[j].sessionId != sid
  {
    if records == [] then None
    else if records[0].sessionId == sid then Some(0)
    else match FirstWithSessionId(records[1..], sid)
      case None => None
      case Some(k) => Some(k + 1)
  }

  /**
   * `user_id_for_session_id(session_id)` of this layer. Unlike the expiring
   * layer there is no "duration <= 0 never expires" branch.
   */
  function DbLookup(records: seq<UserSession>, duration: int, sessionId: Option<string>, now: int): (r: Option<string>)
    ensures r.Some? <==>
      && SessionStore.IsNonEmpty(sessionId)
      && FirstWithSessionId(records, sessionId.value).Some?
      && !SessionExpiry.Expired(records[FirstWithSessionId(records, sessionId.value).value].createdAt, duration, now)
    ensures r.Some? ==> r.value == records[FirstWithSessionId(records, sessionId.value).value].userId
  {
    if !SessionStore.IsNonEmpty(sessionId) then None
    else match FirstWithSessionId(records, sessionId.value)
      case None => None
      case Some(k) =>
        if SessionExpiry.Expired(records[k].createdAt, duration, now) then None
        else Some(records[k].userId)
  }

  /**
   * With the default duration 0, a record is valid only while `now` has not
   * passed its creation time: one second later it is absent.
   */
  lemma ZeroDurationExpiresAtOnce(records: seq<UserSession>, sid: string, now: int)
    requires sid != "" && FirstWithSessionId(records, sid).Some?
    requires now > records[FirstWithSessionId(records, sid).value].createdAt
    ensures DbLookup(records, 0, Some(sid), now) == None
  {
  }

  /** Records other than the first with the id do not influence the lookup. */
  lemma LookupUsesFirstRecord(records: seq<UserSession>, extra: UserSession, duration: int, sid: string, now: int)
    requires sid != "" && FirstWithSessionId(records, sid).Some?
    ensures DbLookup(records + [extra], duration, Some(sid), now) == DbLookup(records, duration, Some(sid), now)
  {
    var k := FirstWithSessionId(records, sid).value;
    FirstIsStableUnderAppend(records, extra, sid);
    assert (records + [extra])[k] == records[k];
  }

  /** Appending a record does not move the first record with an id that is already present. */
  lemma {:induction false} FirstIsStableUnderAppend(records: seq<UserSession>, extra: UserSession, sid: string)
    requires FirstWithSessionId(records, sid).Some?
    ensures FirstWithSessionId(records + [extra], sid) == FirstWithSessionId(records, sid)
  {
    if records[0].sessionId != sid {
      assert (records + [extra])[1..] == records[1..] + [extra];
      FirstIsStableUnderAppend(records[1..], extra, sid);
    }
  }

  /** A record appended under an id no earlier record has is the first with that id. */
  lemma {:induction false} FreshRecordIsFirst(records: seq<UserSession>, extra: UserSession)
    requires forall j :: 0 <= j < |records| ==> records[j].sessionId != extra.sessionId
    ensures FirstWithSessionId(records + [extra], extra.sessionId) == Some(|records|)
  {
    if records != [] {
      assert (records + [extra])[1..] == records[1..] + [extra];
      FreshRecordIsFirst(records[1..], extra);
    }
  }

  class SessionDBAuth {
    /** The map inherited from the expiring layer, written by `CreateSession` only. */
    var userIdBySessionId: map<string, SessionExpiry.SessionDict>
    var records: seq<UserSession>
    const sessionDuration: int
    const sessionName: Option<string>

    /** Every record holds a user id that `CreateSession` accepted. */
    ghost predicate Valid()
      reads this
    {
      forall i :: 0 <= i < |records| ==> records[i].userId != ""
    }

    constructor (durationConfig: Option<string>, sessionName: Option<string>)
      ensures sessionDuration == SessionExpiry.SessionDuration(durationConfig) && this.sessionName == sessionName
      ensures userIdBySessionId == map[] && records == [] && Valid()
    {
      sessionDuration := SessionExpiry.SessionDuration(durationConfig);
      this.sessionName := sessionName;
      userIdBySessionId := map[];
      records := [];
    }

    /** `create_session(user_id)` at time `now`: one new record with the fresh id `newId`. */
    method CreateSession(userId: Option<string>, newId: string, now: int) returns (sessionId: Option<string>)
      requires Valid()
      modifies this
      ensures Valid()
      ensures !SessionStore.IsNonEmpty(userId) ==>
        sessionId.None? && userIdBySessionId == old(userIdBySessionId) && records == old(records)
      ensures SessionStore.IsNonEmpty(userId) ==>
        && sessionId == Some(newId)
        && userIdBySessionId == old(userIdBySessionId)[newId := SessionExpiry.SessionDict(userId, Some(now))]
        && records == old(records) + [UserSession(userId.value, newId, now)]
    {
      if !SessionStore.IsNonEmpty(userId) {
        return None;
      }
      userIdBySessionId := userIdBySessionId[newId := SessionExpiry.SessionDict(userId, Some(now))];
      records := records + [UserSession(userId.value, newId, now)];
      sessionId := Some(newId);
    }

    /** `user_id_for_session_id(session_id)` at time `now`. */
    function UserIdForSessionId(sessionId: Option<string>, now: int): (r: Option<string>)
      reads this
      ensures r.Some? ==> sessionId.Some? && exists i :: 0 <= i < |records| && records[i].sessionId == sessionId.value && records[i].userId == r.value
      ensures SessionStore.IsNonEmpty(sessionId) && FirstWithSessionId(records, sessionId.value).Some? ==>
        var session := records[FirstWithSessionId(records, sessionId.value).value];
        !SessionExpiry.Expired(session.createdAt, sessionDuration, now) ==> r == Some(session.userId)
      ensures r == DbLookup(records, sessionDuration, sessionId, now)
    {
      DbLookup(records, sessionDuration, sessionId, now)
    }

    /** The inherited `current_user`, resolved through the record store. */
    function CurrentUser(request: Option<ApiAuth.Request>, users: Users.UserTable, now: int): (r: Option<Users.User>)
      reads this
      ensures r.Some? ==> UserIdForSessionId(ApiAuth.SessionCookie(request, sessionName), now) == Some(r.value.id)
      ensures var u := UserIdForSessionId(ApiAuth.SessionCookie(request, sessionName), now);
        u.Some? && users.Loaded? && (exists v :: v in users.rows && v.id == u.value) ==> r.Some? && r.value.id == u.value
    {
      Users.Get(users, UserIdForSessionId(ApiAuth.SessionCookie(request, sessionName), now))
    }

    /** `destroy_session(request)` at time `now`: removes the first record of a valid session. */
    method DestroySession(request: Option<ApiAuth.Request>, now: int) returns (destroyed: bool)
      modifies this
      ensures destroyed <==> SessionStore.IsNonEmpty(old(UserIdForSessionId(ApiAuth.SessionCookie(request, sessionName), now)))
      ensures destroyed ==>
        var k := FirstWithSessionId(old(records), ApiAuth.SessionCookie(request, sessionName).value).value;
        records == old(records)[..k] + old(records)[k + 1..]
      ensures !destroyed ==> records == old(records)
      ensures userIdBySessionId == old(userIdBySessionId)
      ensures old(Valid()) ==> Valid()
    {
      if request.None? {
        return false;
      }
      var sessionId := ApiAuth.SessionCookie(request, sessionName);
      if !SessionStore.IsNonEmpty(sessionId) || !SessionStore.IsNonEmpty(UserIdForSessionId(sessionId, now)) {
        return false;
      }
      var found := FirstWithSessionId(records, sessionId.value);
      if found.None? {
        destroyed := false;
      } else {
        var k := found.value;
        records := records[..k] + records[k + 1..];
        destroyed := true;
      }
    }
  }

  /**
   * Log in, then log out twice with the same cookie within the session's
   * lifetime: the first logout removes the record, the second finds none.
   */
  method LoginLogoutTwice(auth: SessionDBAuth, userId: string, newId: string, now: int, cookies: map<string, string>)
    returns (first: bool, second: bool)
    requires auth.Valid() && userId != "" && newId != "" && auth.sessionDuration >= 0
    requires forall i :: 0 <= i < |auth.records| ==> auth.records[i].sessionId != newId
    requires auth.sessionName.Some? && cookies == map[auth.sessionName.value := newId]
    modifies auth
    ensures first && !second
  {
    var sid := auth.CreateSession(Some(userId), newId, now);
    var request := Some(ApiAuth.Request(map[], cookies));
    ghost var before := auth.records;
    FreshRecordIsFirst(before[..|before| - 1], before[|before| - 1]);
    assert before == before[..|before| - 1] + [before[|before| - 1]];
    first := auth.DestroySession(request, now);
    assert auth.records == before[..|before| - 1];
    assert FirstWithSessionId(auth.records, newId).None?;
    second := auth.DestroySession(request, now);
  }
}
