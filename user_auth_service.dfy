/**
 * The user-authentication service `Auth` over its `users` table: register,
 * log in, session set and clear, and password reset by single-use token.
 * The table (`DB`) is an in-memory sequence of rows in insertion order; a
 * new row gets the next id (1, 2, ...), as an auto-increment key does on a
 * table nothing is deleted from. Fresh ids and tokens (`uuid4`) and hash
 * salts are arguments.
 */
module UserAuthService {
  import opened Wrappers
  import Credentials

  /** A row of the `users` table. */
  datatype UserRow = UserRow(
    id: int,
    email: string,
    hashedPassword: Credentials.Digest,
    sessionId: Option<string>,
    resetToken: Option<string>)

  /**
   * The keyword argument given to `find_user_by`. A reset-token filter may be
   * None, which selects the rows holding no token (`reset_token IS NULL`).
   */
  datatype Filter = ByEmail(email: string) | BySessionId(sessionId: string) | ByResetToken(token: Option<string>)

  /** The exceptions the service raises. */
  datatype AuthError = ValueError | NoResultFound

  predicate Matches(row: UserRow, f: Filter)
  {
    match f
    case ByEmail(e) => row.email == e
    case BySessionId(s) => row.sessionId == Some(s)
    case ByResetToken(t) => row.resetToken == t
  }

  /** `DB.find_user_by(**f)`: the index of the first matching row, None for `NoResultFound`. */
  function FindUserBy(rows: seq<UserRow>, f: Filter): (r: Option<nat>)
    ensures r.Some? ==> r.value < |rows| && Matches(rows[r.value], f)
    ensures r.Some? ==> forall j :: 0 <= j < r.value ==> !Matches(rows[j], f)
    ensures r.None? <==> forall j :: 0 <= j < |rows| ==> !Matches(rows[j], f)
  {
    if rows == [] then None
    else if Matches(rows[0], f) then Some(0)
    else match FindUserBy(rows[1..], f)
      case None => None
      case Some(k) => Some(k + 1)
  }

  /** Two tables whose rows match `f` at the same positions give the same first match. */
  lemma {:induction false} SameMatchesSameFind(rows: seq<UserRow>, rows': seq<UserRow>, f: Filter)
    requires |rows| == |rows'|
    requires forall j :: 0 <= j < |rows| ==> (Matches(rows[j], f) <==> Matches(rows'[j], f))
    ensures FindUserBy(rows, f) == FindUserBy(rows', f)
  {
    if rows != [] {
      SameMatchesSameFind(rows[1..], rows'[1..], f);
    }
  }

  /** `valid_login(email, password)` on a table: the first row with that email accepts the password. */
  predicate ValidLoginOn(rows: seq<UserRow>, email: string, password: string)
    ensures ValidLoginOn(rows, email, password) <==>
      exists k :: 0 <= k < |rows| && rows[k].email == email && Credentials.IsValid(rows[k].hashedPassword, password)
        && forall j :: 0 <= j < k ==> rows[j].email != email
  {
    match FindUserBy(rows, ByEmail(email))
    case None => false
    case Some(k) => Credentials.IsValid(rows[k].hashedPassword, password)
  }

  /** A row added under a new email is found by that email, and finds nothing else's. */
  lemma {:induction false} AddedRowIsFound(rows: seq<UserRow>, row: UserRow, f: Filter)
    requires Matches(row, f) && FindUserBy(rows, f).None?
    ensures FindUserBy(rows + [row], f) == Some(|rows|)
  {
    if rows != [] {
      assert (rows + [row])[1..] == rows[1..] + [row];
      AddedRowIsFound(rows[1..], row, f);
    }
  }

  /** After registering `email` with `password`, that password and only it logs in. */
  lemma RegisteredUserLogsIn(rows: seq<UserRow>, email: string, password: string, other: string, salt: nat)
    requires FindUserBy(rows, ByEmail(email)).None?
    ensures var rows' := rows + [UserRow(|rows| + 1, email, Credentials.HashPassword(password, salt), None, None)];
      ValidLoginOn(rows', email, password) && (ValidLoginOn(rows', email, other) <==> other == password)
  {
    var row := UserRow(|rows| + 1, email, Credentials.HashPassword(password, salt), None, None);
    AddedRowIsFound(rows, row, ByEmail(email));
  }

  /**
   * Consuming a reset token held by one row only leaves no row holding it:
   * the same token cannot reset a password twice.
   */
  lemma ResetTokenIsSingleUse(rows: seq<UserRow>, token: Option<string>, hashed: Credentials.Digest)
    requires token.Some?
    requires FindUserBy(rows, ByResetToken(token)).Some?
    requires forall i, j :: 0 <= i < j < |rows| ==> !(Matches(rows[i], ByResetToken(token)) && Matches(rows[j], ByResetToken(token)))
    ensures var k := FindUserBy(rows, ByResetToken(token)).value;
      FindUserBy(rows[k := rows[k].(hashedPassword := hashed, resetToken := None)], ByResetToken(token)).None?
  {
    var k := FindUserBy(rows, ByResetToken(token)).value;
    var rows' := rows[k := rows[k].(hashedPassword := hashed, resetToken := None)];
    forall j | 0 <= j < |rows'| ensures !Matches(rows'[j], ByResetToken(token)) {
      if j < k {
      } else if j > k {
        assert !(Matches(rows[k], ByResetToken(token)) && Matches(rows[j], ByResetToken(token)));
      }
    }
  }

  class Auth {
    var users: seq<UserRow>

    /** Ids are the positions 1, 2, ...; no two rows share an email. */
    ghost predicate Valid()
      reads this
    {
      && (forall i :: 0 <= i < |users| ==> users[i].id == i + 1)
      && (forall i, j :: 0 <= i < j < |users| ==> users[i].email != users[j].email)
    }

    constructor ()
      ensures users == [] && Valid()
    {
      users := [];
    }

    /** `register_user(email, password)`, hashing with salt `salt`. */
    method RegisterUser(email: string, password: string, salt: nat) returns (r: Result<UserRow, AuthError>)
      requires Valid()
      modifies this
      ensures Valid()
      ensures FindUserBy(old(users), ByEmail(email)).Some? ==> r == Failure(ValueError) && users == old(users)
      ensures FindUserBy(old(users), ByEmail(email)).None? ==>
        && r == Success(UserRow(|old(users)| + 1, email, Credentials.HashPassword(password, salt), None, None))
        && users == old(users) + [r.value]
    {
      var existing := FindUserBy(users, ByEmail(email));
      if existing.Some? {
        return Failure(ValueError);
      }
      var row := UserRow(|users| + 1, email, Credentials.HashPassword(password, salt), None, None);
      users := users + [row];
      r := Success(row);
    }

    /** `valid_login(email, password)`. */
    predicate ValidLogin(email: string, password: string)
      reads this
      ensures (forall j :: 0 <= j < |users| ==> users[j].email != email) ==> !ValidLogin(email, password)
      ensures ValidLogin(email, password) ==>
        exists k :: 0 <= k < |users| && users[k].email == email && Credentials.IsValid(users[k].hashedPassword, password)
      ensures Valid() ==> (ValidLogin(email, password) <==>
        exists k :: 0 <= k < |users| && users[k].email == email && Credentials.IsValid(users[k].hashedPassword, password))
    {
      ValidLoginOn(users, email, password)
    }

    /** `create_session(email)` with the fresh id `newId`. */
    method CreateSession(email: string, newId: string) returns (sessionId: Option<string>)
      requires Valid()
      modifies this
      ensures Valid()
      ensures FindUserBy(old(users), ByEmail(email)).None? ==> sessionId.None? && users == old(users)
      ensures FindUserBy(old(users), ByEmail(email)).Some? ==>
        var k := FindUserBy(old(users), ByEmail(email)).value;
        sessionId == Some(newId) && users == old(users)[k := old(users)[k].(sessionId := Some(newId))]
    {
      var found := FindUserBy(users, ByEmail(email));
      if found.None? {
        return None;
      }
      var k := found.value;
      users := users[k := users[k].(sessionId := Some(newId))];
      sessionId := Some(newId);
    }

    /** `get_user_from_session_id(session_id)`: the first user holding that session. */
    function GetUserFromSessionId(sessionId: Option<string>): (r: Option<UserRow>)
      reads this
      ensures sessionId.None? || sessionId == Some("") ==> r.None?
      ensures r.Some? ==> r.value in users && r.value.sessionId == sessionId
      ensures r.Some? ==>
        exists k :: 0 <= k < |users| && users[k] == r.value && forall j :: 0 <= j < k ==> users[j].sessionId != sessionId
      ensures r.None? && sessionId.Some? && sessionId.value != "" ==>
        forall j :: 0 <= j < |users| ==> users[j].sessionId != sessionId
    {
      if sessionId.None? || sessionId.value == "" then None
      else match FindUserBy(users, BySessionId(sessionId.value))
        case None => None
        case Some(k) => Some(users[k])
    }

    /**
     * `destroy_session(user_id)`: clear that user's session. Nothing happens
     * for a falsy id; `update_user` on an unknown id raises `NoResultFound`.
     */
    method DestroySession(userId: Option<int>) returns (r: Result<(), AuthError>)
      requires Valid()
      modifies this
      ensures Valid()
      ensures userId.None? || userId == Some(0) ==> r.Success? && users == old(users)
      ensures userId.Some? && 1 <= userId.value <= |old(users)| ==>
        var k := userId.value - 1;
        r.Success? && users == old(users)[k := old(users)[k].(sessionId := None)]
      ensures userId.Some? && userId.value != 0 && !(1 <= userId.value <= |old(users)|) ==>
        r == Failure(NoResultFound) && users == old(users)
    {
      if userId.None? || userId.value == 0 {
        return Success(());
      }
      if !(1 <= userId.value <= |users|) {
        return Failure(NoResultFound);
      }
      var k := userId.value - 1;
      users := users[k := users[k].(sessionId := None)];
      r := Success(());
    }

    /** `get_reset_password_token(email)` with the fresh token `newToken`. */
    method GetResetPasswordToken(email: string, newToken: string) returns (r: Result<string, AuthError>)
      requires Valid()
      modifies this
      ensures Valid()
      ensures FindUserBy(old(users), ByEmail(email)).None? ==> r == Failure(ValueError) && users == old(users)
      ensures FindUserBy(old(users), ByEmail(email)).Some? ==>
        var k := FindUserBy(old(users), ByEmail(email)).value;
        r == Success(newToken) && users == old(users)[k := old(users)[k].(resetToken := Some(newToken))]
    {
      var found := FindUserBy(users, ByEmail(email));
      if found.None? {
        return Failure(ValueError);
      }
      var k := found.value;
      users := users[k := users[k].(resetToken := Some(newToken))];
      r := Success(newToken);
    }

    /**
     * `update_password(reset_token, password)`, hashing with salt `salt`. A
     * None token is not rejected: it selects the first row that holds no
     * token, and that user's password is overwritten.
     */
    method UpdatePassword(resetToken: Option<string>, password: string, salt: nat) returns (r: Result<(), AuthError>)
      requires Valid()
      modifies this
      ensures Valid()
      ensures FindUserBy(old(users), ByResetToken(resetToken)).None? ==> r == Failure(ValueError) && users == old(users)
      ensures FindUserBy(old(users), ByResetToken(resetToken)).Some? ==>
        var k := FindUserBy(old(users), ByResetToken(resetToken)).value;
        && r.Success?
        && users == old(users)[k := old(users)[k].(hashedPassword := Credentials.HashPassword(password, salt), resetToken := None)]
    {
      var found := FindUserBy(users, ByResetToken(resetToken));
      if found.None? {
        return Failure(ValueError);
      }
      var k := found.value;
      users := users[k := users[k].(hashedPassword := Credentials.HashPassword(password, salt), resetToken := None)];
      r := Success(());
    }
  }

  /**
   * The password-reset flow for a registered user: a fresh token resets the
   * password once, the new password then logs in, and the token is spent.
   */
  method ResetPasswordFlow(auth: Auth, email: string, token: string, newPassword: string, salt: nat)
    returns (issued: Result<string, AuthError>, first: Result<(), AuthError>, second: Result<(), AuthError>)
    requires auth.Valid() && FindUserBy(auth.users, ByEmail(email)).Some?
    requires forall j :: 0 <= j < |auth.users| ==> auth.users[j].resetToken != Some(token)
    modifies auth
    ensures issued == Success(token) && first.Success? && second == Failure(ValueError)
    ensures auth.ValidLogin(email, newPassword)
  {
    ghost var k := FindUserBy(auth.users, ByEmail(email)).value;
    issued := auth.GetResetPasswordToken(email, token);
    assert Matches(auth.users[k], ByResetToken(Some(token)));
    assert forall j :: 0 <= j < |auth.users| && j != k ==> !Matches(auth.users[j], ByResetToken(Some(token)));
    assert FindUserBy(auth.users, ByResetToken(Some(token))) == Some(k);
    ghost var before := auth.users;
    first := auth.UpdatePassword(Some(token), newPassword, salt);
    SameMatchesSameFind(before, auth.users, ByEmail(email));
    assert FindUserBy(auth.users, ByEmail(email)) == Some(k);
    second := auth.UpdatePassword(Some(token), "", salt);
  }
}
