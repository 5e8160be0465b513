/**
 * `BasicAuth`: the user named by an `Authorization: Basic <base64>` header.
 * Each step returns an absent value on bad input, and the composition in
 * `CurrentUser` is absent as soon as any step is.
 */
module BasicAuth {
  import opened Wrappers
  import Base64
  import Utf8
  import Credentials
  import Users
  import ApiAuth

  const Scheme: string := "Basic "

  /** `extract_base64_authorization_header`: the text after the `Basic ` prefix. */
  function ExtractBase64AuthorizationHeader(header: Option<string>): (r: Option<string>)
    ensures r.Some? <==> header.Some? && |header.value| >= |Scheme| && header.value[..|Scheme|] == Scheme
    ensures r.Some? ==> Scheme + r.value == header.value
  {
    if header.None? || header.value == "" || !(|header.value| >= 6 && header.value[..6] == Scheme) then None
    else
      var rest := header.value[6..];
      assert Scheme + rest == header.value;
      Some(rest)
  }

  /**
   * `decode_base64_authorization_header`: base 64, then UTF-8. A non-empty
   * value decodes exactly when its octets are the UTF-8 encoding of some
   * text, and then the result is that text.
   */
  function DecodeBase64AuthorizationHeader(b64: Option<string>): (r: Option<string>)
    ensures b64.None? || b64 == Some("") ==> r.None?
    ensures r.Some? ==> Base64.Decode(b64.value) == Some(Utf8.Encode(r.value))
    ensures r.Some? <==> b64.Some? && b64.value != "" && exists t :: Base64.Decode(b64.value) == Some(Utf8.Encode(t))
  {
    if b64.None? || b64.value == "" then None
    else match Base64.Decode(b64.value)
      case None => None
      case Some(octets) =>
        match Utf8.Decode(octets)
        case None =>
          Utf8.EncodedBytesDecode(octets);
          None
        case Some(text) =>
          Utf8.EncodeDecode(octets);
          Some(text)
  }

  /** The header text of a non-empty string decodes back to that string. */
  lemma DecodesEncodedText(t: string)
    requires t != ""
    ensures DecodeBase64AuthorizationHeader(Some(Base64.Encode(Utf8.Encode(t)))) == Some(t)
  {
    Base64.DecodeEncode(Utf8.Encode(t));
    Utf8.DecodeEncode(t);
  }

  /** Python's `s.split(':')`: the pieces between colons, at least one. */
  function SplitColons(s: string): (parts: seq<string>)
    ensures |parts| >= 1
    ensures ':' !in parts[0]
    ensures ':' in s <==> |parts| >= 2
  {
    if s == [] then [""]
    else
      var rest := SplitColons(s[1..]);
      if s[0] == ':' then [""] + rest
      else [[s[0]] + rest[0]] + rest[1..]
  }

  /** Python's `':'.join(parts)`: the first piece, then a colon when more pieces follow. */
  function JoinColons(parts: seq<string>): (s: string)
    ensures parts == [] ==> s == ""
    ensures parts != [] ==> parts[0] <= s
    ensures |parts| >= 2 ==> |s| > |parts[0]| && s[|parts[0]|] == ':'
  {
    if parts == [] then ""
    else if |parts| == 1 then parts[0]
    else parts[0] + ":" + JoinColons(parts[1..])
  }

  /** Joining the pieces of a split gives the string back. */
  lemma {:induction false} JoinSplit(s: string)
    ensures JoinColons(SplitColons(s)) == s
  {
    if s != [] {
      var rest := SplitColons(s[1..]);
      JoinSplit(s[1..]);
      if s[0] == ':' {
        assert ([""] + rest)[1..] == rest;
      } else {
        var parts := [[s[0]] + rest[0]] + rest[1..];
        if |rest| == 1 {
          assert parts == [[s[0]] + rest[0]];
        } else {
          assert parts[1..] == rest[1..];
          assert JoinColons(rest) == rest[0] + ":" + JoinColons(rest[1..]);
        }
      }
    }
  }

  /** `extract_user_credentials`: the email before the first `:`, the password after it. */
  function ExtractUserCredentials(decoded: Option<string>): (r: (Option<string>, Option<string>))
    ensures r.0.None? <==> decoded.None? || decoded.value == "" || ':' !in decoded.value
    ensures r.0.None? <==> r.1.None?
    ensures r.0.Some? ==> ':' !in r.0.value && r.0.value + ":" + r.1.value == decoded.value
  {
    if decoded.None? || decoded.value == "" || ':' !in decoded.value then (None, None)
    else
      var line := SplitColons(decoded.value);
      var email := line[0];
      var password := JoinColons(line[1..]);
      JoinSplit(decoded.value);
      (Some(email), Some(password))
  }

  /** `user_object_from_credentials`: the first user with that email, if the password is right. */
  function UserObjectFromCredentials(table: Users.UserTable, email: Option<string>, password: Option<string>): (r: Option<Users.User>)
    ensures r.Some? <==>
      && email.Some? && email.value != "" && password.Some? && password.value != ""
      && table.Loaded?
      && exists k :: Users.FirstWithEmailAt(table.rows, email.value, k)
                     && Credentials.IsValid(table.rows[k].password, password.value)
    ensures r.Some? ==> exists k :: Users.FirstWithEmailAt(table.rows, email.value, k) && r.value == table.rows[k]
  {
    if email.None? || password.None? || email.value == "" || password.value == "" then None
    else match Users.Search(table, email.value)
      case None => None
      case Some(users) =>
        if users == [] then
          None
        else
          var k :| 0 <= k < |table.rows| && table.rows[k] == users[0] && Users.FirstWithEmailAt(table.rows, email.value, k);
          FirstIsUnique(table.rows, email.value, k);
          if !Credentials.IsValid(users[0].password, password.value) then None
          else Some(users[0])
  }

  /** At most one row is the first with a given email. */
  lemma FirstIsUnique(rows: seq<Users.User>, email: string, k: int)
    requires Users.FirstWithEmailAt(rows, email, k)
    ensures forall j :: Users.FirstWithEmailAt(rows, email, j) ==> j == k
  {
  }

  /**
   * The request's `Authorization` header is `Basic ` followed by base 64 text
   * that decodes to `email:password`, with no colon in `email`.
   */
  predicate CarriesCredentials(request: Option<ApiAuth.Request>, email: string, password: string)
  {
    && ':' !in email
    && DecodeBase64AuthorizationHeader(ExtractBase64AuthorizationHeader(ApiAuth.AuthorizationHeader(request)))
       == Some(email + ":" + password)
  }

  /** A request carries at most one pair of credentials, the pair `extract_user_credentials` finds. */
  lemma CredentialsAreUnique(request: Option<ApiAuth.Request>)
    ensures forall email, password :: CarriesCredentials(request, email, password) ==>
      ExtractUserCredentials(DecodeBase64AuthorizationHeader(ExtractBase64AuthorizationHeader(ApiAuth.AuthorizationHeader(request))))
      == (Some(email), Some(password))
  {
    var decoded := DecodeBase64AuthorizationHeader(ExtractBase64AuthorizationHeader(ApiAuth.AuthorizationHeader(request)));
    forall email, password | CarriesCredentials(request, email, password)
      ensures ExtractUserCredentials(decoded) == (Some(email), Some(password))
    {
      var text := email + ":" + password;
      assert ':' in text by { assert text[|email|] == ':'; }
      var (e, p) := ExtractUserCredentials(decoded);
      ColonSplitIsUnique(email, password, e.value, p.value);
    }
  }

  /**
   * `BasicAuth.current_user`: the whole pipeline from the request to the user.
   * It finds a user exactly when the header carries non-empty credentials and
   * the first user with that email accepts that password; any step that fails
   * (no header, no `Basic ` prefix, bad base 64 or UTF-8, no colon) gives None.
   */
  function CurrentUser(request: Option<ApiAuth.Request>, table: Users.UserTable): (r: Option<Users.User>)
    ensures ApiAuth.AuthorizationHeader(request).None? ==> r.None?
    ensures ExtractBase64AuthorizationHeader(ApiAuth.AuthorizationHeader(request)).None? ==> r.None?
    ensures DecodeBase64AuthorizationHeader(ExtractBase64AuthorizationHeader(ApiAuth.AuthorizationHeader(request))).None? ==> r.None?
    ensures r.Some? <==> exists email, password ::
      && CarriesCredentials(request, email, password) && email != "" && password != "" && table.Loaded?
      && exists k :: Users.FirstWithEmailAt(table.rows, email, k) && Credentials.IsValid(table.rows[k].password, password)
    ensures r.Some? ==> exists email, password, k ::
      CarriesCredentials(request, email, password) && Users.FirstWithEmailAt(table.rows, email, k) && r.value == table.rows[k]
  {
    var auth := ApiAuth.AuthorizationHeader(request);
    var extracted := ExtractBase64AuthorizationHeader(auth);
    var decoded := DecodeBase64AuthorizationHeader(extracted);
    var (email, password) := ExtractUserCredentials(decoded);
    CredentialsAreUnique(request);
    assert email.Some? ==> CarriesCredentials(request, email.value, password.value);
    UserObjectFromCredentials(table, email, password)
  }

  /**
   * A request whose header is `Basic ` + base64(utf8(email + ":" + password))
   * authenticates the first user with that email exactly when the password is
   * right for that user.
   */
  lemma CurrentUserOfEncodedCredentials(headers: map<string, string>, cookies: map<string, string>,
                                        table: Users.UserTable, email: string, password: string, k: int)
    requires email != "" && ':' !in email && password != ""
    requires table.Loaded? && Users.FirstWithEmailAt(table.rows, email, k)
    requires ApiAuth.AuthorizationName in headers
    requires headers[ApiAuth.AuthorizationName] == Scheme + Base64.Encode(Utf8.Encode(email + ":" + password))
    ensures CurrentUser(Some(ApiAuth.Request(headers, cookies)), table) ==
            if Credentials.IsValid(table.rows[k].password, password) then Some(table.rows[k]) else None
  {
    var request := Some(ApiAuth.Request(headers, cookies));
    var text := email + ":" + password;
    var b64 := Base64.Encode(Utf8.Encode(text));
    assert (Scheme + b64)[..|Scheme|] == Scheme;
    assert ExtractBase64AuthorizationHeader(ApiAuth.AuthorizationHeader(request)) == Some(b64);
    DecodesEncodedText(text);
    assert ':' in text by { assert text[|email|] == ':'; }
    var (e, p) := ExtractUserCredentials(Some(text));
    ColonSplitIsUnique(email, password, e.value, p.value);
    FirstIsUnique(table.rows, email, k);
  }

  /** When two `prefix:rest` spellings agree, the longer prefix has a colon where the shorter one ends. */
  lemma ColonInLonger(e1: string, p1: string, e2: string, p2: string)
    requires e1 + ":" + p1 == e2 + ":" + p2 && |e1| < |e2|
    ensures e2[|e1|] == ':'
  {
    var s := e1 + ":" + p1;
    assert s[|e1|] == ':';
    assert s[|e1|] == e2[|e1|];
  }

  /** Splitting at a colon-free prefix is unique. */
  lemma ColonSplitIsUnique(e1: string, p1: string, e2: string, p2: string)
    requires ':' !in e1 && ':' !in e2
    requires e1 + ":" + p1 == e2 + ":" + p2
    ensures e1 == e2 && p1 == p2
  {
    var s := e1 + ":" + p1;
    if |e1| < |e2| {
      ColonInLonger(e1, p1, e2, p2);
      assert false;
    } else if |e2| < |e1| {
      ColonInLonger(e2, p2, e1, p1);
      assert false;
    }
    assert e1 == s[..|e1|] == e2;
    assert p1 == s[|e1| + 1..] == p2;
  }
}
