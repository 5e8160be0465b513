/**
 * The base `Auth` class shared by the Basic and Session authentication
 * layers: which paths need authentication, and where a request carries its
 * credentials. A request is the part of an HTTP request these checks read.
 */
module ApiAuth {
  import opened Wrappers
  import Glob
  import Users

  /** Header values by header name, cookie values by cookie name. */
  datatype Request = Request(headers: map<string, string>, cookies: map<string, string>)

  const AuthorizationName: string := "Authorization"

  /** The path with a `/` appended unless it already ends in one. */
  function NormalizePath(path: string): (p: string)
    requires path != []
    ensures p != [] && p[|p| - 1] == '/'
    ensures |path| <= |p| <= |path| + 1 && p[..|path|] == path
    ensures path[|path| - 1] == '/' ==> p == path
  {
    if path[|path| - 1] != '/' then path + "/" else path
  }

  /** `[n for n in excluded_paths if fnmatch(path, n)]`. */
  function MatchingPatterns(path: string, excluded: seq<string>): (r: seq<string>)
    ensures forall n :: n in r <==> n in excluded && Glob.Matches(path, n)
  {
    if excluded == [] then []
    else if Glob.Matches(path, excluded[0]) then [excluded[0]] + MatchingPatterns(path, excluded[1..])
    else MatchingPatterns(path, excluded[1..])
  }

  /**
   * True iff some excluded pattern matches the normalised `path`, which
   * exempts it from authentication. A lone `*` exempts every path; an empty
   * list exempts none.
   */
  predicate IsExcluded(path: string, excluded: seq<string>)
    requires path != []
    ensures "*" in excluded ==> IsExcluded(path, excluded)
    ensures IsExcluded(path, excluded) ==> excluded != []
  {
    Glob.StarMatchesAll(NormalizePath(path));
    exists i :: 0 <= i < |excluded| && Glob.Matches(NormalizePath(path), excluded[i])
  }

  /** `Auth.require_auth(path, excluded_paths)`. */
  function RequireAuth(path: Option<string>, excluded: seq<string>): (r: bool)
    ensures path.None? || path == Some("") || excluded == [] ==> r
    ensures !r <==> path.Some? && path.value != "" && IsExcluded(path.value, excluded)
  {
    if path.None? || path.value == "" || excluded == [] then true
    else
      var found := MatchingPatterns(NormalizePath(path.value), excluded);
      assert found != [] ==> found[0] in excluded;
      found == []
  }

  /** The answer does not depend on the order in which the excluded patterns are listed. */
  lemma RequireAuthIgnoresOrder(path: Option<string>, a: seq<string>, b: seq<string>)
    requires multiset(a) == multiset(b)
    ensures RequireAuth(path, a) == RequireAuth(path, b)
  {
    if path.Some? && path.value != "" {
      var p := NormalizePath(path.value);
      forall n | n in a ensures n in b {
        assert n in multiset(a);
      }
      forall n | n in b ensures n in a {
        assert n in multiset(b);
      }
      if IsExcluded(path.value, a) {
        var i :| 0 <= i < |a| && Glob.Matches(p, a[i]);
        assert a[i] in b;
        var j :| 0 <= j < |b| && b[j] == a[i];
      }
      if IsExcluded(path.value, b) {
        var j :| 0 <= j < |b| && Glob.Matches(p, b[j]);
        assert b[j] in a;
        var i :| 0 <= i < |a| && a[i] == b[j];
      }
    }
  }

  /** `/api/v1/status` is normalised to `/api/v1/status/` and so exempted by that entry. */
  lemma StatusPathIsExcluded()
    ensures !RequireAuth(Some("/api/v1/status"), ["/api/v1/status/"])
  {
    assert NormalizePath("/api/v1/status") == "/api/v1/status/";
    Glob.LiteralMatchesItself("/api/v1/status/", "/api/v1/status/");
  }

  /** A trailing `*` exempts every path that starts with the literal part. */
  lemma StarSuffixExcludes()
    ensures !RequireAuth(Some("/api/v1/stats"), ["/api/v1/stat*"])
  {
    var lit := "/api/v1/stat";
    assert Glob.IsLiteral(lit);
    assert NormalizePath("/api/v1/stats") == lit + "s/";
    assert "/api/v1/stat*" == lit + "*";
    SinglePattern("/api/v1/stats", lit + "*");
    Glob.PrefixStar(lit + "s/", lit);
    assert (lit + "s/")[..|lit|] == lit;
  }

  // The pattern "/api/v1/status/" + "*" exempts "/api/v1/status/" itself but not "/api/v1/users/".
  lemma StatusStarPattern()
    ensures !RequireAuth(Some("/api/v1/status/"), ["/api/v1/status/*"])
    ensures RequireAuth(Some("/api/v1/users/"), ["/api/v1/status/*"])
  {
    StatusStarMatches("/api/v1/status/");
    StatusStarMatches("/api/v1/users/");
  }

  // A path that ends in a slash is exempted by "/api/v1/status/" + "*" exactly when it starts with "/api/v1/status/".
  lemma StatusStarMatches(path: string)
    requires path != [] && path[|path| - 1] == '/'
    ensures !RequireAuth(Some(path), ["/api/v1/status/*"]) <==>
      (|path| >= 15 && path[..15] == "/api/v1/status/")
  {
    var lit := "/api/v1/status/";
    assert Glob.IsLiteral(lit);
    assert "/api/v1/status/*" == lit + "*";
    SinglePattern(path, lit + "*");
    Glob.PrefixStar(path, lit);
  }

  /** With one excluded pattern, a path needs authentication exactly when the pattern does not match it. */
  lemma SinglePattern(path: string, pat: string)
    requires path != []
    ensures RequireAuth(Some(path), [pat]) <==> !Glob.Matches(NormalizePath(path), pat)
  {
    assert [pat][0] == pat;
  }

  /** `Auth.authorization_header(request)`. */
  function AuthorizationHeader(request: Option<Request>): (r: Option<string>)
    ensures request.None? ==> r.None?
    ensures r.Some? <==> request.Some? && AuthorizationName in request.value.headers
    ensures r.Some? ==> r.value == request.value.headers[AuthorizationName]
  {
    if request.None? then None
    else if AuthorizationName in request.value.headers then Some(request.value.headers[AuthorizationName])
    else None
  }

  /**
   * `Auth.session_cookie(request)`; `sessionName` is the configured cookie
   * name, None when it is not configured.
   */
  function SessionCookie(request: Option<Request>, sessionName: Option<string>): (r: Option<string>)
    ensures request.None? || sessionName.None? ==> r.None?
    ensures r.Some? <==> request.Some? && sessionName.Some? && sessionName.value in request.value.cookies
    ensures r.Some? ==> r.value == request.value.cookies[sessionName.value]
  {
    if request.None? || sessionName.None? then None
    else if sessionName.value in request.value.cookies then Some(request.value.cookies[sessionName.value])
    else None
  }

  /** The base `Auth.current_user`: no user is ever authenticated. */
  function CurrentUser(request: Option<Request>): (u: Option<Users.User>)
    ensures u.None?
  {
    None
  }
}
