/**
 * Shell-style wildcard matching as done by Python's `fnmatch.fnmatch` on a
 * POSIX system (case-sensitive, the whole name must match): `*` matches any
 * run of characters (newlines included), `?` matches exactly one character,
 * every other pattern character matches itself.
 */
module Glob {

  /** True iff the pattern contains no wildcard. */
  predicate IsLiteral(pat: string)
  {
    forall i :: 0 <= i < |pat| ==> pat[i] != '*' && pat[i] != '?'
  }

  /** Number of pattern characters that consume exactly one name character. */
  function FixedWidth(pat: string): (n: nat)
    ensures n <= |pat|
    ensures IsLiteral(pat) ==> n == |pat|
  {
    if pat == [] then 0
    else (if pat[0] == '*' then 0 else 1) + FixedWidth(pat[1..])
  }

  /**
   * `fnmatch(name, pat)`. A name that matches is at least as long as the
   * pattern's fixed part.
   */
  predicate Matches(name: string, pat: string)
    ensures Matches(name, pat) ==> |name| >= FixedWidth(pat)
    decreases |pat|, |name|
  {
    if pat == [] then name == []
    else if pat[0] == '*' then
      Matches(name, pat[1..]) || (name != [] && Matches(name[1..], pat))
    else if pat[0] == '?' then
      name != [] && Matches(name[1..], pat[1..])
    else
      name != [] && name[0] == pat[0] && Matches(name[1..], pat[1..])
  }

  /** A pattern without wildcards matches exactly the name equal to it. */
  lemma {:induction false} LiteralMatchesItself(name: string, pat: string)
    requires IsLiteral(pat)
    ensures Matches(name, pat) <==> name == pat
    decreases |pat|
  {
    if pat != [] {
      assert IsLiteral(pat[1..]);
      if name != [] {
        LiteralMatchesItself(name[1..], pat[1..]);
        if name == pat {
          assert name[1..] == pat[1..];
        }
        if name[0] == pat[0] && name[1..] == pat[1..] {
          assert name == [name[0]] + name[1..];
          assert pat == [pat[0]] + pat[1..];
        }
      }
    }
  }

  /**
   * A pattern without `*` matches exactly the names of its length that agree
   * with it everywhere except under a `?`.
   */
  lemma {:induction false} NoStarMatches(name: string, pat: string)
    requires forall i :: 0 <= i < |pat| ==> pat[i] != '*'
    ensures Matches(name, pat) <==>
      |name| == |pat| && forall i :: 0 <= i < |pat| && pat[i] != '?' ==> name[i] == pat[i]
    decreases |pat|
  {
    if pat != [] && name != [] {
      assert forall i :: 0 <= i < |pat[1..]| ==> pat[1..][i] == pat[i + 1];
      NoStarMatches(name[1..], pat[1..]);
      if |name| == |pat| {
        assert forall i :: 0 <= i < |pat[1..]| ==> name[1..][i] == name[i + 1];
      }
    }
  }

  /** A lone `*` matches every name. */
  lemma {:induction false} StarMatchesAll(name: string)
    ensures Matches(name, "*")
    decreases |name|
  {
    if name != [] {
      StarMatchesAll(name[1..]);
    }
  }

  /** `lit*` with a wildcard-free `lit` matches exactly the names that start with `lit`. */
  lemma {:induction false} PrefixStar(name: string, lit: string)
    requires IsLiteral(lit)
    ensures Matches(name, lit + "*") <==> (|lit| <= |name| && name[..|lit|] == lit)
    decreases |lit|
  {
    if lit == [] {
      assert lit + "*" == "*";
      StarMatchesAll(name);
    } else {
      assert (lit + "*")[0] == lit[0];
      assert (lit + "*")[1..] == lit[1..] + "*";
      assert IsLiteral(lit[1..]);
      if name != [] {
        PrefixStar(name[1..], lit[1..]);
        if |lit| <= |name| && name[..|lit|] == lit {
          assert name[1..][..|lit| - 1] == lit[1..];
        }
        if name[0] == lit[0] && |lit[1..]| <= |name[1..]| && name[1..][..|lit[1..]|] == lit[1..] {
          assert name[..|lit|] == [name[0]] + name[1..][..|lit[1..]|];
          assert lit == [lit[0]] + lit[1..];
        }
      }
    }
  }
}
