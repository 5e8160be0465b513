/**
 * `filter_datum`: for each field in turn, every `field=<value><separator>`
 * in the log message becomes `field=<redaction><separator>`. The value is
 * matched lazily (the shortest run up to the first separator) and never
 * crosses a line break, as the regular expression `field=.*?separator`
 * does without the DOTALL flag. The regular-expression replacement is
 * modelled as the left-to-right scan `re.sub` performs for this pattern:
 * try a match where the scan stands, replace it and go on after it, or
 * keep one character and go on.
 */
module FilteredLogger {
  import opened Wrappers

  /** `sep` occurs in `s` starting at position `m`. */
  predicate SepAt(s: string, sep: string, m: nat)
  {
    m <= |s| && sep <= s[m..]
  }

  /** No line break among the first `m` characters of `s`. */
  predicate NoNewline(s: string, m: nat)
    requires m <= |s|
  {
    forall k :: 0 <= k < m ==> s[k] != '\n'
  }

  /** Dropping the first character moves every separator and line break one place left. */
  lemma TailFacts(s: string, sep: string)
    requires s != []
    ensures forall m :: 1 <= m <= |s| ==> (SepAt(s, sep, m) <==> SepAt(s[1..], sep, m - 1))
    ensures forall m :: 1 <= m <= |s| ==> (NoNewline(s, m) <==> s[0] != '\n' && NoNewline(s[1..], m - 1))
  {
    forall m | 1 <= m <= |s| ensures SepAt(s, sep, m) <==> SepAt(s[1..], sep, m - 1) {
      assert s[1..][m - 1..] == s[m..];
    }
    forall m | 1 <= m <= |s| ensures NoNewline(s, m) <==> s[0] != '\n' && NoNewline(s[1..], m - 1) {
      if NoNewline(s, m) {
        forall k | 0 <= k < m - 1 ensures s[1..][k] != '\n' {
          assert s[1..][k] == s[k + 1];
        }
      }
      if s[0] != '\n' && NoNewline(s[1..], m - 1) {
        forall k | 0 <= k < m ensures s[k] != '\n' {
          if k > 0 {
            assert s[k] == s[1..][k - 1];
          }
        }
      }
    }
  }

  /**
   * The lazy `.*?` followed by the separator, at the start of `s`: the
   * length of the value before the first separator, provided no line break
   * comes before it.
   */
  function ValueLength(s: string, sep: string): (r: Option<nat>)
    ensures r.Some? ==> r.value <= |s| && SepAt(s, sep, r.value) && NoNewline(s, r.value)
    ensures r.Some? ==> forall m :: 0 <= m < r.value ==> !SepAt(s, sep, m)
    ensures r.None? ==> forall m :: 0 <= m <= |s| && NoNewline(s, m) ==> !SepAt(s, sep, m)
    decreases |s|
  {
    if SepAt(s, sep, 0) then Some(0)
    else if s == [] || s[0] == '\n' then None
    else
      TailFacts(s, sep);
      match ValueLength(s[1..], sep)
      case None => None
      case Some(n) => Some(n + 1)
  }

  /** The length of a match of `field=.*?sep` at the start of `s`, if there is one. */
  function MatchLength(field: string, sep: string, s: string): (r: Option<nat>)
    ensures r.Some? <==> field + "=" <= s && ValueLength(s[|field| + 1..], sep).Some?
    ensures r.Some? ==> r.value == |field| + 1 + ValueLength(s[|field| + 1..], sep).value + |sep|
    ensures r.Some? ==> 0 < r.value <= |s|
  {
    if field + "=" <= s then
      match ValueLength(s[|field| + 1..], sep)
      case None => None
      case Some(n) => Some(|field| + 1 + n + |sep|)
    else None
  }

  /**
   * One `re.sub(pattern, replacement, message)` for one field. Where no match
   * starts anywhere in the text, the substitution copies it unchanged.
   */
  function Redact(field: string, redaction: string, sep: string, s: string): (r: string)
    ensures (forall i :: 0 <= i <= |s| ==> MatchLength(field, sep, s[i..]).None?) ==> r == s
    decreases |s|
  {
    if s == [] then []
    else match MatchLength(field, sep, s)
      case Some(n) =>
        assert s[0..] == s;
        field + "=" + redaction + sep + Redact(field, redaction, sep, s[n..])
      case None =>
        assert (forall i :: 0 <= i <= |s| ==> MatchLength(field, sep, s[i..]).None?) ==>
               (forall i :: 0 <= i <= |s[1..]| ==> MatchLength(field, sep, s[1..][i..]).None?) by {
          forall i | 0 <= i <= |s[1..]| ensures s[1..][i..] == s[i + 1..] { }
        }
        assert s == [s[0]] + s[1..];
        [s[0]] + Redact(field, redaction, sep, s[1..])
  }

  /** `field=` occurs nowhere in the message. */
  predicate Absent(field: string, message: string)
  {
    forall i :: 0 <= i <= |message| ==> !(field + "=" <= message[i..])
  }

  /** The message after the fields are applied in order; one naming no field it holds is kept as it is. */
  function FilterAll(fields: seq<string>, redaction: string, message: string, sep: string): (r: string)
    ensures fields == [] ==> r == message
    ensures (forall j :: 0 <= j < |fields| ==> Absent(fields[j], message)) ==> r == message
  {
    if fields == [] then message
    else
      var last := fields[|fields| - 1];
      var inner := FilterAll(fields[..|fields| - 1], redaction, message, sep);
      // Both arms compute the same value; the test only selects the proof step.
      if forall j :: 0 <= j < |fields| ==> Absent(fields[j], message) then
        assert forall j :: 0 <= j < |fields| - 1 ==> fields[..|fields| - 1][j] == fields[j];
        AbsentFieldUnchanged(last, redaction, sep, message);
        Redact(last, redaction, sep, inner)
      else Redact(last, redaction, sep, inner)
  }

  /** `filter_datum(fields, redaction, message, separator)`. */
  method FilterDatum(fields: seq<string>, redaction: string, message: string, separator: string) returns (r: string)
    ensures r == FilterAll(fields, redaction, message, separator)
    ensures fields == [] ==> r == message
  {
    r := message;
    for i := 0 to |fields|
      invariant r == FilterAll(fields[..i], redaction, message, separator)
    {
      assert fields[..i + 1][..i] == fields[..i];
      r := Redact(fields[i], redaction, separator, r);
    }
    assert fields[..|fields|] == fields;
  }

  /** A message in which `field=` never occurs is left as it is. */
  lemma AbsentFieldUnchanged(field: string, redaction: string, sep: string, message: string)
    requires Absent(field, message)
    ensures Redact(field, redaction, sep, message) == message
  {
    forall i | 0 <= i <= |message| ensures MatchLength(field, sep, message[i..]).None? { }
  }

  /** Text in which no match starts is copied as it is, and the substitution carries on after it. */
  lemma {:induction false} UnmatchedPrefixCopied(field: string, redaction: string, sep: string, u: string, s: string)
    requires forall i :: 0 <= i < |u| ==> MatchLength(field, sep, (u + s)[i..]).None?
    ensures Redact(field, redaction, sep, u + s) == u + Redact(field, redaction, sep, s)
    decreases |u|
  {
    if u != [] {
      UnmatchedStep(field, redaction, sep, u, s);
      UnmatchedPrefixCopied(field, redaction, sep, u[1..], s);
      ConsSplit(u, Redact(field, redaction, sep, s));
    } else {
      assert u + s == s;
    }
  }

  lemma ConsSplit(u: string, t: string)
    requires u != []
    ensures [u[0]] + (u[1..] + t) == u + t
  {
    assert u == [u[0]] + u[1..];
  }

  /** One step of `UnmatchedPrefixCopied`: the first character is copied, and no match starts in the rest of `u`. */
  lemma UnmatchedStep(field: string, redaction: string, sep: string, u: string, s: string)
    requires u != []
    requires forall i :: 0 <= i < |u| ==> MatchLength(field, sep, (u + s)[i..]).None?
    ensures Redact(field, redaction, sep, u + s) == [u[0]] + Redact(field, redaction, sep, u[1..] + s)
    ensures forall i :: 0 <= i < |u[1..]| ==> MatchLength(field, sep, (u[1..] + s)[i..]).None?
  {
    var us := u + s;
    assert us[0..] == us;
    assert us[1..] == u[1..] + s;
    forall i | 0 <= i < |u[1..]| ensures MatchLength(field, sep, (u[1..] + s)[i..]).None? {
      assert (u[1..] + s)[i..] == us[i + 1..];
    }
  }

  /**
   * A `field=value<sep>` after unmatched text: the text before it is kept,
   * its value is replaced, and the scan carries on after the separator.
   */
  lemma RedactAfterPrefix(field: string, redaction: string, sep: string, u: string, value: string, rest: string)
    requires forall i :: 0 <= i < |u| ==> MatchLength(field, sep, (u + (field + "=" + value + sep + rest))[i..]).None?
    requires forall k :: 0 <= k < |value| ==> value[k] != '\n'
    requires forall m :: 0 <= m < |value| ==> !SepAt(value + sep, sep, m)
    ensures Redact(field, redaction, sep, u + (field + "=" + value + sep + rest))
         == u + (field + "=" + redaction + sep + Redact(field, redaction, sep, rest))
  {
    UnmatchedPrefixCopied(field, redaction, sep, u, field + "=" + value + sep + rest);
    RedactKeyValue(field, redaction, sep, value, rest);
  }

  /** A text without separators has none in any of its suffixes either. */
  lemma NoSepInSuffix(value: string, sep: string, x: nat)
    requires x <= |value|
    requires forall m :: 0 <= m <= |value| ==> !SepAt(value, sep, m)
    ensures forall m :: 0 <= m <= |value[x..]| ==> !SepAt(value[x..], sep, m)
  {
    forall m | 0 <= m <= |value[x..]| ensures !SepAt(value[x..], sep, m) {
      assert value[x..][m..] == value[x + m..];
      assert !SepAt(value, sep, x + m);
    }
  }

  /** A `field=` whose value holds no separator is left unredacted: nothing closes the match. */
  lemma UnterminatedValueUnchanged(field: string, redaction: string, sep: string, value: string)
    requires forall m :: 0 <= m <= |value| ==> !SepAt(value, sep, m)
    ensures Redact(field, redaction, sep, field + "=" + value) == field + "=" + value
  {
    var s := field + "=" + value;
    var k := |field| + 1;
    forall i | 0 <= i <= |s| ensures MatchLength(field, sep, s[i..]).None? {
      if field + "=" <= s[i..] {
        assert |s[i..]| >= k;
        assert s[i..][k..] == value[i..] by {
          assert s[i..][k..] == s[i + k..];
          assert s[k..] == value;
          assert s[i + k..] == s[k..][i..];
        }
        NoSepInSuffix(value, sep, i);
      }
    }
  }

  /** The lazy value runs over a stretch free of separators and line breaks up to the separator. */
  lemma {:induction false} ValueLengthReaches(value: string, sep: string, rest: string)
    requires forall k :: 0 <= k < |value| ==> value[k] != '\n'
    requires forall m :: 0 <= m < |value| ==> !SepAt(value + sep, sep, m)
    ensures ValueLength(value + sep + rest, sep) == Some(|value|)
  {
    var s := value + sep + rest;
    if value == [] {
      assert s[0..] == sep + rest;
    } else {
      assert !SepAt(value + sep, sep, 0);
      assert (value + sep)[0..] == value + sep && s[0..] == s;
      assert s[1..] == value[1..] + sep + rest;
      SepFreeTail(value, sep);
      ValueLengthReaches(value[1..], sep, rest);
    }
  }

  /** Dropping the first character of a separator-free value keeps it separator-free. */
  lemma SepFreeTail(value: string, sep: string)
    requires value != []
    requires forall m :: 0 <= m < |value| ==> !SepAt(value + sep, sep, m)
    ensures forall m :: 0 <= m < |value[1..]| ==> !SepAt(value[1..] + sep, sep, m)
  {
    forall m | 0 <= m < |value[1..]| ensures !SepAt(value[1..] + sep, sep, m) {
      assert (value[1..] + sep)[m..] == (value + sep)[m + 1..];
      assert !SepAt(value + sep, sep, m + 1);
    }
  }

  /** A leading `field=value<sep>` is matched up to and including that separator. */
  lemma KeyValueMatches(field: string, sep: string, value: string, rest: string)
    requires forall k :: 0 <= k < |value| ==> value[k] != '\n'
    requires forall m :: 0 <= m < |value| ==> !SepAt(value + sep, sep, m)
    ensures MatchLength(field, sep, field + "=" + value + sep + rest) == Some(|field| + 1 + |value| + |sep|)
    ensures (field + "=" + value + sep + rest)[|field| + 1 + |value| + |sep|..] == rest
  {
    var s := field + "=" + value + sep + rest;
    assert s[..|field| + 1] == field + "=";
    assert s[|field| + 1..] == value + sep + rest;
    ValueLengthReaches(value, sep, rest);
  }

  /**
   * A leading `field=value<sep>` whose value holds neither the separator nor
   * a line break has its value replaced, and the scan carries on after it.
   */
  lemma RedactKeyValue(field: string, redaction: string, sep: string, value: string, rest: string)
    requires forall k :: 0 <= k < |value| ==> value[k] != '\n'
    requires forall m :: 0 <= m < |value| ==> !SepAt(value + sep, sep, m)
    ensures Redact(field, redaction, sep, field + "=" + value + sep + rest)
         == field + "=" + redaction + sep + Redact(field, redaction, sep, rest)
  {
    KeyValueMatches(field, sep, value, rest);
  }
}
