/**
 * Python's `int(s)` on a string, base 10: surrounding whitespace, an optional
 * sign, then decimal digits with single underscores allowed between digits.
 * None where Python raises `ValueError`.
 */
module PyInt {
  import opened Wrappers

  /** The ASCII characters `str.isspace()` accepts. */
  predicate IsSpace(c: char)
  {
    c == ' ' || 9 <= c as int <= 13 || 0x1C <= c as int <= 0x1F
  }

  predicate IsDigit(c: char)
  {
    '0' <= c <= '9'
  }

  /** `t` is `s[i..j]`, and only whitespace lies before `i` and from `j` on. */
  predicate TrimmedAt(s: string, t: string, i: int, j: int)
  {
    && 0 <= i <= j <= |s| && t == s[i..j]
    && (forall m :: 0 <= m < i ==> IsSpace(s[m]))
    && (forall m :: j <= m < |s| ==> IsSpace(s[m]))
  }

  /** `s.strip()`: the text with leading and trailing whitespace removed. */
  function Strip(s: string): (t: string)
    ensures |t| <= |s|
    ensures t != [] ==> !IsSpace(t[0]) && !IsSpace(t[|t| - 1])
    ensures (s == [] || (!IsSpace(s[0]) && !IsSpace(s[|s| - 1]))) ==> t == s
    decreases |s|
  {
    if s == [] then s
    else if IsSpace(s[0]) then Strip(s[1..])
    else if IsSpace(s[|s| - 1]) then Strip(s[..|s| - 1])
    else s
  }

  /** Stripping keeps a contiguous middle of the text and cuts only whitespace from either end. */
  lemma {:induction false} StripTrims(s: string)
    ensures exists i, j :: TrimmedAt(s, Strip(s), i, j)
    decreases |s|
  {
    if s == [] {
      assert TrimmedAt(s, Strip(s), 0, 0);
    } else if IsSpace(s[0]) {
      StripTrims(s[1..]);
      var i, j :| TrimmedAt(s[1..], Strip(s[1..]), i, j);
      TrimmedFront(s, Strip(s), i, j);
    } else if IsSpace(s[|s| - 1]) {
      StripTrims(s[..|s| - 1]);
      var i, j :| TrimmedAt(s[..|s| - 1], Strip(s[..|s| - 1]), i, j);
      TrimmedBack(s, Strip(s), i, j);
    } else {
      assert TrimmedAt(s, Strip(s), 0, |s|);
    }
  }

  /** A trim of the text after a leading space is a trim of the whole text. */
  lemma TrimmedFront(s: string, t: string, i: int, j: int)
    requires s != [] && IsSpace(s[0]) && TrimmedAt(s[1..], t, i, j)
    ensures TrimmedAt(s, t, i + 1, j + 1)
  {
    assert s[1..][i..j] == s[i + 1..j + 1];
    forall m | 0 < m < i + 1 ensures IsSpace(s[m]) {
      assert s[m] == s[1..][m - 1];
    }
    forall m | j + 1 <= m < |s| ensures IsSpace(s[m]) {
      assert s[m] == s[1..][m - 1];
    }
  }

  /** A trim of the text before a trailing space is a trim of the whole text. */
  lemma TrimmedBack(s: string, t: string, i: int, j: int)
    requires s != [] && IsSpace(s[|s| - 1]) && TrimmedAt(s[..|s| - 1], t, i, j)
    ensures TrimmedAt(s, t, i, j)
  {
    assert s[..|s| - 1][i..j] == s[i..j];
    forall m | 0 <= m < i ensures IsSpace(s[m]) {
      assert s[m] == s[..|s| - 1][m];
    }
    forall m | j <= m < |s| - 1 ensures IsSpace(s[m]) {
      assert s[m] == s[..|s| - 1][m];
    }
  }

  /** Whitespace around the text does not change what `int` reads. */
  lemma ParseIgnoresSurroundingSpace(s: string, c: char)
    requires IsSpace(c)
    ensures Parse([c] + s) == Parse(s)
    ensures Parse(s + [c]) == Parse(s)
  {
    assert ([c] + s)[1..] == s;
    StripTrailingSpace(s, c);
  }

  lemma {:induction false} StripTrailingSpace(s: string, c: char)
    requires IsSpace(c)
    ensures Strip(s + [c]) == Strip(s)
    decreases |s|
  {
    var sc := s + [c];
    assert sc[..|sc| - 1] == s;
    if s != [] && IsSpace(s[0]) {
      assert sc[1..] == s[1..] + [c];
      StripTrailingSpace(s[1..], c);
    }
  }

  /** Digits, each pair of which may be separated by one underscore. */
  predicate WellFormedDigits(s: string)
  {
    && s != []
    && IsDigit(s[0]) && IsDigit(s[|s| - 1])
    && (forall i :: 0 <= i < |s| ==> IsDigit(s[i]) || s[i] == '_')
    && (forall i :: 0 <= i < |s| - 1 ==> !(s[i] == '_' && s[i + 1] == '_'))
  }

  /** The value of a digit string, underscores skipped. */
  function DigitsValue(s: string): nat
  {
    if s == [] then 0
    else if IsDigit(s[|s| - 1]) then DigitsValue(s[..|s| - 1]) * 10 + (s[|s| - 1] as int - '0' as int)
    else DigitsValue(s[..|s| - 1])
  }

  /**
   * `int(s)`. Blank text is rejected, and a negative value needs a leading
   * `-` once the whitespace is stripped.
   */
  function Parse(s: string): (r: Option<int>)
    ensures Strip(s) == [] ==> r.None?
    ensures r.Some? ==> IsDigit(Strip(s)[0]) || Strip(s)[0] == '-' || Strip(s)[0] == '+'
    ensures r.Some? && r.value < 0 ==> Strip(s)[0] == '-'
  {
    var t := Strip(s);
    if t == [] then None
    else if t[0] == '-' || t[0] == '+' then
      if WellFormedDigits(t[1..]) then
        Some(if t[0] == '-' then 0 - DigitsValue(t[1..]) as int else DigitsValue(t[1..]))
      else None
    else if WellFormedDigits(t) then Some(DigitsValue(t))
    else None
  }

  /** The decimal digits of a natural number, most significant first. */
  function Digits(n: nat): (s: string)
    ensures s != [] && forall i :: 0 <= i < |s| ==> IsDigit(s[i])
  {
    if n < 10 then [('0' as int + n) as char]
    else Digits(n / 10) + [('0' as int + n % 10) as char]
  }

  /** `str(n)`: a `-` exactly for negative numbers, then decimal digits. */
  function Format(n: int): (s: string)
    ensures s != [] && (s[0] == '-' <==> n < 0)
    ensures forall i :: (if n < 0 then 1 else 0) <= i < |s| ==> IsDigit(s[i])
  {
    if n < 0 then "-" + Digits(-n) else Digits(n)
  }

  lemma {:induction false} DigitsValueOfDigits(n: nat)
    ensures DigitsValue(Digits(n)) == n
  {
    if n >= 10 {
      var s := Digits(n);
      assert s[..|s| - 1] == Digits(n / 10);
      DigitsValueOfDigits(n / 10);
    }
  }

  /** `int(str(n)) == n` for every integer. */
  lemma ParseFormat(n: int)
    ensures Parse(Format(n)) == Some(n)
  {
    var d := Digits(if n < 0 then -n else n);
    DigitsValueOfDigits(if n < 0 then -n else n);
    assert WellFormedDigits(d);
    if n < 0 {
      assert ("-" + d)[1..] == d;
    }
  }
}
