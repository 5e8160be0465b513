/**
 * UTF-8 as RFC 3629 defines it and as Python's strict `bytes.decode('utf-8')`
 * applies it: one to four octets per Unicode scalar value, shortest form only,
 * no encoded surrogates, nothing above U+10FFFF.
 */
module Utf8 {
  import opened Wrappers
  import opened Bytes

  /** True iff `b` is a continuation octet `10xxxxxx`. */
  predicate IsTail(b: Byte)
  {
    0x80 <= b < 0xC0
  }

  /** The octets of one character (section 3 of RFC 3629). */
  function EncodeChar(c: char): (b: seq<Byte>)
    ensures 1 <= |b| <= 4
    ensures (c as int < 0x80) <==> |b| == 1
  {
    var n := c as int;
    if n < 0x80 then [n]
    else if n < 0x800 then [0xC0 + n / 64, 0x80 + n % 64]
    else if n < 0x10000 then [0xE0 + n / 4096, 0x80 + (n / 64) % 64, 0x80 + n % 64]
    else [0xF0 + n / 262144, 0x80 + (n / 4096) % 64, 0x80 + (n / 64) % 64, 0x80 + n % 64]
  }

  /** `s.encode('utf-8')`. */
  function Encode(s: string): (b: seq<Byte>)
    ensures |s| <= |b| <= 4 * |s|
  {
    if s == [] then [] else EncodeChar(s[0]) + Encode(s[1..])
  }

  /**
   * The first character of `b` and the number of octets it takes, or None when
   * `b` does not start with a well-formed UTF-8 sequence.
   */
  function DecodeFirst(b: seq<Byte>): (r: Option<(char, nat)>)
    requires b != []
    ensures r.Some? ==> 1 <= r.value.1 <= |b| && r.value.1 <= 4
  {
    var b0: int := b[0];
    if b0 < 0x80 then Some((b0 as char, 1))
    else if 0xC2 <= b0 < 0xE0 then
      if |b| < 2 || !IsTail(b[1]) then None
      else Some((((b0 - 0xC0) * 64 + (b[1] as int - 0x80)) as char, 2))
    else if 0xE0 <= b0 < 0xF0 then
      if |b| < 3 || !IsTail(b[1]) || !IsTail(b[2]) then None
      else
        var n := (b0 - 0xE0) * 4096 + (b[1] as int - 0x80) * 64 + (b[2] as int - 0x80);
        if n < 0x800 || (0xD800 <= n < 0xE000) then None
        else Some((n as char, 3))
    else if 0xF0 <= b0 < 0xF5 then
      if |b| < 4 || !IsTail(b[1]) || !IsTail(b[2]) || !IsTail(b[3]) then None
      else
        var n := (b0 - 0xF0) * 262144 + (b[1] as int - 0x80) * 4096 + (b[2] as int - 0x80) * 64 + (b[3] as int - 0x80);
        if n < 0x10000 || n > 0x10FFFF then None
        else Some((n as char, 4))
    else None
  }

  /** `b.decode('utf-8')`, None where Python raises `UnicodeDecodeError`. */
  function Decode(b: seq<Byte>): (r: Option<string>)
    ensures r.Some? ==> |r.value| <= |b|
    decreases |b|
  {
    if b == [] then Some("")
    else match DecodeFirst(b)
      case None => None
      case Some((c, k)) =>
        match Decode(b[k..])
        case None => None
        case Some(rest) => Some([c] + rest)
  }

  /** Decoding the octets of a character gives back that character, whatever follows. */
  lemma DecodeEncodedChar(c: char, rest: seq<Byte>)
    ensures DecodeFirst(EncodeChar(c) + rest) == Some((c, |EncodeChar(c)|))
  {
    var n := c as int;
    if n < 0x80 {
    } else if n < 0x800 {
      DecodeTwoOctets(c, rest);
    } else if n < 0x10000 {
      DecodeThreeOctets(c, rest);
    } else {
      DecodeFourOctets(c, rest);
    }
  }

  lemma DecodeTwoOctets(c: char, rest: seq<Byte>)
    requires 0x80 <= c as int < 0x800
    ensures DecodeFirst(EncodeChar(c) + rest) == Some((c, 2))
  {
    var n := c as int;
    var b := EncodeChar(c) + rest;
    assert b[0] == 0xC0 + n / 64 && b[1] == 0x80 + n % 64;
  }

  lemma DecodeThreeOctets(c: char, rest: seq<Byte>)
    requires 0x800 <= c as int < 0x10000
    ensures DecodeFirst(EncodeChar(c) + rest) == Some((c, 3))
  {
    var n := c as int;
    var b := EncodeChar(c) + rest;
    assert b[0] as int - 0xE0 == n / 4096;
    assert b[1] as int - 0x80 == (n / 64) % 64;
    assert b[2] as int - 0x80 == n % 64;
    Recombine3(n);
  }

  lemma DecodeFourOctets(c: char, rest: seq<Byte>)
    requires 0x10000 <= c as int
    ensures DecodeFirst(EncodeChar(c) + rest) == Some((c, 4))
  {
    var n := c as int;
    var b := EncodeChar(c) + rest;
    assert b[0] as int - 0xF0 == n / 262144;
    assert b[1] as int - 0x80 == (n / 4096) % 64;
    assert b[2] as int - 0x80 == (n / 64) % 64;
    assert b[3] as int - 0x80 == n % 64;
    Recombine4(n);
  }

  /** A number is its three base-64 digits recombined. */
  lemma Recombine3(n: nat)
    ensures (n / 4096) * 4096 + ((n / 64) % 64) * 64 + n % 64 == n
  {
    var q := n / 64;
    DivideBy64Twice(n);
    assert n == q * 64 + n % 64;
    assert q == (q / 64) * 64 + q % 64;
    assert q * 64 == (q / 64) * 4096 + (q % 64) * 64;
  }

  /** A number is its four base-64 digits recombined. */
  lemma Recombine4(n: nat)
    ensures (n / 262144) * 262144 + ((n / 4096) % 64) * 4096 + ((n / 64) % 64) * 64 + n % 64 == n
  {
    var q := n / 64;
    DivideBy64Twice(n);
    Recombine3(n);
    var r := n / 4096;
    assert r == (r / 64) * 64 + r % 64;
    assert r * 4096 == (r / 64) * 262144 + (r % 64) * 4096;
  }

  /** Splitting a number into its last six bits and the rest. */
  lemma Shift6(q: int, r: int)
    requires 0 <= r < 64
    ensures (q * 64 + r) / 64 == q && (q * 64 + r) % 64 == r
  {
  }

  /** Dividing by 4096 or 262144 is dividing by 64 two or three times. */
  lemma DivideBy64Twice(n: nat)
    ensures n / 4096 == (n / 64) / 64
    ensures n / 262144 == ((n / 64) / 64) / 64
  {
    var q1 := n / 64;
    var q2 := q1 / 64;
    var q3 := q2 / 64;
    assert n == q2 * 4096 + (q1 % 64) * 64 + n % 64;
    assert q2 == q3 * 64 + q2 % 64;
    assert n == q3 * 262144 + (q2 % 64) * 4096 + (q1 % 64) * 64 + n % 64;
  }

  /** A well-formed leading sequence is exactly the encoding of the character it decodes to. */
  lemma DecodedCharReencodes(b: seq<Byte>)
    requires b != [] && DecodeFirst(b).Some?
    ensures EncodeChar(DecodeFirst(b).value.0) == b[..DecodeFirst(b).value.1]
  {
    if b[0] < 0x80 {
    } else if b[0] < 0xE0 {
      Shift6(b[0] as int - 0xC0, b[1] as int - 0x80);
    } else if b[0] < 0xF0 {
      ThreeOctetsReencode(b);
    } else {
      FourOctetsReencode(b);
    }
  }

  lemma ThreeOctetsReencode(b: seq<Byte>)
    requires b != [] && 0xE0 <= b[0] < 0xF0 && DecodeFirst(b).Some?
    ensures EncodeChar(DecodeFirst(b).value.0) == b[..3]
  {
    var n := DecodeFirst(b).value.0 as int;
    var hi := b[0] as int - 0xE0;
    var mid := hi * 64 + (b[1] as int - 0x80);
    assert n == mid * 64 + (b[2] as int - 0x80);
    Shift6(mid, b[2] as int - 0x80);
    Shift6(hi, b[1] as int - 0x80);
    DivideBy64Twice(n);
    assert n / 4096 == hi;
  }

  lemma FourOctetsReencode(b: seq<Byte>)
    requires b != [] && 0xF0 <= b[0] && DecodeFirst(b).Some?
    ensures EncodeChar(DecodeFirst(b).value.0) == b[..4]
  {
    var n := DecodeFirst(b).value.0 as int;
    var hi := b[0] as int - 0xF0;
    var mid := hi * 64 + (b[1] as int - 0x80);
    var low := mid * 64 + (b[2] as int - 0x80);
    assert n == low * 64 + (b[3] as int - 0x80);
    Shift6(low, b[3] as int - 0x80);
    Shift6(mid, b[2] as int - 0x80);
    Shift6(hi, b[1] as int - 0x80);
    DivideBy64Twice(n);
    assert n / 262144 == hi;
  }

  /** Decoding inverts encoding: every string survives `encode` then `decode`. */
  lemma {:induction false} DecodeEncode(s: string)
    ensures Decode(Encode(s)) == Some(s)
  {
    if s != [] {
      var e := EncodeChar(s[0]);
      DecodeEncodedChar(s[0], Encode(s[1..]));
      assert (e + Encode(s[1..]))[|e|..] == Encode(s[1..]);
      DecodeEncode(s[1..]);
      assert [s[0]] + s[1..] == s;
    }
  }

  /** Encoding inverts decoding: the only octets that decode to `s` are those of `s`. */
  /** Bytes that are the encoding of some text always decode. */
  lemma EncodedBytesDecode(b: seq<Byte>)
    ensures (exists t :: b == Encode(t)) ==> Decode(b).Some?
  {
    if exists t :: b == Encode(t) {
      var t :| b == Encode(t);
      DecodeEncode(t);
    }
  }

  lemma {:induction false} EncodeDecode(b: seq<Byte>)
    requires Decode(b).Some?
    ensures Encode(Decode(b).value) == b
    decreases |b|
  {
    if b != [] {
      var c := DecodeFirst(b).value.0;
      var k := DecodeFirst(b).value.1;
      DecodedCharReencodes(b);
      EncodeDecode(b[k..]);
      var s := Decode(b).value;
      assert s[0] == c && s[1..] == Decode(b[k..]).value;
      assert b == b[..k] + b[k..];
    }
  }
}
