/**
 * The base 64 encoding of section 4 of RFC 4648 (alphabet `A-Z a-z 0-9 + /`,
 * `=` padding), with the strict reading of section 3.3: a character outside
 * the alphabet makes the input invalid. Like Python's decoder, the unused low
 * bits of the last padded group are ignored rather than required to be zero.
 */
module Base64 {
  import opened Wrappers
  import opened Bytes

  type Sextet = x: int | 0 <= x < 64

  const Pad: char := '='

  /** The alphabet character for a six-bit value (table 1 of RFC 4648). */
  function Digit(v: Sextet): (c: char)
    ensures c != Pad
  {
    if v < 26 then (65 + v) as char
    else if v < 52 then (97 + v - 26) as char
    else if v < 62 then (48 + v - 52) as char
    else if v == 62 then '+'
    else '/'
  }

  /** The six-bit value of an alphabet character, None for any other character. */
  function Value(c: char): (r: Option<Sextet>)
    ensures r.Some? ==> Digit(r.value) == c
    ensures c == Pad ==> r.None?
  {
    if 'A' <= c <= 'Z' then Some(c as int - 65)
    else if 'a' <= c <= 'z' then Some(c as int - 97 + 26)
    else if '0' <= c <= '9' then Some(c as int - 48 + 52)
    else if c == '+' then Some(62)
    else if c == '/' then Some(63)
    else None
  }

  /** Every alphabet character reads back as the value it was drawn for. */
  lemma ValueOfDigit(v: Sextet)
    ensures Value(Digit(v)) == Some(v)
  {
  }

  predicate IsDigit(c: char)
  {
    Value(c).Some?
  }

  /** The four characters of one full 24-bit group (section 4 of RFC 4648). */
  function EncodeGroup(b0: Byte, b1: Byte, b2: Byte): (s: string)
    ensures |s| == 4 && s[2] != Pad && s[3] != Pad
  {
    [Digit(b0 / 4), Digit((b0 % 4) * 16 + b1 / 16), Digit((b1 % 16) * 4 + b2 / 64), Digit(b2 % 64)]
  }

  /** A final quantum of two octets: three characters and one `=`. */
  function EncodeTwo(b0: Byte, b1: Byte): (s: string)
    ensures |s| == 4 && s[2] != Pad && s[3] == Pad
  {
    [Digit(b0 / 4), Digit((b0 % 4) * 16 + b1 / 16), Digit((b1 % 16) * 4), Pad]
  }

  /** A final quantum of one octet: two characters and `==`. */
  function EncodeOne(b0: Byte): (s: string)
    ensures |s| == 4 && s[2] == Pad && s[3] == Pad
  {
    [Digit(b0 / 4), Digit((b0 % 4) * 16), Pad, Pad]
  }

  /** `base64.b64encode(b)` as text. */
  function Encode(b: seq<Byte>): (s: string)
    ensures |s| % 4 == 0
    ensures |s| == 0 <==> |b| == 0
  {
    if |b| == 0 then ""
    else if |b| == 1 then EncodeOne(b[0])
    else if |b| == 2 then EncodeTwo(b[0], b[1])
    else
      var group := EncodeGroup(b[0], b[1], b[2]);
      var rest := Encode(b[3..]);
      assert |group + rest| == |rest| + 4;
      group + rest
  }

  /** The three octets carried by four six-bit values. */
  function Octets(v0: Sextet, v1: Sextet, v2: Sextet, v3: Sextet): seq<Byte>
  {
    [v0 * 4 + v1 / 16, (v1 % 16) * 16 + v2 / 4, (v2 % 4) * 64 + v3]
  }

  /** A group of four alphabet characters, or None. */
  function DecodeFullGroup(q: string): (r: Option<seq<Byte>>)
    requires |q| == 4
    ensures r.Some? ==> |r.value| == 3
    ensures r.Some? <==> IsDigit(q[0]) && IsDigit(q[1]) && IsDigit(q[2]) && IsDigit(q[3])
  {
    if IsDigit(q[0]) && IsDigit(q[1]) && IsDigit(q[2]) && IsDigit(q[3]) then
      Some(Octets(Value(q[0]).value, Value(q[1]).value, Value(q[2]).value, Value(q[3]).value))
    else None
  }

  /** The final group, which may end in `==` (one octet) or `=` (two octets). */
  function DecodeLastGroup(q: string): (r: Option<seq<Byte>>)
    requires |q| == 4
    ensures r.Some? ==> 1 <= |r.value| <= 3
  {
    if q[2] == Pad && q[3] == Pad then
      if IsDigit(q[0]) && IsDigit(q[1]) then
        Some(Octets(Value(q[0]).value, Value(q[1]).value, 0, 0)[..1])
      else None
    else if q[3] == Pad then
      if IsDigit(q[0]) && IsDigit(q[1]) && IsDigit(q[2]) then
        Some(Octets(Value(q[0]).value, Value(q[1]).value, Value(q[2]).value, 0)[..2])
      else None
    else DecodeFullGroup(q)
  }

  /** `base64.b64decode(s)`, None where a strict decoder reports an error. */
  function Decode(s: string): (r: Option<seq<Byte>>)
    ensures r.Some? ==> |s| % 4 == 0
    decreases |s|
  {
    if |s| == 0 then Some([])
    else if |s| < 4 then None
    else if |s| == 4 then DecodeLastGroup(s)
    else
      match DecodeFullGroup(s[..4])
      case None => None
      case Some(g) =>
        match Decode(s[4..])
        case None => None
        case Some(rest) => Some(g + rest)
  }

  /** The octet arithmetic of a group: the four six-bit slices put back together. */
  lemma GroupRoundTrip(b0: Byte, b1: Byte, b2: Byte)
    ensures Octets(b0 / 4, (b0 % 4) * 16 + b1 / 16, (b1 % 16) * 4 + b2 / 64, b2 % 64) == [b0, b1, b2]
  {
    assert ((b0 % 4) * 16 + b1 / 16) / 16 == b0 % 4;
    assert ((b0 % 4) * 16 + b1 / 16) % 16 == b1 / 16;
    assert ((b1 % 16) * 4 + b2 / 64) / 4 == b1 % 16;
    assert ((b1 % 16) * 4 + b2 / 64) % 4 == b2 / 64;
  }

  /** One trailing octet: `xx==`. */
  lemma OneOctetRoundTrip(b0: Byte)
    ensures DecodeLastGroup(EncodeOne(b0)) == Some([b0])
  {
    var q := EncodeOne(b0);
    var v0: Sextet, v1: Sextet := b0 / 4, (b0 % 4) * 16;
    ValueOfDigit(v0);
    ValueOfDigit(v1);
    assert Value(q[0]) == Some(v0) && Value(q[1]) == Some(v1);
    assert v0 * 4 + v1 / 16 == b0;
    assert Octets(v0, v1, 0, 0)[..1] == [b0];
  }

  /** Two trailing octets: `xxx=`. */
  lemma TwoOctetsRoundTrip(b0: Byte, b1: Byte)
    ensures DecodeLastGroup(EncodeTwo(b0, b1)) == Some([b0, b1])
  {
    var q := EncodeTwo(b0, b1);
    var v0: Sextet, v1: Sextet, v2: Sextet := b0 / 4, (b0 % 4) * 16 + b1 / 16, (b1 % 16) * 4;
    ValueOfDigit(v0);
    ValueOfDigit(v1);
    ValueOfDigit(v2);
    assert Value(q[0]) == Some(v0) && Value(q[1]) == Some(v1) && Value(q[2]) == Some(v2);
    assert v0 * 4 + v1 / 16 == b0;
    assert (v1 % 16) * 16 + v2 / 4 == b1;
    assert Octets(v0, v1, v2, 0)[..2] == [b0, b1];
  }

  /** A full group of three octets decodes back to them. */
  lemma FullGroupRoundTrip(b0: Byte, b1: Byte, b2: Byte)
    ensures DecodeFullGroup(EncodeGroup(b0, b1, b2)) == Some([b0, b1, b2])
  {
    ValueOfDigit(b0 / 4);
    ValueOfDigit((b0 % 4) * 16 + b1 / 16);
    ValueOfDigit((b1 % 16) * 4 + b2 / 64);
    ValueOfDigit(b2 % 64);
    GroupRoundTrip(b0, b1, b2);
  }

  /** Decoding inverts encoding: `b64decode(b64encode(b)) == b` for every octet string. */
  lemma {:induction false} DecodeEncode(b: seq<Byte>)
    ensures Decode(Encode(b)) == Some(b)
    decreases |b|
  {
    if |b| == 1 {
      OneOctetRoundTrip(b[0]);
      assert b == [b[0]];
    } else if |b| == 2 {
      TwoOctetsRoundTrip(b[0], b[1]);
      assert b == [b[0], b[1]];
    } else if |b| >= 3 {
      var e := Encode(b);
      var g := EncodeGroup(b[0], b[1], b[2]);
      FullGroupRoundTrip(b[0], b[1], b[2]);
      assert b == [b[0], b[1], b[2]] + b[3..];
      if |b| == 3 {
        assert e == g + Encode([]);
        assert e == g;
        assert DecodeLastGroup(g) == DecodeFullGroup(g);
        assert Decode(e) == DecodeLastGroup(e);
        assert b == [b[0], b[1], b[2]];
      } else {
        DecodeEncode(b[3..]);
        assert e[..4] == g && e[4..] == Encode(b[3..]);
      }
    }
  }

  /** A character that is neither in the alphabet nor padding makes the whole input invalid. */
  lemma {:induction false} ForeignCharRejected(s: string, i: nat)
    requires i < |s| && !IsDigit(s[i]) && s[i] != Pad
    ensures Decode(s) == None
    decreases |s|
  {
    if |s| > 4 {
      if i >= 4 {
        ForeignCharRejected(s[4..], i - 4);
      } else {
        assert s[..4][i] == s[i];
      }
    }
  }
}
