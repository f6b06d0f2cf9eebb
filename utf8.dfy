/**
 * UTF-8, the encoding the application/x-www-form-urlencoded serializer applies
 * to names and values before percent-encoding them. A Dafny `char` is a
 * Unicode scalar value, so every string has exactly one UTF-8 encoding.
 */
module Utf8 {
  import opened Options

  type byte = x: int | 0 <= x < 0x100

  predicate IsContinuation(b: byte) {
    0x80 <= b < 0xC0
  }

  /** The six payload bits of a continuation byte. */
  function Bits(b: byte): int
    requires IsContinuation(b)
  {
    b as int - 0x80
  }

  /** Values a Dafny `char` can hold: code points outside the surrogate range. */
  predicate IsScalarValue(n: int) {
    0 <= n < 0xD800 || 0xE000 <= n < 0x11_0000
  }

  /** The one-to-four-byte UTF-8 form of a scalar value. */
  function EncodeChar(c: char): (bs: seq<byte>)
    ensures 1 <= |bs| <= 4
    ensures |bs| == 1 <==> (c as int) < 0x80
    ensures |bs| == 1 ==> bs[0] == c as int
    ensures |bs| > 1 ==> 0xC2 <= bs[0] <= 0xF4 && forall i :: 1 <= i < |bs| ==> IsContinuation(bs[i])
  {
    var n := c as int;
    if n < 0x80 then [n]
    else if n < 0x800 then [0xC0 + n / 0x40, 0x80 + n % 0x40]
    else if n < 0x1_0000 then [0xE0 + n / 0x1000, 0x80 + n / 0x40 % 0x40, 0x80 + n % 0x40]
    else [0xF0 + n / 0x4_0000, 0x80 + n / 0x1000 % 0x40, 0x80 + n / 0x40 % 0x40, 0x80 + n % 0x40]
  }

  function Encode(s: string): seq<byte> {
    if s == [] then [] else EncodeChar(s[0]) + Encode(s[1..])
  }

  /**
   * Reads one well-formed UTF-8 sequence (no overlong forms, no surrogates,
   * nothing above U+10FFFF) at the start of `bs`; gives the character and the
   * number of bytes it occupies.
   */
  function DecodeChar(bs: seq<byte>): (r: Option<(char, nat)>)
    ensures r.Some? ==> 1 <= r.value.1 <= |bs|
  {
    if bs == [] then None
    else
      var b0: int := bs[0];
      if b0 < 0x80 then Some((b0 as char, 1))
      else if 0xC2 <= b0 < 0xE0 then
        if |bs| < 2 || !IsContinuation(bs[1]) then None
        else Some((((b0 - 0xC0) * 0x40 + Bits(bs[1])) as char, 2))
      else if 0xE0 <= b0 < 0xF0 then
        if |bs| < 3 || !IsContinuation(bs[1]) || !IsContinuation(bs[2]) then None
        else
          var n := (b0 - 0xE0) * 0x1000 + Bits(bs[1]) * 0x40 + Bits(bs[2]);
          if n < 0x800 || !IsScalarValue(n) then None else Some((n as char, 3))
      else if 0xF0 <= b0 < 0xF5 then
        if |bs| < 4 || !IsContinuation(bs[1]) || !IsContinuation(bs[2]) || !IsContinuation(bs[3]) then None
        else
          var n := (b0 - 0xF0) * 0x4_0000 + Bits(bs[1]) * 0x1000 + Bits(bs[2]) * 0x40 + Bits(bs[3]);
          if n < 0x1_0000 || !IsScalarValue(n) then None else Some((n as char, 4))
      else None
  }

  function Decode(bs: seq<byte>): Option<string>
    decreases |bs|
  {
    if bs == [] then Some("")
    else match DecodeChar(bs)
      case None => None
      case Some((c, k)) =>
        match Decode(bs[k..])
        case None => None
        case Some(s) => Some([c] + s)
  }

  /** The decoder reads back exactly the bytes the encoder wrote for one character. */
  lemma DecodeEncodedChar(c: char, rest: seq<byte>)
    ensures DecodeChar(EncodeChar(c) + rest) == Some((c, |EncodeChar(c)|))
  {
    var n := c as int;
    if n < 0x80 {
    } else if n < 0x800 {
      DecodeTwo(c, rest);
    } else if n < 0x1_0000 {
      DecodeThree(c, rest);
    } else {
      DecodeFour(c, rest);
    }
  }

  lemma DecodeTwo(c: char, rest: seq<byte>)
    requires 0x80 <= c as int < 0x800
    ensures DecodeChar(EncodeChar(c) + rest) == Some((c, 2))
  {
    var n := c as int;
    var q, r := n / 0x40, n % 0x40;
    assert n == q * 0x40 + r;
    var bs := EncodeChar(c) + rest;
    assert bs[0] == 0xC0 + q && bs[1] == 0x80 + r;
    assert (bs[0] - 0xC0) * 0x40 + Bits(bs[1]) == n;
  }

  lemma DecodeThree(c: char, rest: seq<byte>)
    requires 0x800 <= c as int < 0x1_0000
    ensures DecodeChar(EncodeChar(c) + rest) == Some((c, 3))
  {
    var n := c as int;
    var a, m := n / 0x1000, n % 0x1000;
    var b, r := m / 0x40, m % 0x40;
    assert n == a * 0x1000 + m && m == b * 0x40 + r;
    assert n / 0x40 == a * 0x40 + b;
    assert n / 0x40 % 0x40 == b;
    var bs := EncodeChar(c) + rest;
    assert bs[0] == 0xE0 + a && bs[1] == 0x80 + b && bs[2] == 0x80 + r;
    assert (bs[0] - 0xE0) * 0x1000 + Bits(bs[1]) * 0x40 + Bits(bs[2]) == n;
  }

  lemma DecodeFour(c: char, rest: seq<byte>)
    requires 0x1_0000 <= c as int
    ensures DecodeChar(EncodeChar(c) + rest) == Some((c, 4))
  {
    var n := c as int;
    var a, m := n / 0x4_0000, n % 0x4_0000;
    var b, m2 := m / 0x1000, m % 0x1000;
    var d, r := m2 / 0x40, m2 % 0x40;
    assert n == a * 0x4_0000 + m && m == b * 0x1000 + m2 && m2 == d * 0x40 + r;
    assert n / 0x1000 == a * 0x40 + b;
    assert n / 0x1000 % 0x40 == b;
    assert n / 0x40 == a * 0x1000 + b * 0x40 + d;
    assert n / 0x40 % 0x40 == d;
    var bs := EncodeChar(c) + rest;
    assert bs[0] == 0xF0 + a && bs[1] == 0x80 + b && bs[2] == 0x80 + d && bs[3] == 0x80 + r;
    assert (bs[0] - 0xF0) * 0x4_0000 + Bits(bs[1]) * 0x1000 + Bits(bs[2]) * 0x40 + Bits(bs[3]) == n;
  }

  /** UTF-8 decoding inverts UTF-8 encoding: the encoding is injective. */
  lemma {:induction false} DecodeEncode(s: string)
    ensures Decode(Encode(s)) == Some(s)
  {
    if s != [] {
      var e := EncodeChar(s[0]);
      DecodeEncodedChar(s[0], Encode(s[1..]));
      assert (e + Encode(s[1..]))[|e|..] == Encode(s[1..]);
      DecodeEncode(s[1..]);
      assert s == [s[0]] + s[1..];
    }
  }

  lemma {:induction false} EncodeConcat(a: string, b: string)
    ensures Encode(a + b) == Encode(a) + Encode(b)
  {
    if a == [] {
      assert a + b == b;
    } else {
      assert (a + b)[0] == a[0];
      assert (a + b)[1..] == a[1..] + b;
      EncodeConcat(a[1..], b);
    }
  }
}
