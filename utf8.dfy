/**
 * UTF-8 (RFC 3629), the encoding of Rust's `str`. Used for the byte layout of the
 * fold table, for byte lengths (`str::len`) and for byte offsets (`char_indices`).
 */
module Utf8 {
  import opened Wrappers

  type Byte = b: int | 0 <= b < 256

  predicate IsScalarValue(n: int) {
    0 <= n < 0xD800 || 0xE000 <= n < 0x110000
  }

  /** Number of bytes UTF-8 uses for `c` (`char::len_utf8`). */
  function CharLength(c: char): (n: nat)
    ensures 1 <= n <= 4
  {
    var v := c as int;
    if v < 0x80 then 1 else if v < 0x800 then 2 else if v < 0x10000 then 3 else 4
  }

  /** Byte length of a string (`str::len`). */
  function Length(s: seq<char>): nat {
    if s == [] then 0 else CharLength(s[0]) + Length(s[1..])
  }

  function EncodeChar(c: char): (b: seq<Byte>)
    ensures |b| == CharLength(c)
  {
    var v := c as int;
    if v < 0x80 then [v]
    else if v < 0x800 then [0xC0 + v / 0x40, 0x80 + v % 0x40]
    else if v < 0x10000 then [0xE0 + v / 0x1000, 0x80 + (v / 0x40) % 0x40, 0x80 + v % 0x40]
    else [0xF0 + v / 0x40000, 0x80 + (v / 0x1000) % 0x40, 0x80 + (v / 0x40) % 0x40, 0x80 + v % 0x40]
  }

  function Encode(s: seq<char>): seq<Byte> {
    if s == [] then [] else EncodeChar(s[0]) + Encode(s[1..])
  }

  predicate IsContinuation(b: Byte) {
    0x80 <= b < 0xC0
  }

  /**
   * Decodes the first character of `b`: the character and the number of bytes it
   * takes, or None for anything that is not the shortest encoding of a scalar value.
   */
  function DecodeChar(b: seq<Byte>): (r: Option<(char, nat)>)
    ensures r.Some? ==> 1 <= r.value.1 <= |b|
  {
    if |b| == 0 then None
    else
      var b0: int := b[0];
      if b0 < 0x80 then Some((b0 as char, 1))
      else if b0 < 0xC0 then None
      else if b0 < 0xE0 then
        if |b| < 2 || !IsContinuation(b[1]) then None
        else
          var v := Combine2(b0 - 0xC0, b[1] - 0x80);
          if v < 0x80 then None else Some((v as char, 2))
      else if b0 < 0xF0 then
        if |b| < 3 || !IsContinuation(b[1]) || !IsContinuation(b[2]) then None
        else
          var v := Combine3(b0 - 0xE0, b[1] - 0x80, b[2] - 0x80);
          if v < 0x800 || !IsScalarValue(v) then None else Some((v as char, 3))
      else
        if |b| < 4 || !IsContinuation(b[1]) || !IsContinuation(b[2]) || !IsContinuation(b[3]) then None
        else
          var v := Combine4(b0 - 0xF0, b[1] - 0x80, b[2] - 0x80, b[3] - 0x80);
          if v < 0x10000 || !IsScalarValue(v) then None else Some((v as char, 4))
  }

  /** The code point carried by a lead-byte payload `x` and continuation payloads. */
  function Combine2(x: int, y: int): int { x * 0x40 + y }
  function Combine3(x: int, y: int, z: int): int { x * 0x1000 + y * 0x40 + z }
  function Combine4(x: int, y: int, z: int, w: int): int { x * 0x40000 + y * 0x1000 + z * 0x40 + w }

  /** `str::from_utf8` followed by `chars`: None when `b` is not valid UTF-8. */
  function Decode(b: seq<Byte>): Option<seq<char>>
    decreases |b|
  {
    if b == [] then Some([])
    else match DecodeChar(b)
      case None => None
      case Some((c, n)) =>
        match Decode(b[n..])
        case None => None
        case Some(rest) => Some([c] + rest)
  }

  lemma DivMod64(x: int, q: int, r: int)
    requires 0 <= r < 0x40 && x == q * 0x40 + r
    ensures x / 0x40 == q && x % 0x40 == r
  {
  }

  lemma DecodeEncodeTwo(c: char, rest: seq<Byte>)
    requires 0x80 <= c as int < 0x800
    ensures DecodeChar(EncodeChar(c) + rest) == Some((c, 2))
  {
    var v := c as int;
    var b := EncodeChar(c) + rest;
    assert b[0] == 0xC0 + v / 0x40 && b[1] == 0x80 + v % 0x40;
    assert Combine2(b[0] - 0xC0, b[1] - 0x80) == v;
  }

  lemma DecodeEncodeThree(c: char, rest: seq<Byte>)
    requires 0x800 <= c as int < 0x10000
    ensures DecodeChar(EncodeChar(c) + rest) == Some((c, 3))
  {
    var v := c as int;
    var b := EncodeChar(c) + rest;
    assert b[0] == 0xE0 + v / 0x1000 && b[1] == 0x80 + (v / 0x40) % 0x40 && b[2] == 0x80 + v % 0x40;
    DivMod64(v / 0x40, v / 0x1000, (v / 0x40) % 0x40);
    assert Combine3(b[0] - 0xE0, b[1] - 0x80, b[2] - 0x80) == v;
  }

  /** A value is the sum of its four base-64 digits, as the four-byte form splits it. */
  lemma Digits4(v: int)
    requires 0 <= v
    ensures v == Combine4(v / 0x40000, (v / 0x1000) % 0x40, (v / 0x40) % 0x40, v % 0x40)
  {
    DivMod64(v / 0x40, v / 0x1000, (v / 0x40) % 0x40);
    DivMod64(v / 0x1000, v / 0x40000, (v / 0x1000) % 0x40);
  }

  lemma DecodeEncodeFour(c: char, rest: seq<Byte>)
    requires 0x10000 <= c as int
    ensures DecodeChar(EncodeChar(c) + rest) == Some((c, 4))
  {
    var v := c as int;
    var b := EncodeChar(c) + rest;
    assert b[0] == 0xF0 + v / 0x40000 && b[1] == 0x80 + (v / 0x1000) % 0x40;
    assert b[2] == 0x80 + (v / 0x40) % 0x40 && b[3] == 0x80 + v % 0x40;
    Digits4(v);
  }

  lemma DecodeEncodeChar(c: char, rest: seq<Byte>)
    ensures DecodeChar(EncodeChar(c) + rest) == Some((c, CharLength(c)))
  {
    var v := c as int;
    if v < 0x80 {
    } else if v < 0x800 {
      DecodeEncodeTwo(c, rest);
    } else if v < 0x10000 {
      DecodeEncodeThree(c, rest);
    } else {
      DecodeEncodeFour(c, rest);
    }
  }

  /** Decoding an encoding gives the string back. */
  lemma {:induction false} DecodeEncode(s: seq<char>)
    ensures Decode(Encode(s)) == Some(s)
  {
    if s != [] {
      var b := Encode(s);
      assert b == EncodeChar(s[0]) + Encode(s[1..]);
      DecodeEncodeChar(s[0], Encode(s[1..]));
      assert b[CharLength(s[0])..] == Encode(s[1..]);
      DecodeEncode(s[1..]);
      assert Decode(b) == Some([s[0]] + s[1..]);
      assert [s[0]] + s[1..] == s;
    }
  }

  lemma EncodeDecodeChar(b: seq<Byte>)
    requires DecodeChar(b).Some?
    ensures EncodeChar(DecodeChar(b).value.0) == b[..DecodeChar(b).value.1]
  {
    var b0: int := b[0];
    if b0 < 0x80 {
    } else if b0 < 0xE0 {
      var v := Combine2(b0 - 0xC0, b[1] - 0x80);
      DivMod64(v, b0 - 0xC0, b[1] - 0x80);
    } else if b0 < 0xF0 {
      var v := Combine3(b0 - 0xE0, b[1] - 0x80, b[2] - 0x80);
      DivMod64(v, (b0 - 0xE0) * 0x40 + b[1] - 0x80, b[2] - 0x80);
      DivMod64(v / 0x40, b0 - 0xE0, b[1] - 0x80);
      assert v / 0x1000 == b0 - 0xE0;
    } else {
      var v := Combine4(b0 - 0xF0, b[1] - 0x80, b[2] - 0x80, b[3] - 0x80);
      DivMod64(v, ((b0 - 0xF0) * 0x40 + b[1] - 0x80) * 0x40 + b[2] - 0x80, b[3] - 0x80);
      DivMod64(v / 0x40, (b0 - 0xF0) * 0x40 + b[1] - 0x80, b[2] - 0x80);
      DivMod64(v / 0x1000, b0 - 0xF0, b[1] - 0x80);
      assert v / 0x40000 == b0 - 0xF0;
    }
  }

  /** A byte string that decodes is the encoding of what it decodes to. */
  lemma {:induction false} EncodeDecode(b: seq<Byte>)
    requires Decode(b).Some?
    ensures Encode(Decode(b).value) == b
    decreases |b|
  {
    if b != [] {
      var n := DecodeChar(b).value.1;
      EncodeDecodeChar(b);
      EncodeDecode(b[n..]);
      assert b == b[..n] + b[n..];
    }
  }

  lemma {:induction false} EncodeLength(s: seq<char>)
    ensures |Encode(s)| == Length(s)
  {
    if s != [] {
      EncodeLength(s[1..]);
    }
  }

  lemma {:induction false} EncodeAppend(a: seq<char>, b: seq<char>)
    ensures Encode(a + b) == Encode(a) + Encode(b)
  {
    if a == [] {
      assert a + b == b;
    } else {
      assert (a + b)[1..] == a[1..] + b;
      EncodeAppend(a[1..], b);
    }
  }

  /** Every char takes at least one byte, so the char count never exceeds the byte length. */
  lemma {:induction false} CharCountAtMostLength(s: seq<char>)
    ensures |s| <= Length(s)
  {
    if s != [] {
      CharCountAtMostLength(s[1..]);
    }
  }

  lemma {:induction false} LengthAppend(a: seq<char>, b: seq<char>)
    ensures Length(a + b) == Length(a) + Length(b)
  {
    if a == [] {
      assert a + b == b;
    } else {
      assert (a + b)[1..] == a[1..] + b;
      LengthAppend(a[1..], b);
    }
  }

  /** Every ASCII char takes one byte, so an ASCII string's byte length is its char count. */
  lemma {:induction false} AsciiLength(s: seq<char>)
    requires forall i :: 0 <= i < |s| ==> s[i] as int < 0x80
    ensures Length(s) == |s|
  {
    if s != [] {
      AsciiLength(s[1..]);
    }
  }
}
