/** Strings as the wire sees them: byte sequences that are well-formed UTF-8 (RFC 3629, section 4). */
module Utf8 {
  import opened Bytes

  predicate Cont(b: byte) {
    0x80 <= b <= 0xBF
  }

  /** The length of the well-formed character a sequence starts with, or 0 if there is none. */
  function CharLength(s: seq<byte>): (n: nat)
    ensures n <= |s| && n <= 4
  {
    if s == [] then 0
    else if s[0] <= 0x7F then 1
    else if |s| < 2 then 0
    else if 0xC2 <= s[0] <= 0xDF then (if Cont(s[1]) then 2 else 0)
    else if |s| < 3 then 0
    else if 0xE0 <= s[0] <= 0xEF then
      (if SecondOf3(s[0], s[1]) && Cont(s[2]) then 3 else 0)
    else if |s| < 4 then 0
    else if 0xF0 <= s[0] <= 0xF4 then
      (if SecondOf4(s[0], s[1]) && Cont(s[2]) && Cont(s[3]) then 4 else 0)
    else 0
  }

  /** No overlong forms and no surrogates. */
  predicate SecondOf3(first: byte, second: byte) {
    if first == 0xE0 then 0xA0 <= second <= 0xBF
    else if first == 0xED then 0x80 <= second <= 0x9F
    else Cont(second)
  }

  /** No overlong forms and nothing beyond U+10FFFF. */
  predicate SecondOf4(first: byte, second: byte) {
    if first == 0xF0 then 0x90 <= second <= 0xBF
    else if first == 0xF4 then 0x80 <= second <= 0x8F
    else Cont(second)
  }

  predicate ValidUtf8(s: seq<byte>)
    decreases |s|
  {
    s == [] || (CharLength(s) > 0 && ValidUtf8(s[CharLength(s)..]))
  }

  type Str = s: seq<byte> | ValidUtf8(s) witness []

  lemma CharLengthPrefix(s: seq<byte>, t: seq<byte>)
    requires CharLength(s) > 0
    ensures CharLength(s + t) == CharLength(s)
  {
  }

  lemma {:induction false} ConcatValid(s: seq<byte>, t: seq<byte>)
    requires ValidUtf8(s) && ValidUtf8(t)
    ensures ValidUtf8(s + t)
    decreases |s|
  {
    hide CharLength;
    if s == [] {
      assert s + t == t;
    } else {
      var n := CharLength(s);
      CharLengthPrefix(s, t);
      ConcatValid(s[n..], t);
      assert (s + t)[n..] == s[n..] + t;
    }
  }

  // ---- validity is being the encoding of characters

  /** A Unicode scalar value: any code point but the surrogates. */
  type Scalar = c: int | 0 <= c < 0xD800 || 0xE000 <= c < 0x11_0000

  function EncodeScalar(c: Scalar): seq<byte> {
    if c < 0x80 then [c]
    else if c < 0x800 then [0xC0 + c / 0x40, 0x80 + c % 0x40]
    else if c < 0x1_0000 then [0xE0 + c / 0x1000, 0x80 + c / 0x40 % 0x40, 0x80 + c % 0x40]
    else [0xF0 + c / 0x4_0000, 0x80 + c / 0x1000 % 0x40, 0x80 + c / 0x40 % 0x40, 0x80 + c % 0x40]
  }

  function EncodeAll(cs: seq<Scalar>): seq<byte> {
    if cs == [] then [] else EncodeScalar(cs[0]) + EncodeAll(cs[1..])
  }

  lemma ScalarLength(c: Scalar)
    ensures CharLength(EncodeScalar(c)) == |EncodeScalar(c)| > 0
  {
  }

  /** The scalar value that a well-formed character encodes. */
  lemma FirstScalar(s: seq<byte>) returns (c: Scalar)
    requires CharLength(s) > 0
    ensures EncodeScalar(c) == s[..CharLength(s)]
  {
    var n := CharLength(s);
    if n == 1 {
      c := s[0];
    } else if n == 2 {
      c := TwoByte(s[0], s[1]);
    } else if n == 3 {
      c := ThreeByte(s[0], s[1], s[2]);
    } else {
      c := FourByte(s[0], s[1], s[2], s[3]);
    }
  }

  lemma TwoByte(a: byte, b: byte) returns (c: Scalar)
    requires 0xC2 <= a <= 0xDF && Cont(b)
    ensures EncodeScalar(c) == [a, b]
  {
    c := (a - 0xC0) * 0x40 + (b - 0x80);
  }

  lemma ThreeByte(a: byte, b: byte, d: byte) returns (c: Scalar)
    requires 0xE0 <= a <= 0xEF && SecondOf3(a, b) && Cont(d)
    ensures EncodeScalar(c) == [a, b, d]
  {
    c := (a - 0xE0) * 0x1000 + (b - 0x80) * 0x40 + (d - 0x80);
  }

  lemma FourByte(a: byte, b: byte, d: byte, e: byte) returns (c: Scalar)
    requires 0xF0 <= a <= 0xF4 && SecondOf4(a, b) && Cont(d) && Cont(e)
    ensures EncodeScalar(c) == [a, b, d, e]
  {
    c := (a - 0xF0) * 0x4_0000 + (b - 0x80) * 0x1000 + (d - 0x80) * 0x40 + (e - 0x80);
    FourParts(c, a - 0xF0, b - 0x80, d - 0x80, e - 0x80);
  }

  lemma FourParts(c: nat, x: nat, y: nat, z: nat, w: nat)
    requires y < 0x40 && z < 0x40 && w < 0x40
    requires c == x * 0x4_0000 + y * 0x1000 + z * 0x40 + w
    ensures c / 0x4_0000 == x && c / 0x1000 % 0x40 == y && c / 0x40 % 0x40 == z && c % 0x40 == w
  {
    DivUnique(c, 0x4_0000, x, y * 0x1000 + z * 0x40 + w);
    DivUnique(c, 0x1000, x * 0x40 + y, z * 0x40 + w);
    DivUnique(x * 0x40 + y, 0x40, x, y);
    DivUnique(c, 0x40, x * 0x1000 + y * 0x40 + z, w);
    DivUnique(x * 0x1000 + y * 0x40 + z, 0x40, x * 0x40 + y, z);
  }

  /** A byte sequence is valid exactly when it is the encoding of some characters. */
  lemma ValidIsEncoded(s: seq<byte>)
    ensures ValidUtf8(s) <==> exists cs :: EncodeAll(cs) == s
  {
    if ValidUtf8(s) {
      var cs := DecodeAll(s);
    }
    forall cs
      ensures ValidUtf8(EncodeAll(cs))
    {
      EncodedValid(cs);
    }
  }

  lemma {:induction false} EncodedValid(cs: seq<Scalar>)
    ensures ValidUtf8(EncodeAll(cs))
  {
    hide EncodeScalar, CharLength;
    if cs != [] {
      var first, rest := EncodeScalar(cs[0]), EncodeAll(cs[1..]);
      ScalarLength(cs[0]);
      CharLengthPrefix(first, rest);
      EncodedValid(cs[1..]);
      assert (first + rest)[|first|..] == rest;
    }
  }

  lemma {:induction false} DecodeAll(s: seq<byte>) returns (cs: seq<Scalar>)
    requires ValidUtf8(s)
    ensures EncodeAll(cs) == s
    decreases |s|
  {
    hide EncodeScalar, CharLength;
    cs := [];
    if s != [] {
      var n := CharLength(s);
      var first := FirstScalar(s);
      var rest := DecodeAll(s[n..]);
      cs := [first] + rest;
      assert cs[1..] == rest && s == s[..n] + s[n..];
    }
  }

  lemma {:induction false} AsciiValid(s: seq<byte>)
    requires forall i :: 0 <= i < |s| ==> s[i] <= 0x7F
    ensures ValidUtf8(s)
  {
    if s != [] {
      AsciiValid(s[1..]);
    }
  }

  /** The bytes of an ASCII literal. */
  function Ascii(text: string): (s: Str)
    requires forall i :: 0 <= i < |text| ==> text[i] as int <= 0x7F
    ensures |s| == |text| && forall i :: 0 <= i < |s| ==> s[i] == text[i] as int
  {
    var s: seq<byte> := seq<byte>(|text|, i requires 0 <= i < |text| => text[i] as int);
    AsciiValid(s);
    s
  }
}
