/** `base64_encode` and a strict decoder for it (section 4 of RFC 4648). */
module Base64 {
  import opened Results
  import opened Bytes

  type Sextet = x: int | 0 <= x < 64

  /** The standard alphabet, by position. */
  function Letter(i: Sextet): (c: char)
    ensures c != '='
  {
    if i < 26 then ('A' as int + i) as char
    else if i < 52 then ('a' as int + i - 26) as char
    else if i < 62 then ('0' as int + i - 52) as char
    else if i == 62 then '+'
    else '/'
  }

  function Value(c: char): Option<Sextet> {
    if 'A' <= c <= 'Z' then Some(c as int - 'A' as int)
    else if 'a' <= c <= 'z' then Some(c as int - 'a' as int + 26)
    else if '0' <= c <= '9' then Some(c as int - '0' as int + 52)
    else if c == '+' then Some(62)
    else if c == '/' then Some(63)
    else None
  }

  lemma LetterValue(i: Sextet)
    ensures Value(Letter(i)) == Some(i)
  {
  }

  lemma ValueLetter(c: char)
    ensures Value(c).Some? ==> Letter(Value(c).value) == c
  {
  }

  /** The alphabet in order: capitals, small letters, digits, plus and slash. */
  lemma CapitalLetters(i: nat)
    requires i < 26
    ensures Letter(i) == "ABCDEFGHIJKLMNOPQRSTUVWXYZ"[i]
  {
    assert i == 0 || i == 1 || i == 2 || i == 3 || i == 4 || i == 5 || i == 6 || i == 7 || i == 8 ||
           i == 9 || i == 10 || i == 11 || i == 12 || i == 13 || i == 14 || i == 15 || i == 16 || i == 17 ||
           i == 18 || i == 19 || i == 20 || i == 21 || i == 22 || i == 23 || i == 24 || i == 25;
  }

  lemma SmallLetters(i: nat)
    requires i < 26
    ensures Letter(26 + i) == "abcdefghijklmnopqrstuvwxyz"[i]
  {
    assert i == 0 || i == 1 || i == 2 || i == 3 || i == 4 || i == 5 || i == 6 || i == 7 || i == 8 ||
           i == 9 || i == 10 || i == 11 || i == 12 || i == 13 || i == 14 || i == 15 || i == 16 || i == 17 ||
           i == 18 || i == 19 || i == 20 || i == 21 || i == 22 || i == 23 || i == 24 || i == 25;
  }

  lemma DigitsAndSigns(i: nat)
    requires i < 12
    ensures Letter(52 + i) == "0123456789+/"[i]
  {
    assert i == 0 || i == 1 || i == 2 || i == 3 || i == 4 || i == 5 || i == 6 || i == 7 || i == 8 ||
           i == 9 || i == 10 || i == 11;
  }

  // ---- the encoder

  /** The four characters of a chunk of one to three bytes. */
  function ChunkText(c: seq<byte>): (t: string)
    requires 1 <= |c| <= 3
    ensures |t| == 4
  {
    var n := Packed(c);
    [Letter(n / 0x4_0000 % 64), Letter(n / 0x1000 % 64),
     if |c| > 1 then Letter(n / 0x40 % 64) else '=',
     if |c| > 2 then Letter(n % 64) else '=']
  }

  /** The chunk as a 24-bit number, missing bytes as zero. */
  function Packed(c: seq<byte>): (n: nat)
    requires 1 <= |c| <= 3
    ensures n < 0x100_0000
  {
    c[0] as int * 0x1_0000 + (if |c| > 1 then c[1] as int * 0x100 else 0) + (if |c| > 2 then c[2] as int else 0)
  }

  function ChunkLength(data: seq<byte>): (n: nat)
    ensures n <= 3 && n <= |data|
  {
    if |data| < 3 then |data| else 3
  }

  function Encoded(data: seq<byte>): string
    decreases |data|
  {
    if data == [] then ""
    else ChunkText(data[..ChunkLength(data)]) + Encoded(data[ChunkLength(data)..])
  }

  method Base64Encode(data: seq<byte>) returns (out: string)
    ensures out == Encoded(data)
  {
    hide ChunkText;
    out := "";
    var i := 0;
    while i < |data|
      invariant i <= |data| && out + Encoded(data[i..]) == Encoded(data)
    {
      var end := if i + 3 <= |data| then i + 3 else |data|;
      var chunk := data[i..end];
      assert data[i..][..end - i] == chunk && data[i..][end - i..] == data[end..];
      var text := ChunkChars(chunk);
      assert out + Encoded(data[i..]) == (out + text) + Encoded(data[end..]);
      out := out + text;
      i := end;
    }
    assert out + "" == out;
  }

  method ChunkChars(chunk: seq<byte>) returns (text: string)
    requires 1 <= |chunk| <= 3
    ensures text == ChunkText(chunk)
  {
    var b0 := chunk[0];
    var b1 := if |chunk| > 1 then chunk[1] else 0;
    var b2 := if |chunk| > 2 then chunk[2] else 0;
    var n := b0 as int * 0x1_0000 + b1 as int * 0x100 + b2 as int;
    text := [Letter(n / 0x4_0000 % 64)];
    text := text + [Letter(n / 0x1000 % 64)];
    text := text + [if |chunk| > 1 then Letter(n / 0x40 % 64) else '='];
    text := text + [if |chunk| > 2 then Letter(n % 64) else '='];
  }

  // ---- the strict decoder

  function Bytes3(a: Sextet, b: Sextet, c: Sextet, d: Sextet): (s: seq<byte>)
    ensures |s| == 3
  {
    [a * 4 + b / 16, b % 16 * 16 + c / 4, c % 4 * 64 + d]
  }

  /** One quadruple; padding only with zero bits under it. */
  function QuadBytes(t: string): (r: Option<seq<byte>>)
    requires |t| == 4
    ensures r.Some? ==> 1 <= |r.value| <= 3
  {
    var a, b := Value(t[0]), Value(t[1]);
    if a.None? || b.None? then None
    else if t[3] != '=' then
      var c, d := Value(t[2]), Value(t[3]);
      if c.None? || d.None? then None else Some(Bytes3(a.value, b.value, c.value, d.value))
    else if t[2] != '=' then
      var c := Value(t[2]);
      if c.None? || c.value % 4 != 0 then None else Some(Bytes3(a.value, b.value, c.value, 0)[..2])
    else if b.value % 16 != 0 then None
    else Some(Bytes3(a.value, b.value, 0, 0)[..1])
  }

  /** The strict decoder: whole quadruples, and a short one only at the end. */
  function Decoded(t: string): Option<seq<byte>>
    decreases |t|
  {
    if t == "" then Some([])
    else if |t| < 4 then None
    else
      var first := QuadBytes(t[..4]);
      if first.None? then None
      else if |first.value| < 3 then (if |t| == 4 then first else None)
      else
        var rest := Decoded(t[4..]);
        if rest.None? then None else Some(first.value + rest.value)
  }

  // ---- one chunk

  /** The four sextets of three bytes, each byte given by its two parts. */
  lemma Sextets(n: nat, p: Sextet, q: nat, r: nat, s: nat, t: nat, u: Sextet)
    requires q < 4 && r < 16 && s < 16 && t < 4
    requires n == 0x4_0000 * p + 0x1_0000 * q + 0x1000 * r + 0x100 * s + 64 * t + u
    ensures n / 0x4_0000 % 64 == p && n / 0x1000 % 64 == q * 16 + r && n / 0x40 % 64 == s * 4 + t && n % 64 == u
  {
    DivUnique(n, 0x4_0000, p, 0x1_0000 * q + 0x1000 * r + 0x100 * s + 64 * t + u);
    DivUnique(n, 0x1000, 64 * p + 16 * q + r, 0x100 * s + 64 * t + u);
    DivUnique(64 * p + 16 * q + r, 64, p, 16 * q + r);
    DivUnique(n, 64, 4096 * p + 1024 * q + 64 * r + 4 * s + t, u);
    DivUnique(4096 * p + 1024 * q + 64 * r + 4 * s + t, 64, 64 * p + 16 * q + r, 4 * s + t);
  }

  lemma Regroup(b0: byte, b1: byte, b2: byte)
    ensures var n := b0 as int * 0x1_0000 + b1 as int * 0x100 + b2 as int;
            && n / 0x4_0000 % 64 == b0 as int / 4
            && n / 0x1000 % 64 == b0 as int % 4 * 16 + b1 as int / 16
            && n / 0x40 % 64 == b1 as int % 16 * 4 + b2 as int / 64
            && n % 64 == b2 as int % 64
  {
    Sextets(b0 as int * 0x1_0000 + b1 as int * 0x100 + b2 as int, b0 as int / 4, b0 as int % 4,
            b1 as int / 16, b1 as int % 16, b2 as int / 64, b2 as int % 64);
  }

  lemma Rejoin(b0: byte, b1: byte, b2: byte)
    ensures Bytes3(b0 as int / 4, b0 as int % 4 * 16 + b1 as int / 16, b1 as int % 16 * 4 + b2 as int / 64,
                   b2 as int % 64) == [b0, b1, b2]
  {
  }

  lemma ThreeRead(b0: byte, b1: byte, b2: byte)
    ensures QuadBytes(ChunkText([b0, b1, b2])) == Some([b0, b1, b2])
  {
    hide Letter, Value, Bytes3;
    Regroup(b0, b1, b2);
    Rejoin(b0, b1, b2);
    LetterValue(b0 as int / 4);
    LetterValue(b0 as int % 4 * 16 + b1 as int / 16);
    LetterValue(b1 as int % 16 * 4 + b2 as int / 64);
    LetterValue(b2 as int % 64);
  }

  lemma TwoRead(b0: byte, b1: byte)
    ensures QuadBytes(ChunkText([b0, b1])) == Some([b0, b1])
  {
    hide Letter, Value, Bytes3;
    var b := b0 as int % 4 * 16 + b1 as int / 16;
    var c := b1 as int % 16 * 4;
    Regroup(b0, b1, 0);
    Rejoin(b0, b1, 0);
    assert [b0, b1, 0][..2] == [b0, b1];
    LetterValue(b0 as int / 4);
    LetterValue(b);
    LetterValue(c);
  }

  lemma OneRead(b0: byte)
    ensures QuadBytes(ChunkText([b0])) == Some([b0])
  {
    hide Letter, Value, Bytes3;
    var b := b0 as int % 4 * 16;
    Regroup(b0, 0, 0);
    Rejoin(b0, 0, 0);
    assert [b0, 0, 0][..1] == [b0];
    LetterValue(b0 as int / 4);
    LetterValue(b);
  }

  lemma ChunkReads(c: seq<byte>)
    requires 1 <= |c| <= 3
    ensures QuadBytes(ChunkText(c)) == Some(c)
  {
    hide ChunkText, QuadBytes;
    if |c| == 3 {
      ThreeRead(c[0], c[1], c[2]);
      assert c == [c[0], c[1], c[2]];
    } else if |c| == 2 {
      TwoRead(c[0], c[1]);
      assert c == [c[0], c[1]];
    } else {
      OneRead(c[0]);
      assert c == [c[0]];
    }
  }

  lemma Ungroup(a: Sextet, b: Sextet, c: Sextet, d: Sextet)
    ensures var s := Bytes3(a, b, c, d);
            && s[0] as int / 4 == a && s[0] as int % 4 * 16 + s[1] as int / 16 == b
            && s[1] as int % 16 * 4 + s[2] as int / 64 == c && s[2] as int % 64 == d
            && (c % 4 == 0 && d == 0 ==> s[2] == 0)
            && (b % 16 == 0 && c == 0 ==> s[1] == 0)
  {
  }

  lemma ThreeWritten(a: Sextet, b: Sextet, c: Sextet, d: Sextet)
    ensures ChunkText(Bytes3(a, b, c, d)) == [Letter(a), Letter(b), Letter(c), Letter(d)]
  {
    hide Letter, Bytes3;
    Ungroup(a, b, c, d);
    var s := Bytes3(a, b, c, d);
    Regroup(s[0], s[1], s[2]);
  }

  lemma TwoWritten(a: Sextet, b: Sextet, c: Sextet)
    requires c % 4 == 0
    ensures ChunkText(Bytes3(a, b, c, 0)[..2]) == [Letter(a), Letter(b), Letter(c), '=']
  {
    hide Letter, Bytes3;
    Ungroup(a, b, c, 0);
    var s := Bytes3(a, b, c, 0);
    Regroup(s[0], s[1], 0);
  }

  lemma OneWritten(a: Sextet, b: Sextet)
    requires b % 16 == 0
    ensures ChunkText(Bytes3(a, b, 0, 0)[..1]) == [Letter(a), Letter(b), '=', '=']
  {
    hide Letter, Bytes3;
    Ungroup(a, b, 0, 0);
    var s := Bytes3(a, b, 0, 0);
    Regroup(s[0], 0, 0);
  }

  lemma ChunkRead(t: string)
    requires |t| == 4 && QuadBytes(t).Some?
    ensures ChunkText(QuadBytes(t).value) == t
  {
    hide Letter, Value, ChunkText, Bytes3;
    ValueLetter(t[0]);
    ValueLetter(t[1]);
    ValueLetter(t[2]);
    ValueLetter(t[3]);
    var a, b := Value(t[0]).value, Value(t[1]).value;
    if t[3] != '=' {
      ThreeWritten(a, b, Value(t[2]).value, Value(t[3]).value);
      assert t == [t[0], t[1], t[2], t[3]];
    } else if t[2] != '=' {
      TwoWritten(a, b, Value(t[2]).value);
      assert t == [t[0], t[1], t[2], '='];
    } else {
      OneWritten(a, b);
      assert t == [t[0], t[1], '=', '='];
    }
  }

  // ---- the whole text

  lemma {:induction false} EncodedDecodes(data: seq<byte>)
    ensures Decoded(Encoded(data)) == Some(data)
    decreases |data|
  {
    hide ChunkText, QuadBytes;
    if data != [] {
      var n := ChunkLength(data);
      var chunk, rest := data[..n], data[n..];
      ChunkReads(chunk);
      EncodedDecodes(rest);
      assert Encoded(data)[..4] == ChunkText(chunk) && Encoded(data)[4..] == Encoded(rest);
      assert chunk + rest == data;
      if n < 3 {
        assert rest == [] && chunk == data;
      }
    }
  }

  lemma {:induction false} DecodedEncodes(t: string)
    requires Decoded(t).Some?
    ensures Encoded(Decoded(t).value) == t
    decreases |t|
  {
    hide ChunkText, QuadBytes;
    if t != "" {
      var data, first := Decoded(t).value, QuadBytes(t[..4]).value;
      ChunkRead(t[..4]);
      assert t == t[..4] + t[4..];
      if |first| < 3 {
        assert data[..|data|] == data && data[|data|..] == [];
        assert t[..4] + "" == t;
      } else {
        var rest := Decoded(t[4..]).value;
        DecodedEncodes(t[4..]);
        assert data[..3] == first && data[3..] == rest;
      }
    }
  }

  /**
   Encoding is a bijection onto what a strict decoder accepts: a text decodes to a byte string
   exactly when it is its encoding. So every byte string round-trips, encoding is injective, and
   padding is canonical with zero bits under it.
   */
  lemma Base64Bijection(t: string, data: seq<byte>)
    ensures Decoded(t) == Some(data) <==> t == Encoded(data)
  {
    hide Decoded, Encoded;
    EncodedDecodes(data);
    if Decoded(t) == Some(data) {
      DecodedEncodes(t);
    }
  }

  /** Four characters for every three bytes or part of them. */
  lemma {:induction false} EncodedLength(data: seq<byte>)
    ensures |Encoded(data)| == (|data| + 2) / 3 * 4
    decreases |data|
  {
    hide ChunkText;
    if data != [] {
      EncodedLength(data[ChunkLength(data)..]);
    }
  }

  /** Padding stands only in the last quadruple: none, one or two for a last chunk of 3, 2 or 1 bytes. */
  lemma {:induction false} PaddingCanonical(data: seq<byte>, i: nat)
    requires i < |Encoded(data)|
    ensures Encoded(data)[i] == '=' <==> (i / 4 * 3 + i % 4 > |data|)
    decreases |data|
  {
    var n := ChunkLength(data);
    if i >= 4 {
      assert Encoded(data)[i] == Encoded(data[n..])[i - 4];
      hide ChunkText;
      PaddingCanonical(data[n..], i - 4);
    }
  }
}
