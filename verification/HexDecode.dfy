/** `hex_decode`, over the bytes of a string. */
module HexDecode {
  import opened Results
  import opened Bytes
  import opened Utf8

  datatype HexResult = Data(bytes: seq<byte>) | Invalid | Panic // a slice off a character boundary

  function DigitValue(c: byte): Option<byte> {
    if '0' as int <= c as int <= '9' as int then Some(c as int - '0' as int)
    else if 'a' as int <= c as int <= 'f' as int then Some(c as int - 'a' as int + 10)
    else if 'A' as int <= c as int <= 'F' as int then Some(c as int - 'A' as int + 10)
    else None
  }

  /** `u8::from_str_radix(_, 16)` on two bytes: a sign may stand in for the first digit. */
  function PairValue(a: byte, b: byte): Option<byte> {
    var high := if a as int == '+' as int then Some(0) else DigitValue(a);
    var low := DigitValue(b);
    if high.None? || low.None? then None else Some(high.value as int * 16 + low.value as int)
  }

  /** Slicing a string at `i` is allowed only between characters. */
  predicate CharBoundary(s: seq<byte>, i: nat) {
    i == 0 || i == |s| || (i < |s| && !Cont(s[i]))
  }

  /** The pairs from `i` on. */
  function PairsFrom(s: seq<byte>, i: nat): HexResult
    requires i % 2 == 0 && |s| % 2 == 0 && i <= |s|
    decreases |s| - i
  {
    if i == |s| then Data([])
    else if !CharBoundary(s, i) || !CharBoundary(s, i + 2) then Panic
    else if PairValue(s[i], s[i + 1]).None? then Invalid
    else
      match PairsFrom(s, i + 2)
      case Data(rest) => Data([PairValue(s[i], s[i + 1]).value] + rest)
      case r => r
  }

  function HexDecoded(s: seq<byte>): HexResult {
    if |s| % 2 != 0 then Invalid else PairsFrom(s, 0)
  }

  /** '0' to '9', 'A' to 'F' and 'a' to 'f'. */
  predicate IsHexDigit(c: byte) {
    48 <= c <= 57 || 65 <= c <= 70 || 97 <= c <= 102
  }

  /** What counts as a digit, and its value. */
  lemma DigitsAreHex(c: byte)
    ensures DigitValue(c).Some? <==> IsHexDigit(c)
    ensures DigitValue(c).Some? ==>
              DigitValue(c).value == if c <= 57 then c - 48 else if c <= 70 then c - 55 else c - 87
  {
  }

  /** A pair of characters that decodes: two digits, or a plus sign (43) and a digit. */
  predicate GoodPair(s: seq<byte>, k: nat)
    requires 2 * k + 1 < |s|
  {
    (s[2 * k] == 43 || IsHexDigit(s[2 * k])) && IsHexDigit(s[2 * k + 1])
  }

  /** Two lower-case digits for every byte. */
  function HexText(data: seq<byte>): (s: seq<byte>)
    ensures |s| == 2 * |data|
  {
    if data == [] then [] else [DigitChar(data[0] as int / 16), DigitChar(data[0] as int % 16)] + HexText(data[1..])
  }

  function DigitChar(v: nat): (c: byte)
    requires v < 16
    ensures DigitValue(c) == Some(v)
  {
    if v < 10 then '0' as int + v else 'a' as int + v - 10
  }

  lemma {:induction false} PairsDecode(s: seq<byte>, i: nat)
    requires i % 2 == 0 && |s| % 2 == 0 && i <= |s|
    ensures PairsFrom(s, i).Data? <==> forall k :: i <= 2 * k < |s| ==> GoodPair(s, k)
    ensures PairsFrom(s, i).Data? ==> |PairsFrom(s, i).bytes| == (|s| - i) / 2
    decreases |s| - i
  {
    if i < |s| {
      PairsDecode(s, i + 2);
      var k0 := i / 2;
      assert PairValue(s[i], s[i + 1]).Some? <==> GoodPair(s, k0);
      if forall k :: i <= 2 * k < |s| ==> GoodPair(s, k) {
        assert GoodPair(s, k0);
        AsciiBoundaries(s, i);
      }
      if PairsFrom(s, i).Data? {
        forall k | i <= 2 * k < |s|
          ensures GoodPair(s, k)
        {
          if k != k0 {
            assert i + 2 <= 2 * k;
          }
        }
      }
    }
  }

  /** Good pairs are ASCII, so their slices are on boundaries. */
  lemma AsciiBoundaries(s: seq<byte>, i: nat)
    requires i % 2 == 0 && |s| % 2 == 0 && i < |s|
    requires forall k :: i <= 2 * k < |s| ==> GoodPair(s, k)
    ensures CharBoundary(s, i) && CharBoundary(s, i + 2)
  {
    assert GoodPair(s, i / 2);
    if i + 2 < |s| {
      assert GoodPair(s, i / 2 + 1);
    }
  }

  /**
   What `hex_decode` accepts: exactly the strings of even length made of good pairs. That is more
   than hexadecimal, because a plus sign is taken for a leading zero.
   */
  lemma AcceptsExactly(s: seq<byte>)
    ensures HexDecoded(s).Data? <==> |s| % 2 == 0 && forall k :: 0 <= 2 * k < |s| ==> GoodPair(s, k)
  {
    if |s| % 2 == 0 {
      PairsDecode(s, 0);
    }
  }

  /** A pair whose slice would begin or end inside a character. */
  predicate CutPair(s: seq<byte>, k: nat) {
    !CharBoundary(s, 2 * k) || !CharBoundary(s, 2 * k + 2)
  }

  /** Pair `k` is the first one from `i` on that is not good, and it is cut. */
  ghost predicate CutFirst(s: seq<byte>, i: nat, k: nat)
    requires |s| % 2 == 0
  {
    i <= 2 * k < |s| && !GoodPair(s, k) && CutPair(s, k) && forall j :: i <= 2 * j < 2 * k ==> GoodPair(s, j)
  }

  /**
   When the slicing panics: exactly when the length is even and the first pair that is not good is
   cut off a character boundary.
   */
  lemma PanicsExactly(s: seq<byte>)
    ensures HexDecoded(s) == Panic <==> |s| % 2 == 0 && exists k :: CutFirst(s, 0, k)
  {
    if |s| % 2 == 0 {
      PairsPanic(s, 0);
    }
  }

  lemma {:induction false} PairsPanic(s: seq<byte>, i: nat)
    requires i % 2 == 0 && |s| % 2 == 0 && i <= |s| && CharBoundary(s, i)
    ensures PairsFrom(s, i) == Panic <==> exists k :: CutFirst(s, i, k)
    decreases |s| - i
  {
    hide PairValue, CharBoundary, GoodPair, PairsFrom;
    var k0 := i / 2;
    PanicStep(s, i);
    if i < |s| && GoodPair(s, k0) {
      if CharBoundary(s, i + 2) {
        PairsPanic(s, i + 2);
        if PairsFrom(s, i + 2) == Panic {
          var k :| CutFirst(s, i + 2, k);
          assert CutFirst(s, i, k);
        }
        assert forall k :: CutFirst(s, i, k) ==> CutFirst(s, i + 2, k);
      } else {
        CutIsBad(s, k0 + 1);
        assert CutFirst(s, i, k0 + 1);
      }
    } else if i < |s| {
      assert forall k :: CutFirst(s, i, k) ==> k == k0;
      assert CutPair(s, k0) <==> CutFirst(s, i, k0);
    }
  }

  lemma PanicStep(s: seq<byte>, i: nat)
    requires i % 2 == 0 && |s| % 2 == 0 && i <= |s| && CharBoundary(s, i)
    ensures PairsFrom(s, i) == Panic <==>
            i < |s| && (!CharBoundary(s, i + 2) || (GoodPair(s, i / 2) && PairsFrom(s, i + 2) == Panic))
  {
    if i < |s| {
      assert PairValue(s[i], s[i + 1]).Some? <==> GoodPair(s, i / 2);
    }
  }

  /** A byte inside a character is no digit. */
  lemma CutIsBad(s: seq<byte>, k: nat)
    requires |s| % 2 == 0 && !CharBoundary(s, 2 * k) && 2 * k <= |s|
    ensures 2 * k < |s| && !GoodPair(s, k)
  {
  }

  /** "+f" is not hexadecimal and decodes to 15. */
  lemma PlusIsAccepted()
    ensures HexDecoded(Ascii("+f")) == Data([15])
  {
    var s := Ascii("+f");
    assert s[0] as int == '+' as int && s[1] as int == 'f' as int;
    assert PairsFrom(s, 2) == Data([]);
    assert [15] + [] == [15];
  }

  /** Hexadecimal text decodes to the bytes it spells. */
  lemma HexRoundTrip(data: seq<byte>)
    ensures HexDecoded(HexText(data)) == Data(data)
  {
    hide HexText, PairsFrom;
    TextPairs(data, 0);
    assert data[0..] == data;
  }

  /** A byte in upper case, if it is a small letter. */
  function UpperByte(c: byte): byte {
    if 'a' as int <= c as int <= 'z' as int then c as int - 32 else c
  }

  function Upper(s: seq<byte>): (u: seq<byte>)
    ensures |u| == |s| && forall i :: 0 <= i < |s| ==> u[i] == UpperByte(s[i])
  {
    seq(|s|, i requires 0 <= i < |s| => UpperByte(s[i]))
  }

  /** Case does not matter, so upper-case text decodes to the same bytes. */
  lemma CaseIgnored(s: seq<byte>)
    ensures HexDecoded(Upper(s)) == HexDecoded(s)
  {
    hide PairsFrom;
    if |s| % 2 == 0 {
      PairsIgnoreCase(s, 0);
    }
  }

  lemma {:induction false} PairsIgnoreCase(s: seq<byte>, i: nat)
    requires i % 2 == 0 && |s| % 2 == 0 && i <= |s|
    ensures PairsFrom(Upper(s), i) == PairsFrom(s, i)
    decreases |s| - i
  {
    hide UpperByte, PairValue, CharBoundary;
    if i < |s| {
      UpperPair(s, i);
      PairsIgnoreCase(s, i + 2);
    }
  }

  lemma UpperPair(s: seq<byte>, i: nat)
    requires i + 2 <= |s|
    ensures var u := Upper(s);
            && PairValue(u[i], u[i + 1]) == PairValue(s[i], s[i + 1])
            && CharBoundary(u, i) == CharBoundary(s, i) && CharBoundary(u, i + 2) == CharBoundary(s, i + 2)
  {
    hide UpperByte, DigitValue, Cont;
    UpperIs(s[i]);
    UpperIs(s[i + 1]);
    if i + 2 < |s| {
      UpperIs(s[i + 2]);
    }
  }

  lemma UpperIs(c: byte)
    ensures DigitValue(UpperByte(c)) == DigitValue(c) && Cont(UpperByte(c)) == Cont(c)
    ensures UpperByte(c) as int == '+' as int <==> c as int == '+' as int
  {
  }

  lemma {:induction false} TextAt(data: seq<byte>, k: nat)
    requires k < |data|
    ensures HexText(data)[2 * k] == DigitChar(data[k] as int / 16)
    ensures HexText(data)[2 * k + 1] == DigitChar(data[k] as int % 16)
  {
    if k > 0 {
      TextAt(data[1..], k - 1);
    }
  }

  lemma {:induction false} TextPairs(data: seq<byte>, k: nat)
    requires k <= |data|
    ensures PairsFrom(HexText(data), 2 * k) == Data(data[k..])
    decreases |data| - k
  {
    hide HexText, PairValue, CharBoundary;
    if k < |data| {
      TextPairs(data, k + 1);
      TextPair(data, k);
      assert data[k..] == [data[k]] + data[k + 1..];
    }
  }

  /** Pair `k` of the text spells byte `k` and is not cut. */
  lemma TextPair(data: seq<byte>, k: nat)
    requires k < |data|
    ensures var s := HexText(data);
            && PairValue(s[2 * k], s[2 * k + 1]) == Some(data[k])
            && CharBoundary(s, 2 * k) && CharBoundary(s, 2 * k + 2)
  {
    hide HexText, DigitChar, DigitValue;
    var s := HexText(data);
    TextAt(data, k);
    PlainDigit(data[k] as int / 16);
    DigitsAreAscii(s[2 * k]);
    if k + 1 < |data| {
      TextAt(data, k + 1);
      DigitsAreAscii(s[2 * k + 2]);
    }
  }

  lemma PlainDigit(v: nat)
    requires v < 16
    ensures DigitChar(v) as int != '+' as int
  {
  }

  lemma DigitsAreAscii(c: byte)
    requires DigitValue(c).Some?
    ensures !Cont(c)
  {
  }
}
