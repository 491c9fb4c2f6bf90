/** Bytes, little-endian integers, byte-range overlays and NUL-terminated strings. */
module Bytes {

  type byte = x: int | 0 <= x < 256

  const U32_SIZE := 0x1_0000_0000
  const U64_SIZE := 0x1_0000_0000_0000_0000

  // ---- little-endian integers

  /** The number a little-endian byte string denotes. */
  function LE(s: seq<byte>): nat {
    if s == [] then 0 else s[0] + 256 * LE(s[1..])
  }

  /** The low `n` bytes of `v`, least significant first: an `as uN` cast followed by `to_le_bytes`. */
  function Digits(v: nat, n: nat): (s: seq<byte>)
    ensures |s| == n
  {
    if n == 0 then [] else [v % 256] + Digits(v / 256, n - 1)
  }

  /** An `as u32` cast. */
  function AsU32(v: int): (u: nat)
    ensures u < U32_SIZE
  {
    v % U32_SIZE
  }

  lemma AsU32Exact(v: nat)
    ensures AsU32(v) == v <==> v < U32_SIZE
  {
  }

  function Pow256(n: nat): (p: nat)
    ensures p > 0
  {
    if n == 0 then 1 else 256 * Pow256(n - 1)
  }

  lemma Pow256Values()
    ensures Pow256(1) == 0x100 && Pow256(2) == 0x1_0000
    ensures Pow256(4) == U32_SIZE && Pow256(8) == U64_SIZE
  {
    assert Pow256(4) == 256 * Pow256(3) == 65536 * Pow256(2);
    assert Pow256(6) == 256 * Pow256(5) == 65536 * Pow256(4);
    assert Pow256(8) == 256 * Pow256(7) == 65536 * Pow256(6);
  }

  lemma {:induction false} LEBound(s: seq<byte>)
    ensures LE(s) < Pow256(|s|)
  {
    if s != [] {
      LEBound(s[1..]);
    }
  }

  /** Decoding an encoded number gives it back, as long as it fits the width. */
  lemma {:induction false} LEOfDigits(v: nat, n: nat)
    requires v < Pow256(n)
    ensures LE(Digits(v, n)) == v
  {
    if n != 0 {
      LEOfDigits(v / 256, n - 1);
      assert Digits(v, n)[1..] == Digits(v / 256, n - 1);
    }
  }

  /** Encoding a decoded byte string gives it back: the encoding is a bijection. */
  lemma {:induction false} DigitsOfLE(s: seq<byte>)
    ensures Digits(LE(s), |s|) == s
  {
    if s != [] {
      DigitsOfLE(s[1..]);
      DivUnique(LE(s), 256, LE(s[1..]), s[0]);
    }
  }

  lemma {:induction false} LEOfZeros(s: seq<byte>)
    requires forall i :: 0 <= i < |s| ==> s[i] == 0
    ensures LE(s) == 0
  {
    if s != [] {
      LEOfZeros(s[1..]);
    }
  }

  /** A little-endian number is zero only when every byte is. */
  lemma {:induction false} ZerosOfLE(s: seq<byte>)
    requires LE(s) == 0
    ensures forall i :: 0 <= i < |s| ==> s[i] == 0
  {
    if s != [] {
      ZerosOfLE(s[1..]);
      assert forall i :: 0 < i < |s| ==> s[i] == s[1..][i - 1];
    }
  }

  /** One more significant byte. */
  lemma {:induction false} LEAppend(s: seq<byte>, x: byte)
    ensures LE(s + [x]) == LE(s) + x as int * Pow256(|s|)
  {
    if s == [] {
      assert LE([x]) == x as int + 256 * LE([x][1..]);
    } else {
      assert (s + [x])[1..] == s[1..] + [x];
      LEAppend(s[1..], x);
      assert 256 * (x as int * Pow256(|s| - 1)) == x as int * Pow256(|s|);
    }
  }

  /** Byte `i` of a number, by shift and mask. */
  lemma {:induction false} DigitAt(v: nat, n: nat, i: nat)
    requires i < n
    ensures Digits(v, n)[i] == v / Pow256(i) % 256
    decreases i
  {
    if i > 0 {
      DigitAt(v / 256, n - 1, i - 1);
      DivBy256(v, Pow256(i - 1));
    }
  }

  lemma DivBy256(v: nat, y: nat)
    requires y > 0
    ensures v / 256 / y == v / (256 * y)
  {
    var a, b := v / 256, v / 256 / y;
    var t, r2 := y * b, v / 256 % y;
    assert a == t + r2;
    TimesAssoc(y, b);
    DivUnique(v, 256 * y, b, 256 * r2 + v % 256);
  }

  lemma TimesAssoc(y: nat, b: nat)
    ensures 256 * y * b == 256 * (y * b)
  {
  }

  lemma DivUnique(v: int, d: nat, q: int, r: int)
    requires v == d * q + r && 0 <= r < d
    ensures v / d == q && v % d == r
  {
    var e, m := v / d - q, v % d;
    assert v == d * (v / d) + m;
    Distributes(d, v / d, q);
    if e >= 1 {
      AtLeast(d, e);
    } else if e <= -1 {
      AtLeast(d, -e);
    }
  }

  lemma Distributes(d: int, x: int, y: int)
    ensures d * (x - y) == d * x - d * y
  {
  }

  lemma AtLeast(d: nat, e: int)
    requires e >= 1
    ensures d * e >= d && d * -e == -(d * e)
  {
  }

  lemma LE32Bound(s: seq<byte>)
    requires |s| == 4
    ensures LE(s) < U32_SIZE
  {
    LEBound(s);
    Pow256Values();
  }

  lemma LE64Bound(s: seq<byte>)
    requires |s| == 8
    ensures LE(s) < U64_SIZE
  {
    LEBound(s);
    Pow256Values();
  }

  lemma LEOfDigits32(v: nat)
    requires v < U32_SIZE
    ensures LE(Digits(v, 4)) == v
  {
    Pow256Values();
    LEOfDigits(v, 4);
  }

  /** A number that does not fit its field is written modulo 2^32. */
  lemma LEOfDigitsU32(v: nat)
    ensures LE(Digits(v, 4)) == AsU32(v)
  {
    hide LE;
    DigitsWrap(v, 4);
    Pow256Values();
    LEOfDigits32(AsU32(v));
  }

  lemma {:induction false} DigitsWrap(v: nat, n: nat)
    ensures Digits(v, n) == Digits(v % Pow256(n), n)
  {
    if n > 0 {
      var p := Pow256(n - 1);
      DigitsWrap(v / 256, n - 1);
      WrapSplits(v, p);
    }
  }

  lemma WrapSplits(v: nat, p: nat)
    requires p > 0
    ensures v % (256 * p) % 256 == v % 256 && v % (256 * p) / 256 == v / 256 % p
  {
    var q, r := v / 256 / p, v / 256 % p;
    assert v / 256 == p * q + r;
    TimesAssoc(p, q);
    assert 256 * r + v % 256 < 256 * p;
    DivUnique(v, 256 * p, q, 256 * r + v % 256);
    DivUnique(256 * r + v % 256, 256, r, v % 256);
  }

  lemma LEOfDigits64(v: nat)
    requires v < U64_SIZE
    ensures LE(Digits(v, 8)) == v
  {
    Pow256Values();
    LEOfDigits(v, 8);
  }

  lemma LE4(b: seq<byte>, off: nat)
    requires off + 4 <= |b|
    ensures LE(b[off..off + 4]) ==
            b[off] as int + 0x100 * b[off + 1] as int + 0x1_0000 * b[off + 2] as int + 0x100_0000 * b[off + 3] as int
  {
    var s := b[off..off + 4];
    assert s[1..][1..] == s[2..] && s[2..][1..] == s[3..] && s[3..][1..] == [];
    assert LE(s[3..]) == s[3];
    assert LE(s[2..]) == s[2] as int + 256 * LE(s[3..]);
    assert LE(s[1..]) == s[1] as int + 256 * LE(s[2..]);
    assert LE(s) == s[0] as int + 256 * LE(s[1..]);
  }

  // ---- slices and overlays

  lemma SubSlice<T>(b: seq<T>, lo: nat, hi: nat, i: nat, j: nat)
    requires lo <= hi <= |b| && i <= j <= hi - lo
    ensures b[lo..hi][i..j] == b[lo + i..lo + j]
  {
    var c := b[lo..hi];
    forall k | 0 <= k < j - i
      ensures c[i..j][k] == b[lo + i..lo + j][k]
    {
      assert c[i..j][k] == c[i + k];
    }
  }

  function Zeros(n: nat): (s: seq<byte>)
    ensures |s| == n && forall i :: 0 <= i < n ==> s[i] == 0
  {
    seq(n, _ => 0)
  }

  /** `b` with the bytes from `at` on replaced by `s`. */
  function Overlay(b: seq<byte>, at: nat, s: seq<byte>): (r: seq<byte>)
    requires at + |s| <= |b|
    ensures |r| == |b|
  {
    seq(|b|, i requires 0 <= i < |b| => if at <= i < at + |s| then s[i - at] else b[i])
  }

  /** A window that an overlay does not touch reads as before. */
  lemma OverlayApart(b: seq<byte>, at: nat, s: seq<byte>, lo: nat, hi: nat)
    requires at + |s| <= |b| && lo <= hi <= |b|
    requires hi <= at || at + |s| <= lo
    ensures Overlay(b, at, s)[lo..hi] == b[lo..hi]
  {
  }

  /** A window inside an overlay reads the overlaid bytes. */
  lemma OverlayInside(b: seq<byte>, at: nat, s: seq<byte>, lo: nat, hi: nat)
    requires at + |s| <= |b| && at <= lo <= hi <= at + |s|
    ensures Overlay(b, at, s)[lo..hi] == s[lo - at..hi - at]
  {
  }

  lemma ThreeParts<T>(s: seq<T>, i: nat, j: nat)
    requires i <= j <= |s|
    ensures s[..i] + s[i..j] + s[j..] == s
  {
  }

  /** A window that is three runs one after the other, run by run. */
  lemma ThreeRuns<T>(b: seq<T>, lo: nat, x: seq<T>, y: seq<T>, z: seq<T>)
    requires lo + |x| + |y| + |z| <= |b|
    requires b[lo..lo + |x| + |y| + |z|] == x + y + z
    ensures b[lo..lo + |x|] == x
    ensures b[lo + |x|..lo + |x| + |y|] == y
    ensures b[lo + |x| + |y|..lo + |x| + |y| + |z|] == z
  {
    var end, f := lo + |x| + |y| + |z|, x + y + z;
    SubSlice(b, lo, end, 0, |x|);
    SubSlice(b, lo, end, |x|, |x| + |y|);
    SubSlice(b, lo, end, |x| + |y|, |f|);
    assert f[0..|x|] == x && f[|x|..|x| + |y|] == y && f[|x| + |y|..|f|] == z;
  }

  /** Writing inside an earlier overlay is one overlay of the edited bytes. */
  lemma OverlayCompose(b: seq<byte>, at: nat, s: seq<byte>, i: nat, t: seq<byte>)
    requires at + |s| <= |b| && i + |t| <= |s|
    ensures Overlay(Overlay(b, at, s), at + i, t) == Overlay(b, at, Overlay(s, i, t))
  {
  }

  /** Extending an overlay on the right. */
  lemma OverlayExtend(b: seq<byte>, at: nat, s: seq<byte>, t: seq<byte>)
    requires at + |s| + |t| <= |b|
    ensures Overlay(Overlay(b, at, s), at + |s|, t) == Overlay(b, at, s + t)
  {
  }

  /** Two adjacent overlays are one. */
  lemma OverlayAdjacent(b: seq<byte>, at: nat, s: seq<byte>, t: seq<byte>)
    requires at + |s| + |t| <= |b|
    ensures Overlay(Overlay(b, at + |s|, t), at, s) == Overlay(b, at, s + t)
  {
  }

  /** `copy_from_slice` into a sub-slice of a buffer. */
  method CopyInto(buf: array<byte>, at: nat, s: seq<byte>)
    requires at + |s| <= buf.Length
    modifies buf
    ensures buf[..] == Overlay(old(buf[..]), at, s)
  {
    for i := 0 to |s|
      invariant forall k :: 0 <= k < at || at + i <= k < buf.Length ==> buf[k] == old(buf[k])
      invariant forall k :: at <= k < at + i ==> buf[k] == s[k - at]
    {
      buf[at + i] := s[i];
    }
  }

  // ---- NUL-terminated strings

  /** The C string starting at offset `at`: the bytes up to the first NUL or the end of the buffer. */
  function CString(b: seq<byte>, at: nat): (s: seq<byte>)
    ensures 0 !in s
    decreases |b| - at
  {
    if at >= |b| || b[at] == 0 then [] else [b[at]] + CString(b, at + 1)
  }

  /** A NUL-free string followed by a NUL reads back exactly. */
  lemma {:induction false} CStringReads(b: seq<byte>, at: nat, s: seq<byte>)
    requires at + |s| < |b|
    requires b[at..at + |s|] == s && 0 !in s && b[at + |s|] == 0
    ensures CString(b, at) == s
    decreases |s|
  {
    if s != [] {
      assert b[at] == b[at..at + |s|][0];
      assert b[at + 1..at + 1 + |s[1..]|] == s[1..];
      CStringReads(b, at + 1, s[1..]);
    }
  }

  /** A C string depends only on the bytes up to its NUL. */
  lemma {:induction false} CStringFrame(b: seq<byte>, b': seq<byte>, at: nat, end: nat)
    requires at < end <= |b| && end <= |b'|
    requires b[at..end] == b'[at..end]
    requires 0 in b[at..end]
    ensures CString(b, at) == CString(b', at)
    decreases end - at
  {
    assert b[at] == b[at..end][0] == b'[at..end][0] == b'[at];
    if b[at] != 0 {
      assert b[at..end] == [b[at]] + b[at + 1..end];
      assert b[at + 1..end] == b[at..end][1..] == b'[at..end][1..] == b'[at + 1..end];
      CStringFrame(b, b', at + 1, end);
    }
  }
}
