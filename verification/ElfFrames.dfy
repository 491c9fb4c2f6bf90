/** Frame reasoning for ELF files: which windows a read depends on, and what an overlay leaves alone. */
module ElfFrames {
  import opened Results
  import opened Bytes
  import opened ElfFormat
  import opened ElfRewrite

  predicate Apart(lo1: nat, hi1: nat, lo2: nat, hi2: nat) {
    hi1 <= lo2 || hi2 <= lo1
  }

  /** Two files of one length that agree on `[lo, hi)`. */
  ghost predicate Same(b: seq<byte>, c: seq<byte>, lo: nat, hi: nat) {
    |b| == |c| && forall i :: lo <= i < hi && i < |b| ==> b[i] == c[i]
  }

  lemma SameTrans(b: seq<byte>, c: seq<byte>, e: seq<byte>, lo: nat, hi: nat)
    requires Same(b, c, lo, hi) && Same(c, e, lo, hi)
    ensures Same(b, e, lo, hi)
  {
  }

  lemma SameWithin(b: seq<byte>, c: seq<byte>, lo: nat, hi: nat, lo': nat, hi': nat)
    requires Same(b, c, lo, hi) && lo <= lo' && hi' <= hi
    ensures Same(b, c, lo', hi')
  {
  }

  lemma OverlaySame(b: seq<byte>, at: nat, s: seq<byte>, lo: nat, hi: nat)
    requires at + |s| <= |b| && Apart(at, at + |s|, lo, hi)
    ensures Same(b, Overlay(b, at, s), lo, hi)
  {
  }

  lemma SameWindow(b: seq<byte>, c: seq<byte>, lo: nat, hi: nat)
    requires Same(b, c, lo, hi) && lo <= hi <= |b|
    ensures b[lo..hi] == c[lo..hi]
  {
    forall k | 0 <= k < hi - lo
      ensures b[lo..hi][k] == c[lo..hi][k]
    {
      assert b[lo + k] == c[lo + k];
    }
  }

  lemma ReadSame(b: seq<byte>, c: seq<byte>, off: nat, n: nat)
    requires Same(b, c, off, off + n)
    ensures ReadLE(b, off, n) == ReadLE(c, off, n)
  {
    if off + n <= |b| {
      SameWindow(b, c, off, off + n);
    }
  }

  lemma DynSame(b: seq<byte>, c: seq<byte>, off: nat)
    requires Same(b, c, off, off + DYN_ENTRY_SIZE) && off + DYN_ENTRY_SIZE <= |b|
    ensures DynAt(b, off) == DynAt(c, off)
  {
    hide LE;
    SameWindow(b, c, off, off + 8);
    SameWindow(b, c, off + 8, off + 16);
  }

  lemma PhdrSame(b: seq<byte>, c: seq<byte>, off: nat)
    requires Same(b, c, off, off + PHDR_SIZE)
    ensures PhdrAt(b, off) == PhdrAt(c, off)
  {
    hide ReadLE;
    ReadSame(b, c, off, 4);
    ReadSame(b, c, off + 8, 8);
    ReadSame(b, c, off + 16, 8);
    ReadSame(b, c, off + 32, 8);
  }

  lemma {:induction false} PhdrsSame(b: seq<byte>, c: seq<byte>, off: nat, size: nat, n: nat, end: nat)
    requires size >= PHDR_SIZE && end == off + n * size && Same(b, c, off, end)
    ensures PhdrsFrom(b, off, size, n) == PhdrsFrom(c, off, size, n)
    decreases n
  {
    if n > 0 {
      hide PhdrAt;
      NextRow(n - 1, size);
      RowsNonNegative(n - 1, size);
      SameWithin(b, c, off, end, off, off + PHDR_SIZE);
      PhdrSame(b, c, off);
      PhdrsSame(b, c, off + size, size, n - 1, end);
    }
  }

  lemma RowsNonNegative(n: nat, size: nat)
    ensures n * size >= 0
  {
  }

  /** A file's identification and program headers live in its ELF header and its header table. */
  lemma HeadersSame(b: seq<byte>, c: seq<byte>, t: PhdrTable)
    requires Same(b, c, 0, EHDR_SIZE) && PhdrTableOf(b) == Success(t)
    requires Same(b, c, t.offset, t.offset + t.count * t.size)
    ensures PhdrTableOf(c) == Success(t)
    ensures ProgramHeaders(b) == ProgramHeaders(c)
  {
    ReadSame(b, c, 32, 8);
    ReadSame(b, c, 54, 2);
    ReadSame(b, c, 56, 2);
    hide ReadLE;
    PhdrsSame(b, c, t.offset, t.size, t.count, t.offset + t.count * t.size);
  }

  lemma IdentifiedSame(b: seq<byte>, c: seq<byte>)
    requires Same(b, c, 0, EHDR_SIZE)
    ensures Identified(b) == Identified(c)
  {
    if |b| >= EHDR_SIZE {
      SameWindow(b, c, 0, 4);
      SameWindow(b, c, 16, 18);
    }
  }

  // ---- zero slots

  lemma {:induction false} CheckSlotsIsZero(b: seq<byte>, slot: nat, n: nat)
    requires |b| < U64_SIZE
    ensures CheckSlots(b, slot, n).Success? <==>
            n == 0 || (slot + DYN_ENTRY_SIZE * n <= |b| && AllZero(b, slot, slot + DYN_ENTRY_SIZE * n))
    decreases n
  {
    if n > 0 && slot + DYN_ENTRY_SIZE <= |b| {
      WordZero(b, slot);
      WordZero(b, slot + 8);
      CheckSlotsIsZero(b, slot + DYN_ENTRY_SIZE, n - 1);
    }
  }

  lemma WordZero(b: seq<byte>, off: nat)
    requires off + 8 <= |b|
    ensures LE(b[off..off + 8]) == 0 <==> AllZero(b, off, off + 8)
  {
    var w := b[off..off + 8];
    if AllZero(b, off, off + 8) {
      LEOfZeros(w);
    } else if LE(w) == 0 {
      ZerosOfLE(w);
    }
  }

  lemma ZeroSlotIsNull(b: seq<byte>, off: nat)
    requires off + DYN_ENTRY_SIZE <= |b| && AllZero(b, off, off + DYN_ENTRY_SIZE)
    ensures DynAt(b, off) == Dyn(DT_NULL, 0)
  {
    WordZero(b, off);
    WordZero(b, off + 8);
  }

  // ---- entries written

  lemma EntryWritten(b: seq<byte>, off: nat, e: Dyn)
    requires off + DYN_ENTRY_SIZE <= |b| && e.tag < U64_SIZE && e.val < U64_SIZE
    requires b[off..off + 8] == Digits(e.tag, 8) && b[off + 8..off + 16] == Digits(e.val, 8)
    ensures DynAt(b, off) == e
  {
    LEOfDigits64(e.tag);
    LEOfDigits64(e.val);
  }

  /** Where the first DT_STRSZ is, the closing loop goes. */
  lemma {:induction false} FixUpFinds(p: seq<byte>, off: nat, es: seq<Dyn>, strsz: nat)
    requires |p| < U64_SIZE && FirstIndex(es, DT_STRSZ) < |es|
    requires off + DYN_ENTRY_SIZE * |es| <= |p|
    requires forall i :: 0 <= i < |es| ==> DynAt(p, off + DYN_ENTRY_SIZE * i) == es[i] && es[i].tag != DT_NULL
    ensures FixUp(p, off, strsz) ==
            Success(Overlay(p, off + DYN_ENTRY_SIZE * FirstIndex(es, DT_STRSZ) + 8, Digits(strsz, 8)))
    decreases |es|
  {
    hide LE, Digits, Overlay;
    assert DynAt(p, off + DYN_ENTRY_SIZE * 0) == es[0];
    if es[0].tag != DT_STRSZ {
      var next, rest := off + DYN_ENTRY_SIZE, es[1..];
      forall i | 0 <= i < |rest|
        ensures DynAt(p, next + DYN_ENTRY_SIZE * i) == rest[i] && rest[i].tag != DT_NULL
      {
        assert next + DYN_ENTRY_SIZE * i == off + DYN_ENTRY_SIZE * (i + 1);
        assert DynAt(p, off + DYN_ENTRY_SIZE * (i + 1)) == es[i + 1];
      }
      FixUpFinds(p, next, rest, strsz);
    }
  }

  // ---- lookups after an edit

  lemma {:induction false} LastValueAppend(es: seq<Dyn>, fs: seq<Dyn>, tag: nat)
    ensures LastValue(es + fs, tag) == if LastValue(fs, tag).Some? then LastValue(fs, tag) else LastValue(es, tag)
  {
    if es == [] {
      assert es + fs == fs;
    } else {
      assert (es + fs)[1..] == es[1..] + fs;
      LastValueAppend(es[1..], fs, tag);
    }
  }

  lemma {:induction false} LastValueUpdate(es: seq<Dyn>, k: nat, e: Dyn, tag: nat)
    requires k < |es| && es[k].tag == e.tag
    requires tag == e.tag ==> k == FirstIndex(es, tag)
    ensures LastValue(es[k := e], tag) ==
            if tag == e.tag && Once(es, tag) then Some(e.val) else LastValue(es, tag)
  {
    if k == 0 {
      assert es[k := e][1..] == es[1..];
    } else {
      assert es[k := e][1..] == es[1..][k - 1 := e];
      assert tag == e.tag ==> FirstIndex(es, tag) == 1 + FirstIndex(es[1..], tag);
      assert tag == e.tag ==> es[1..][k..] == es[k + 1..];
      LastValueUpdate(es[1..], k - 1, e, tag);
    }
  }
}
