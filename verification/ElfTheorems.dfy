/** What one ELF rewrite means for a loader: its dynamic entries, its strings, its headers. */
module ElfTheorems {
  import opened Results
  import opened Bytes
  import opened ElfFormat
  import opened ElfRewrite
  import opened ElfFrames

  /**
   The layout the code relies on and does not check. Three regions are pairwise apart: the ELF
   header with the program headers, the PT_DYNAMIC range, and the string table with its padding
   up to `limit`.
   */
  ghost predicate Separated(b: seq<byte>, d: DynamicSection, limit: nat) {
    && PhdrTableOf(b).Success?
    && var t := PhdrTableOf(b).value;
       && Apart(d.strtab, limit, 0, EHDR_SIZE)
       && Apart(d.strtab, limit, t.offset, t.offset + t.count * t.size)
       && Apart(d.strtab, limit, d.offset, d.segmentEnd)
       && Apart(d.offset, d.segmentEnd, 0, EHDR_SIZE)
       && Apart(d.offset, d.segmentEnd, t.offset, t.offset + t.count * t.size)
  }

  /** Where the new strings start. */
  function StringsStart(d: DynamicSection): nat {
    d.strtab + d.strsz
  }

  /** A rewrite of `r` with `es` as the present entries: the room it needs, by position. */
  ghost predicate Room(b: seq<byte>, d: DynamicSection, slots: nat, bytes: nat) {
    && d.terminator + DYN_ENTRY_SIZE * (slots + 1) <= d.segmentEnd
    && AllZero(b, d.terminator + DYN_ENTRY_SIZE, d.terminator + DYN_ENTRY_SIZE * (slots + 1))
    && AllZero(b, StringsStart(d), StringsStart(d) + bytes)
  }

  /** The state of a located dynamic section: its entries and the place of its terminator. */
  ghost predicate Located(b: seq<byte>, d: DynamicSection, es: seq<Dyn>) {
    && |b| < U64_SIZE
    && DynamicOf(b) == Success(d) && Entries(b) == es
    && DynList(b, d.offset, d.segmentEnd, es)
    && d.terminator == d.offset + DYN_ENTRY_SIZE * |es|
    && LastValue(es, DT_STRSZ) == Some(d.strsz)
    && d.strsz < U64_SIZE
  }

  lemma LocatedIntro(b: seq<byte>, d: DynamicSection)
    requires DynamicOf(b) == Success(d) && |b| < U64_SIZE
    ensures Located(b, d, Entries(b))
  {
    var hs := ProgramHeaders(b).value;
    var seg := FindDynamic(hs).value;
    ParsedIsDynList(b, d.offset, d.segmentEnd);
    var es := Entries(b);
    StrszFits(b, d.offset, d.segmentEnd, es);
  }

  lemma LocatedAt(b: seq<byte>, d: DynamicSection, es: seq<Dyn>)
    requires Located(b, d, es)
    ensures |b| < U64_SIZE && DynamicOf(b) == Success(d)
  {
  }

  lemma {:induction false} StrszFits(b: seq<byte>, off: nat, segEnd: nat, es: seq<Dyn>)
    requires DynList(b, off, segEnd, es)
    ensures forall tag :: LastValue(es, tag).Some? ==> LastValue(es, tag).value < U64_SIZE
    decreases |es|
  {
    if es != [] {
      assert DynAt(b, off + DYN_ENTRY_SIZE * 0) == es[0];
      LE64Bound(b[off + 8..off + 16]);
      hide LE;
      var next, rest := off + DYN_ENTRY_SIZE, es[1..];
      forall i | 0 <= i < |rest|
        ensures DynAt(b, next + DYN_ENTRY_SIZE * i) == rest[i] && rest[i].tag != DT_NULL
      {
        assert next + DYN_ENTRY_SIZE * i == off + DYN_ENTRY_SIZE * (i + 1);
        assert DynAt(b, off + DYN_ENTRY_SIZE * (i + 1)) == es[i + 1];
      }
      StrszFits(b, next, segEnd, rest);
    }
  }

  // ---- when a rewrite succeeds, and with what bytes

  /** The offset of the value of the entry the closing loop rewrites. */
  function StrszValueOffset(d: DynamicSection, es: seq<Dyn>): nat {
    d.offset + DYN_ENTRY_SIZE * FirstIndex(es, DT_STRSZ) + 8
  }

  function NewStrsz(d: DynamicSection, r: Request): nat {
    d.strsz + |NewStrings(r)|
  }

  /** The output: strings, entries and the new length, as three overlays. */
  function Output(b: seq<byte>, d: DynamicSection, es: seq<Dyn>, r: Request): (out: seq<byte>)
    requires StringsStart(d) + |NewStrings(r)| <= |b|
    requires d.terminator + DYN_ENTRY_SIZE * EntriesNeeded(r) <= |b|
    requires StrszValueOffset(d, es) + 8 <= |b|
    ensures |out| == |b|
  {
    Overlay(Patched(b, d, r), StrszValueOffset(d, es), Digits(NewStrsz(d, r), 8))
  }

  /** What is known when the three overlays are laid down; the regions are apart. */
  ghost predicate Writable(b: seq<byte>, d: DynamicSection, es: seq<Dyn>, r: Request) {
    && |b| < U64_SIZE
    && DynList(b, d.offset, d.segmentEnd, es)
    && d.terminator == d.offset + DYN_ENTRY_SIZE * |es|
    && FirstIndex(es, DT_STRSZ) < |es|
    && Room(b, d, EntriesNeeded(r), |NewStrings(r)|)
    && Apart(StringsStart(d), StringsStart(d) + |NewStrings(r)|, d.offset, d.segmentEnd)
  }

  lemma WritableBounds(b: seq<byte>, d: DynamicSection, es: seq<Dyn>, r: Request)
    requires Writable(b, d, es, r)
    ensures |b| < U64_SIZE && StringsStart(d) + |NewStrings(r)| <= |b|
    ensures d.terminator == d.offset + DYN_ENTRY_SIZE * |es| && FirstIndex(es, DT_STRSZ) < |es|
    ensures d.terminator + DYN_ENTRY_SIZE * (EntriesNeeded(r) + 1) <= d.segmentEnd
    ensures d.terminator + DYN_ENTRY_SIZE * (EntriesNeeded(r) + 1) <= |b|
    ensures StrszValueOffset(d, es) + 8 <= d.terminator
    ensures Apart(StringsStart(d), StringsStart(d) + |NewStrings(r)|, d.offset, d.segmentEnd)
  {
  }

  /** An entry of a located array, by position. */
  lemma EntryIn(b: seq<byte>, d: DynamicSection, es: seq<Dyn>, r: Request, i: nat)
    requires Writable(b, d, es, r) && i < |es|
    ensures d.offset + DYN_ENTRY_SIZE * (i + 1) <= |b|
    ensures DynAt(b, d.offset + DYN_ENTRY_SIZE * i) == es[i] && es[i].tag != DT_NULL
  {
    hide LE, Room, FirstIndex;
  }

  lemma WritableIntro(b: seq<byte>, d: DynamicSection, es: seq<Dyn>, r: Request)
    requires Located(b, d, es) && Room(b, d, EntriesNeeded(r), |NewStrings(r)|)
    requires Apart(StringsStart(d), StringsStart(d) + |NewStrings(r)|, d.offset, d.segmentEnd)
    ensures Writable(b, d, es, r)
  {
  }

  /** The present entries are still where they were once strings and entries are in place. */
  lemma PatchedKeepsEntries(b: seq<byte>, d: DynamicSection, es: seq<Dyn>, r: Request, i: nat)
    requires Writable(b, d, es, r) && i < |es|
    ensures StringsStart(d) + |NewStrings(r)| <= |b| && d.terminator + DYN_ENTRY_SIZE * EntriesNeeded(r) <= |b|
    ensures DynAt(Patched(b, d, r), d.offset + DYN_ENTRY_SIZE * i) == es[i] && es[i].tag != DT_NULL
  {
    hide Writable, Overlay, NewStrings, DynBytes, DynAt, FirstIndex, NewEntries, Same;
    EntryIn(b, d, es, r, i);
    WritableBounds(b, d, es, r);
    var off, b1 := d.offset + DYN_ENTRY_SIZE * i, Overlay(b, StringsStart(d), NewStrings(r));
    OverlaySame(b, StringsStart(d), NewStrings(r), off, off + DYN_ENTRY_SIZE);
    OverlaySame(b1, d.terminator, DynBytes(NewEntries(r, d.strsz)), off, off + DYN_ENTRY_SIZE);
    DynSame(b, b1, off);
    DynSame(b1, Patched(b, d, r), off);
  }

  lemma ClosingLoopStops(b: seq<byte>, d: DynamicSection, es: seq<Dyn>, r: Request)
    requires Writable(b, d, es, r)
    ensures StrszValueOffset(d, es) + 8 <= |b|
    ensures StringsStart(d) + |NewStrings(r)| <= |b| && d.terminator + DYN_ENTRY_SIZE * EntriesNeeded(r) <= |b|
    ensures FixUp(Patched(b, d, r), d.offset, NewStrsz(d, r)) == Success(Output(b, d, es, r))
  {
    hide Writable, FixUp, Overlay, Patched, NewStrings, DynAt, FirstIndex;
    WritableBounds(b, d, es, r);
    var p := Patched(b, d, r);
    forall i | 0 <= i < |es|
      ensures DynAt(p, d.offset + DYN_ENTRY_SIZE * i) == es[i] && es[i].tag != DT_NULL
    {
      PatchedKeepsEntries(b, d, es, r, i);
    }
    FixUpFinds(p, d.offset, es, NewStrsz(d, r));
  }

  lemma NeededFits(r: Request)
    ensures |NewStrings(r)| >= |r.needed| + 1
  {
  }

  /** The checks before any write amount to `Room`. */
  lemma ChecksAreRoom(b: seq<byte>, d: DynamicSection, r: Request)
    requires |b| < U64_SIZE
    ensures Room(b, d, EntriesNeeded(r), |NewStrings(r)|) ==>
              RewrittenAt(b, d, r) == FixUp(Patched(b, d, r), d.offset, NewStrsz(d, r))
    ensures !Room(b, d, EntriesNeeded(r), |NewStrings(r)|) ==> RewrittenAt(b, d, r).Failure?
  {
    hide FixUp, CheckSlots, NewStrings, Patched;
    NeededFits(r);
    CheckSlotsIsZero(b, d.terminator + DYN_ENTRY_SIZE, EntriesNeeded(r));
  }

  /**
   On a separated layout a rewrite succeeds exactly when there is room for it, and then the
   closing loop always stops at the first DT_STRSZ of the original array.
   */
  lemma SucceedsIffRoom(b: seq<byte>, d: DynamicSection, es: seq<Dyn>, r: Request)
    requires Located(b, d, es)
    requires Apart(StringsStart(d), StringsStart(d) + |NewStrings(r)|, d.offset, d.segmentEnd)
    ensures Rewritten(b, r).Success? <==> Room(b, d, EntriesNeeded(r), |NewStrings(r)|)
    ensures Rewritten(b, r).Success? ==> Writable(b, d, es, r) && Rewritten(b, r).value == Output(b, d, es, r)
  {
    hide Located, Writable, Room, FixUp, Patched, RewrittenAt, NewStrings, Output, DynamicOf;
    LocatedAt(b, d, es);
    ChecksAreRoom(b, d, r);
    if Room(b, d, EntriesNeeded(r), |NewStrings(r)|) {
      WritableIntro(b, d, es, r);
      WritableBounds(b, d, es, r);
      ClosingLoopStops(b, d, es, r);
    }
  }

  // ---- the dynamic entries of the output

  /** The entries after a rewrite: the first DT_STRSZ grown, the new ones at the end. */
  function EntriesAfter(d: DynamicSection, es: seq<Dyn>, r: Request): (es': seq<Dyn>)
    requires FirstIndex(es, DT_STRSZ) < |es|
    ensures |es'| == |es| + EntriesNeeded(r)
  {
    es[FirstIndex(es, DT_STRSZ) := Dyn(DT_STRSZ, NewStrsz(d, r))] + NewEntries(r, d.strsz)
  }

  /** Only three runs of bytes change: the new strings, the new entries, the one length. */
  lemma OutputSame(b: seq<byte>, d: DynamicSection, es: seq<Dyn>, r: Request, lo: nat, hi: nat)
    requires Writable(b, d, es, r)
    requires Apart(StringsStart(d), StringsStart(d) + |NewStrings(r)|, lo, hi)
    requires Apart(d.terminator, d.terminator + DYN_ENTRY_SIZE * EntriesNeeded(r), lo, hi)
    requires Apart(StrszValueOffset(d, es), StrszValueOffset(d, es) + 8, lo, hi)
    ensures Same(b, Output(b, d, es, r), lo, hi)
  {
    hide Overlay, NewStrings, DynBytes, Digits, DynAt, Writable, NewEntries, FirstIndex, Same;
    WritableBounds(b, d, es, r);
    var b1 := Overlay(b, StringsStart(d), NewStrings(r));
    var b2 := Overlay(b1, d.terminator, DynBytes(NewEntries(r, d.strsz)));
    OverlaySame(b, StringsStart(d), NewStrings(r), lo, hi);
    OverlaySame(b1, d.terminator, DynBytes(NewEntries(r, d.strsz)), lo, hi);
    OverlaySame(b2, StrszValueOffset(d, es), Digits(NewStrsz(d, r), 8), lo, hi);
    SameTrans(b, b1, b2, lo, hi);
    SameTrans(b, b2, Output(b, d, es, r), lo, hi);
  }

  /** An entry of the original array reads back ... */
  lemma OldEntryReads(b: seq<byte>, d: DynamicSection, es: seq<Dyn>, r: Request, i: nat)
    requires Writable(b, d, es, r) && i < |es| && i != FirstIndex(es, DT_STRSZ)
    ensures DynAt(Output(b, d, es, r), d.offset + DYN_ENTRY_SIZE * i) == es[i]
  {
    hide Writable, Output, NewStrings, FirstIndex, DynAt, Same;
    EntryIn(b, d, es, r, i);
    WritableBounds(b, d, es, r);
    var off := d.offset + DYN_ENTRY_SIZE * i;
    OutputSame(b, d, es, r, off, off + DYN_ENTRY_SIZE);
    DynSame(b, Output(b, d, es, r), off);
  }

  /** ... unless it is the length that grows. */
  lemma StrszEntryReads(b: seq<byte>, d: DynamicSection, es: seq<Dyn>, r: Request)
    requires Writable(b, d, es, r)
    ensures DynAt(Output(b, d, es, r), StrszValueOffset(d, es) - 8) == Dyn(DT_STRSZ, NewStrsz(d, r))
  {
    hide Writable, Overlay, NewStrings, DynBytes, Digits, LE, FirstIndex, NewEntries, Patched, Same;
    WritableBounds(b, d, es, r);
    var k, out, w := FirstIndex(es, DT_STRSZ), Output(b, d, es, r), Digits(NewStrsz(d, r), 8);
    var off := d.offset + DYN_ENTRY_SIZE * k;
    EntryIn(b, d, es, r, k);
    FirstIsStrsz(es);
    LEOfDigits64(NewStrsz(d, r));
    OutputSame(b, d, es, r, off, off + 8);
    SameWindow(b, out, off, off + 8);
    OverlayWhole(Patched(b, d, r), off + 8, w);
  }

  lemma OverlayWhole(b: seq<byte>, at: nat, s: seq<byte>)
    requires at + |s| <= |b|
    ensures Overlay(b, at, s)[at..at + |s|] == s
  {
  }

  lemma FirstIsStrsz(es: seq<Dyn>)
    requires FirstIndex(es, DT_STRSZ) < |es|
    ensures es[FirstIndex(es, DT_STRSZ)].tag == DT_STRSZ
  {
  }

  /** The bytes of the `j`-th entry of a list laid down in one piece. */
  lemma {:induction false} DynBytesAt(es: seq<Dyn>, j: nat)
    requires j < |es|
    ensures DynBytes(es)[DYN_ENTRY_SIZE * j..DYN_ENTRY_SIZE * j + 8] == Digits(es[j].tag, 8)
    ensures DynBytes(es)[DYN_ENTRY_SIZE * j + 8..DYN_ENTRY_SIZE * j + 16] == Digits(es[j].val, 8)
  {
    hide Digits;
    var head, tail := Digits(es[0].tag, 8) + Digits(es[0].val, 8), DynBytes(es[1..]);
    assert DynBytes(es) == head + tail;
    if j > 0 {
      DynBytesAt(es[1..], j - 1);
      SuffixWindow(head, tail, DYN_ENTRY_SIZE * (j - 1), DYN_ENTRY_SIZE * (j - 1) + 8);
      SuffixWindow(head, tail, DYN_ENTRY_SIZE * (j - 1) + 8, DYN_ENTRY_SIZE * (j - 1) + 16);
    }
  }

  lemma SuffixWindow<T>(head: seq<T>, tail: seq<T>, lo: nat, hi: nat)
    requires lo <= hi <= |tail|
    ensures (head + tail)[|head| + lo..|head| + hi] == tail[lo..hi]
  {
  }

  lemma NewEntryReads(b: seq<byte>, d: DynamicSection, es: seq<Dyn>, r: Request, j: nat)
    requires Writable(b, d, es, r) && j < EntriesNeeded(r)
    ensures DynAt(Output(b, d, es, r), d.terminator + DYN_ENTRY_SIZE * j) == NewEntries(r, d.strsz)[j]
  {
    hide Writable, Overlay, NewStrings, DynBytes, Digits, FirstIndex, NewEntries, DynAt, Same;
    WritableBounds(b, d, es, r);
    NewEntriesFit(b, d, r, j);
    var p, off := Patched(b, d, r), d.terminator + DYN_ENTRY_SIZE * j;
    EntryLaidDown(Overlay(b, StringsStart(d), NewStrings(r)), d.terminator, NewEntries(r, d.strsz), j, p);
    OverlaySame(p, StrszValueOffset(d, es), Digits(NewStrsz(d, r), 8), off, off + DYN_ENTRY_SIZE);
    DynSame(p, Output(b, d, es, r), off);
  }

  lemma EntryLaidDown(b1: seq<byte>, at: nat, added: seq<Dyn>, j: nat, p: seq<byte>)
    requires at + |DynBytes(added)| <= |b1| && p == Overlay(b1, at, DynBytes(added))
    requires j < |added| && added[j].tag < U64_SIZE && added[j].val < U64_SIZE
    ensures DynAt(p, at + DYN_ENTRY_SIZE * j) == added[j]
  {
    hide DynBytes, Digits, LE, DynAt, Overlay;
    var off := at + DYN_ENTRY_SIZE * j;
    DynBytesAt(added, j);
    OverlayInside(b1, at, DynBytes(added), off, off + 8);
    OverlayInside(b1, at, DynBytes(added), off + 8, off + 16);
    EntryWritten(p, off, added[j]);
  }

  lemma NewEntriesFit(b: seq<byte>, d: DynamicSection, r: Request, j: nat)
    requires |b| < U64_SIZE && StringsStart(d) + |NewStrings(r)| <= |b| && j < EntriesNeeded(r)
    ensures NewEntries(r, d.strsz)[j].tag < U64_SIZE && NewEntries(r, d.strsz)[j].val < U64_SIZE
  {
  }

  lemma TerminatorSlotZero(b: seq<byte>, d: DynamicSection, es: seq<Dyn>, r: Request)
    requires Writable(b, d, es, r)
    ensures AllZero(b, d.terminator + DYN_ENTRY_SIZE * EntriesNeeded(r),
                    d.terminator + DYN_ENTRY_SIZE * (EntriesNeeded(r) + 1))
  {
    hide DynList, FirstIndex, NewStrings;
  }

  /** The slot after the last new entry was zero and becomes the terminator. */
  lemma NewTerminatorReads(b: seq<byte>, d: DynamicSection, es: seq<Dyn>, r: Request)
    requires Writable(b, d, es, r)
    ensures DynAt(Output(b, d, es, r), d.terminator + DYN_ENTRY_SIZE * EntriesNeeded(r)).tag == DT_NULL
  {
    hide Writable, Output, NewStrings, FirstIndex, DynAt, Same, AllZero;
    WritableBounds(b, d, es, r);
    TerminatorSlotZero(b, d, es, r);
    var off := d.terminator + DYN_ENTRY_SIZE * EntriesNeeded(r);
    ZeroSlotIsNull(b, off);
    OutputSame(b, d, es, r, off, off + DYN_ENTRY_SIZE);
    DynSame(b, Output(b, d, es, r), off);
  }

  /** So the output's array is the edited list, and its terminator is still inside PT_DYNAMIC. */
  lemma OutputEntries(b: seq<byte>, d: DynamicSection, es: seq<Dyn>, r: Request)
    requires Writable(b, d, es, r)
    ensures DynList(Output(b, d, es, r), d.offset, d.segmentEnd, EntriesAfter(d, es, r))
  {
    hide Writable, NewStrings, Output, DynAt, FirstIndex, NewEntries, EntriesAfter;
    WritableBounds(b, d, es, r);
    WritableSegment(b, d, es, r);
    NewTerminatorReads(b, d, es, r);
    var out, es' := Output(b, d, es, r), EntriesAfter(d, es, r);
    forall i | 0 <= i < |es'|
      ensures DynAt(out, d.offset + DYN_ENTRY_SIZE * i) == es'[i] && es'[i].tag != DT_NULL
    {
      OutputEntry(b, d, es, r, i);
    }
  }

  lemma WritableSegment(b: seq<byte>, d: DynamicSection, es: seq<Dyn>, r: Request)
    requires Writable(b, d, es, r)
    ensures d.segmentEnd < U64_SIZE
  {
  }

  lemma OutputEntry(b: seq<byte>, d: DynamicSection, es: seq<Dyn>, r: Request, i: nat)
    requires Writable(b, d, es, r) && i < |es| + EntriesNeeded(r)
    requires d.offset + DYN_ENTRY_SIZE * (i + 1) <= |b|
    ensures DynAt(Output(b, d, es, r), d.offset + DYN_ENTRY_SIZE * i) == EntriesAfter(d, es, r)[i]
    ensures EntriesAfter(d, es, r)[i].tag != DT_NULL
  {
    hide Writable, NewStrings, Output, DynAt, FirstIndex, NewEntries, NewStrsz;
    WritableBounds(b, d, es, r);
    NewTagsNotNull(r, d.strsz);
    if i == FirstIndex(es, DT_STRSZ) {
      StrszEntryReads(b, d, es, r);
    } else if i < |es| {
      OldEntryReads(b, d, es, r, i);
      EntryIn(b, d, es, r, i);
    } else {
      NewEntryReads(b, d, es, r, i - |es|);
    }
  }

  lemma NewTagsNotNull(r: Request, strsz: nat)
    ensures forall j :: 0 <= j < EntriesNeeded(r) ==> NewEntries(r, strsz)[j].tag !in {DT_NULL, DT_STRTAB, DT_STRSZ}
  {
  }
}
