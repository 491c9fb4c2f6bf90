/**
 What locating the dynamic section computes, said directly of the file's words: which headers are
 read and from where, which segment is taken, and how an address becomes a file offset.
 */
module ElfLookup {
  import opened Results
  import opened Bytes
  import opened ElfFormat
  import opened ElfRewrite
  import opened ElfFrames
  import opened ElfTheorems

  // ---- program headers

  /** The header whose row starts at `o`, by the offsets of its fields. */
  ghost predicate HeaderAt(b: seq<byte>, o: nat, h: ProgramHeader) {
    && o + 40 <= |b|
    && h.kind == LE(b[o..o + 4]) && h.offset == LE(b[o + 8..o + 16])
    && h.vaddr == LE(b[o + 16..o + 24]) && h.filesz == LE(b[o + 32..o + 40])
  }

  /** The headers are the rows of the table that the ELF header describes. */
  lemma HeadersAreRows(b: seq<byte>)
    requires ProgramHeaders(b).Success?
    ensures |b| >= 58 && LE(b[54..56]) >= 56 && |ProgramHeaders(b).value| == LE(b[56..58])
    ensures forall i :: 0 <= i < |ProgramHeaders(b).value| ==>
              HeaderAt(b, LE(b[32..40]) + i * LE(b[54..56]), ProgramHeaders(b).value[i])
  {
    hide LE, PhdrsFrom;
    var t := PhdrTableOf(b).value;
    forall i | 0 <= i < |ProgramHeaders(b).value|
      ensures HeaderAt(b, t.offset + i * t.size, ProgramHeaders(b).value[i])
    {
      RowAt(b, t.offset, t.size, t.count, i);
    }
  }

  lemma {:induction false} RowAt(b: seq<byte>, off: nat, size: nat, n: nat, i: nat)
    requires PhdrsFrom(b, off, size, n).Success? && i < n
    ensures i * size >= 0 && HeaderAt(b, off + i * size, PhdrsFrom(b, off, size, n).value[i])
    decreases n
  {
    hide LE;
    if i > 0 {
      RowAt(b, off + size, size, n - 1, i - 1);
      NextRow(i - 1, size);
    }
  }

  /** The headers are readable exactly when the table's rows are long enough and lie in the file. */
  lemma HeadersReadExactly(b: seq<byte>)
    requires |b| < U64_SIZE
    ensures ProgramHeaders(b).Success? <==>
            && |b| >= 58 && LE(b[54..56]) >= 56
            && (LE(b[56..58]) > 0 ==> LE(b[32..40]) + (LE(b[56..58]) - 1) * LE(b[54..56]) + 40 <= |b|)
  {
    hide LE, PhdrsFrom;
    if PhdrTableOf(b).Success? {
      var t := PhdrTableOf(b).value;
      RowsReadable(b, t.offset, t.size, t.count);
    }
  }

  lemma {:induction false} RowsReadable(b: seq<byte>, off: nat, size: nat, n: nat)
    requires |b| < U64_SIZE
    ensures PhdrsFrom(b, off, size, n).Success? <==> (n > 0 ==> off + (n - 1) * size + 40 <= |b|)
    decreases n
  {
    hide LE;
    if n > 1 {
      RowsReadable(b, off + size, size, n - 1);
      NextRow(n - 2, size);
      RowsNonNegative(n - 2, size);
    }
  }

  // ---- addresses

  /** A PT_LOAD segment whose file bytes cover the address. */
  predicate Covers(h: ProgramHeader, vaddr: nat) {
    h.kind == 1 && h.vaddr <= vaddr < h.vaddr + h.filesz
  }

  predicate FirstCovering(hs: seq<ProgramHeader>, vaddr: nat, k: nat) {
    k < |hs| && Covers(hs[k], vaddr) && forall j :: 0 <= j < k ==> !Covers(hs[j], vaddr)
  }

  /**
   Address translation: the first PT_LOAD segment covering the address decides. The offset is the
   segment's own plus the distance into it; a segment end or an offset that leaves 64 bits
   overflows; with no such segment the file is malformed.
   */
  lemma TranslationIs(hs: seq<ProgramHeader>, vaddr: nat)
    requires vaddr < U64_SIZE
    ensures forall k: nat :: FirstCovering(hs, vaddr, k) ==>
              VaddrToFileOffset(hs, vaddr) ==
              if hs[k].vaddr + hs[k].filesz >= U64_SIZE || hs[k].offset + vaddr - hs[k].vaddr >= U64_SIZE
              then Failure(Overflow) else Success(hs[k].offset + vaddr - hs[k].vaddr)
    ensures (forall k: nat :: !FirstCovering(hs, vaddr, k)) <==>
            VaddrToFileOffset(hs, vaddr).Failure? && VaddrToFileOffset(hs, vaddr).error.Malformed?
  {
    CoveringDecides(hs, vaddr);
    forall k: nat | FirstCovering(hs, vaddr, k)
      ensures k == FirstCover(hs, vaddr)
    {
    }
    if FirstCover(hs, vaddr) < |hs| {
      assert FirstCovering(hs, vaddr, FirstCover(hs, vaddr));
    }
  }

  function FirstCover(hs: seq<ProgramHeader>, vaddr: nat): (k: nat)
    ensures k <= |hs| && (k < |hs| ==> Covers(hs[k], vaddr))
    ensures forall j :: 0 <= j < k ==> !Covers(hs[j], vaddr)
  {
    if hs == [] || Covers(hs[0], vaddr) then 0
    else
      var k := FirstCover(hs[1..], vaddr);
      assert forall j :: 1 <= j <= k && j < |hs| ==> hs[j] == hs[1..][j - 1];
      1 + k
  }

  lemma {:induction false} CoveringDecides(hs: seq<ProgramHeader>, vaddr: nat)
    requires vaddr < U64_SIZE
    ensures var r, k := VaddrToFileOffset(hs, vaddr), FirstCover(hs, vaddr);
            if k == |hs| then r.Failure? && r.error.Malformed?
            else r == if hs[k].vaddr + hs[k].filesz >= U64_SIZE || hs[k].offset + vaddr - hs[k].vaddr >= U64_SIZE
                      then Failure(Overflow) else Success(hs[k].offset + vaddr - hs[k].vaddr)
  {
    if hs != [] && !Covers(hs[0], vaddr) {
      CoveringDecides(hs[1..], vaddr);
    }
  }

  // ---- the dynamic section

  predicate FirstDynamic(hs: seq<ProgramHeader>, k: nat) {
    k < |hs| && hs[k].kind == 2 && forall j :: 0 <= j < k ==> hs[j].kind != 2
  }

  lemma {:induction false} DynamicIsFirst(hs: seq<ProgramHeader>)
    ensures match FindDynamic(hs)
            case Success(h) => exists k: nat :: FirstDynamic(hs, k) && h == hs[k]
            case Failure(e) => e == NoDynamicSection && forall j :: 0 <= j < |hs| ==> hs[j].kind != 2
  {
    if hs != [] && hs[0].kind != PT_DYNAMIC {
      DynamicIsFirst(hs[1..]);
      if FindDynamic(hs).Success? {
        var k: nat :| FirstDynamic(hs[1..], k) && FindDynamic(hs).value == hs[1..][k];
        assert forall j :: 1 <= j <= k + 1 ==> hs[j] == hs[1..][j - 1];
        assert FirstDynamic(hs, k + 1);
      }
    } else if hs != [] {
      assert FirstDynamic(hs, 0);
    }
  }

  /**
   Where everything is: the array is the first PT_DYNAMIC segment, and the string table lies where
   the first PT_LOAD segment covering the last DT_STRTAB address puts it.
   */
  lemma SectionIs(b: seq<byte>)
    requires |b| < U64_SIZE && DynamicOf(b).Success?
    ensures var d, hs := DynamicOf(b).value, ProgramHeaders(b).value;
            && (exists k: nat ::
                  && FirstDynamic(hs, k)
                  && d.offset == hs[k].offset && d.segmentEnd == hs[k].offset + hs[k].filesz)
            && LastValue(Entries(b), 5).Some? && LastValue(Entries(b), 10) == Some(d.strsz)
            && (exists k: nat ::
                  && FirstCovering(hs, LastValue(Entries(b), 5).value, k)
                  && d.strtab == hs[k].offset + LastValue(Entries(b), 5).value - hs[k].vaddr)
  {
    hide LE, FindDynamic, VaddrToFileOffset, ParseDyn, ProgramHeaders, Identified, FirstDynamic, FirstCovering;
    hide LastValue;
    var d, hs, es := DynamicOf(b).value, ProgramHeaders(b).value, Entries(b);
    DynamicIsFirst(hs);
    ParsedIsDynList(b, d.offset, d.segmentEnd);
    StrszFits(b, d.offset, d.segmentEnd, es);
    TranslationIs(hs, LastValue(es, 5).value);
  }

  /**
   ... and such a file is located: given an array that stands in the first PT_DYNAMIC segment and a
   covering segment for its string table, the section is found, with these values.
   */
  lemma SectionFoundFrom(b: seq<byte>, es: seq<Dyn>, k: nat, m: nat, v: nat, n: nat)
    requires Identified(b) && ProgramHeaders(b).Success?
    requires var hs := ProgramHeaders(b).value;
             && FirstDynamic(hs, k) && DynList(b, hs[k].offset, hs[k].offset + hs[k].filesz, es)
             && LastValue(es, 5) == Some(v) && LastValue(es, 10) == Some(n) && v < U64_SIZE
             && FirstCovering(hs, v, m)
             && hs[m].vaddr + hs[m].filesz < U64_SIZE && hs[m].offset + v - hs[m].vaddr < U64_SIZE
    ensures var hs := ProgramHeaders(b).value;
            DynamicOf(b) == Success(DynamicSection(
              hs[k].offset, hs[k].offset + 16 * |es|, hs[k].offset + hs[k].filesz, hs[m].offset + v - hs[m].vaddr, n))
  {
    hide LE, FindDynamic, VaddrToFileOffset, ParseDyn, ProgramHeaders, Identified, FirstCovering, LastValue, DynList;
    var hs := ProgramHeaders(b).value;
    DynamicIsFirst(hs);
    DynListParses(b, hs[k].offset, hs[k].offset + hs[k].filesz, es);
    ArrayInside(b, hs[k].offset, hs[k].offset + hs[k].filesz, es);
    TranslationIs(hs, v);
  }

  lemma ArrayInside(b: seq<byte>, off: nat, segEnd: nat, es: seq<Dyn>)
    requires DynList(b, off, segEnd, es)
    ensures segEnd < U64_SIZE
  {
    hide LE;
  }

  /** The value found is that of an entry with the tag after which no other has it. */
  lemma {:induction false} LastValueIsLast(es: seq<Dyn>, tag: nat, i: nat)
    requires i < |es| && es[i].tag == tag && forall j :: i < j < |es| ==> es[j].tag != tag
    ensures LastValue(es, tag) == Some(es[i].val)
  {
    if i > 0 {
      LastValueIsLast(es[1..], tag, i - 1);
    } else {
      assert FirstIndex(es[1..], tag) == |es[1..]|;
    }
  }

  // ---- refusals

  /** Which files are refused outright, by their first bytes. */
  lemma NotIdentifiedExactly(b: seq<byte>, r: Request)
    ensures Rewritten(b, r) == Failure(NotExecutableOrPie) <==>
            !(&& |b| >= 64 && b[0..4] == [0x7f, 0x45, 0x4c, 0x46] && b[4] == 2 && b[5] == 1
              && LE(b[16..18]) in {2, 3})
  {
    hide LE, Locate, ProgramHeaders, RewrittenAt;
    if Identified(b) && ProgramHeaders(b).Failure? {
      HeaderErrors(b);
    } else if Identified(b) {
      LocateErrors(b, ProgramHeaders(b).value);
      if DynamicOf(b).Success? {
        WriteErrors(b, DynamicOf(b).value, r);
      }
    }
  }

  /**
   A file with a readable header table is refused for having no dynamic section exactly when no
   header is PT_DYNAMIC.
   */
  lemma NoDynamicExactly(b: seq<byte>, r: Request)
    requires Identified(b) && ProgramHeaders(b).Success?
    ensures Rewritten(b, r) == Failure(NoDynamicSection) <==>
            forall j :: 0 <= j < |ProgramHeaders(b).value| ==> ProgramHeaders(b).value[j].kind != 2
  {
    hide LE, ProgramHeaders, RewrittenAt, ParseDyn, VaddrToFileOffset, FindDynamic, Identified;
    var hs := ProgramHeaders(b).value;
    DynamicIsFirst(hs);
    LocateErrors(b, hs);
    if DynamicOf(b).Success? {
      WriteErrors(b, DynamicOf(b).value, r);
    }
  }

  /**
   Without room, a file whose dynamic segment lies inside it is refused for exactly that reason,
   as long as the string table's bounds fit 64 bits.
   */
  lemma NoRoomIsNoSpace(b: seq<byte>, d: DynamicSection, es: seq<Dyn>, r: Request)
    requires Located(b, d, es) && d.segmentEnd <= |b|
    requires StringsStart(d) + |NewStrings(r)| < U64_SIZE
    ensures Rewritten(b, r) == Failure(NoFreeStringTableSpace) <==>
            !(&& d.terminator + 16 * (EntriesNeeded(r) + 1) <= d.segmentEnd
              && (forall i :: d.terminator + 16 <= i < d.terminator + 16 * (EntriesNeeded(r) + 1) ==> b[i] == 0)
              && d.strtab + d.strsz + |NewStrings(r)| <= |b|
              && (forall i :: d.strtab + d.strsz <= i < d.strtab + d.strsz + |NewStrings(r)| ==> b[i] == 0))
  {
    hide LE, FixUp, CheckSlots, NewStrings, Patched, Located, DynamicOf;
    LocatedAt(b, d, es);
    NeededFits(r);
    CheckSlotsIsZero(b, d.terminator + DYN_ENTRY_SIZE, EntriesNeeded(r));
    if d.terminator + DYN_ENTRY_SIZE * (EntriesNeeded(r) + 1) <= d.segmentEnd {
      SlotCheckErrors(b, d.terminator + DYN_ENTRY_SIZE, EntriesNeeded(r));
    }
    if Room(b, d, EntriesNeeded(r), |NewStrings(r)|) {
      ChecksAreRoom(b, d, r);
      FixUpErrors(Patched(b, d, r), d.offset, NewStrsz(d, r));
    }
  }

  lemma {:induction false} SlotCheckErrors(b: seq<byte>, slot: nat, n: nat)
    requires |b| < U64_SIZE && slot + DYN_ENTRY_SIZE * n <= |b|
    ensures CheckSlots(b, slot, n).Failure? ==> CheckSlots(b, slot, n) == Failure(NoFreeStringTableSpace)
    decreases n
  {
    hide LE;
    if n > 0 {
      SlotCheckErrors(b, slot + DYN_ENTRY_SIZE, n - 1);
    }
  }

  /** Errors of reading: an overflow, or a file that ends too soon. */
  predicate ReadError(e: RewriteError) {
    e == Overflow || e.Malformed?
  }

  lemma {:induction false} FixUpErrors(b: seq<byte>, off: nat, strsz: nat)
    ensures FixUp(b, off, strsz).Failure? ==>
              ReadError(FixUp(b, off, strsz).error) || FixUp(b, off, strsz).error == Panic
    decreases |b| - off
  {
    hide LE, Overlay, Digits;
    if ReadLE(b, off, 8).Success? {
      FixUpErrors(b, off + DYN_ENTRY_SIZE, strsz);
    }
  }

  lemma HeaderErrors(b: seq<byte>)
    requires ProgramHeaders(b).Failure?
    ensures ReadError(ProgramHeaders(b).error)
  {
    hide LE, PhdrsFrom;
    if PhdrTableOf(b).Success? {
      var t := PhdrTableOf(b).value;
      RowErrors(b, t.offset, t.size, t.count);
    }
  }

  lemma {:induction false} RowErrors(b: seq<byte>, off: nat, size: nat, n: nat)
    ensures PhdrsFrom(b, off, size, n).Failure? ==> ReadError(PhdrsFrom(b, off, size, n).error)
    decreases n
  {
    hide LE;
    if n > 0 {
      RowErrors(b, off + size, size, n - 1);
    }
  }

  lemma LocateErrors(b: seq<byte>, hs: seq<ProgramHeader>)
    ensures Locate(b, hs).Failure? ==>
              ReadError(Locate(b, hs).error) || Locate(b, hs) == Failure(NoDynamicSection)
    ensures Locate(b, hs) == Failure(NoDynamicSection) <==> FindDynamic(hs) == Failure(NoDynamicSection)
  {
    hide LE, ParseDyn, VaddrToFileOffset, FindDynamic, LastValue;
    DynamicIsFirst(hs);
    if FindDynamic(hs).Success? {
      var seg := FindDynamic(hs).value;
      ArrayErrors(b, seg.offset, seg.offset + seg.filesz);
    }
    forall vaddr: nat
      ensures VaddrToFileOffset(hs, vaddr).Failure? ==> ReadError(VaddrToFileOffset(hs, vaddr).error)
    {
      AddressErrors(hs, vaddr);
    }
  }

  lemma {:induction false} ArrayErrors(b: seq<byte>, off: nat, segEnd: nat)
    ensures ParseDyn(b, off, segEnd).Failure? ==> ReadError(ParseDyn(b, off, segEnd).error)
    decreases segEnd - off
  {
    hide LE;
    if off + DYN_ENTRY_SIZE <= segEnd {
      ArrayErrors(b, off + DYN_ENTRY_SIZE, segEnd);
    }
  }

  lemma {:induction false} AddressErrors(hs: seq<ProgramHeader>, vaddr: nat)
    ensures VaddrToFileOffset(hs, vaddr).Failure? ==> ReadError(VaddrToFileOffset(hs, vaddr).error)
  {
    if hs != [] {
      AddressErrors(hs[1..], vaddr);
    }
  }

  lemma WriteErrors(b: seq<byte>, d: DynamicSection, r: Request)
    ensures RewrittenAt(b, d, r).Failure? ==> RewrittenAt(b, d, r).error !in {NotExecutableOrPie, NoDynamicSection}
  {
    hide LE, FixUp, CheckSlots, NewStrings, Patched, AllZero;
    SlotCheckKinds(b, d.terminator + DYN_ENTRY_SIZE, EntriesNeeded(r));
    forall p: seq<byte>, off: nat, strsz: nat
      ensures FixUp(p, off, strsz).Failure? ==> FixUp(p, off, strsz).error !in {NotExecutableOrPie, NoDynamicSection}
    {
      FixUpErrors(p, off, strsz);
    }
  }

  lemma {:induction false} SlotCheckKinds(b: seq<byte>, slot: nat, n: nat)
    ensures CheckSlots(b, slot, n).Failure? ==>
              CheckSlots(b, slot, n) == Failure(NoFreeStringTableSpace) || ReadError(CheckSlots(b, slot, n).error)
    decreases n
  {
    hide LE;
    if n > 0 {
      SlotCheckKinds(b, slot + DYN_ENTRY_SIZE, n - 1);
    }
  }
}
