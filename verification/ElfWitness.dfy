/**
 Small files, byte by byte: one that the theorems about chains apply to, one with two DT_STRSZ
 entries, and one whose string padding runs into its dynamic array.
 */
module ElfWitness {
  import opened Results
  import opened Bytes
  import opened ElfFormat
  import opened ElfRewrite
  import opened ElfTheorems
  import opened ElfLoader
  import opened ElfChains
  import opened ElfOverlap

  /**
   A file: ELF header; a PT_LOAD as long as the file and PT_DYNAMIC at 176; DT_STRTAB, DT_STRSZ, a
   third entry (or DT_NULL) and then zeros.
   */
  datatype Sample = Sample(
    kind: byte, loadOffset: byte, loadVaddr: nat,
    size: nat, arraySize: byte, strtab: nat, strsz: byte, tag: byte, val: byte)

  /**
   A position-independent file, loaded from offset 16 at address 0x1000, with one spare slot and a
   string table of one byte at address 0x10f0, which is offset 256.
   */
  const READY := Sample(3, 16, 0x1000, 272, 80, 0x10f0, 1, 1, 0)
  /** An executable loaded from 0 at 0, with DT_STRSZ a second time in place of the third entry. */
  const TWO_LENGTHS := Sample(2, 0, 0, 272, 80, 256, 1, 10, 1)
  /** An empty string table that starts inside the tag of DT_STRSZ, at 193; the file ends in half a slot. */
  const OVERLAPPED := Sample(2, 0, 0, 248, 64, 193, 0, 0, 0)

  predicate Fits(l: Sample) {
    240 <= l.size < 0x1_0000 && 64 <= l.arraySize && 176 + l.arraySize as int <= l.size
    && l.kind in {2, 3} && l.loadVaddr < 0x8000 && l.loadVaddr <= l.strtab < l.loadVaddr + l.size
    && l.strtab < 0x1_0000 && (l.tag == 0 ==> l.val == 0)
  }

  function File(l: Sample): (b: seq<byte>)
    ensures |b| == l.size
  {
    seq(l.size, (i: nat) => FileByte(l, i))
  }

  function FileByte(l: Sample, i: nat): byte {
    match i
    case 0 => 0x7f case 1 => 0x45 case 2 => 0x4c case 3 => 0x46
    case 4 => 2 case 5 => 1 case 16 => l.kind
    case 32 => 64 case 54 => 56 case 56 => 2
    case 64 => 1 case 72 => l.loadOffset case 80 => l.loadVaddr % 256 case 81 => l.loadVaddr / 256 % 256
    case 96 => l.size % 256 case 97 => l.size / 256 % 256
    case 120 => 2 case 128 => 0xb0 case 152 => l.arraySize
    case 176 => 5 case 184 => l.strtab % 256 case 185 => l.strtab / 256 % 256
    case 192 => 10 case 200 => l.strsz
    case 208 => l.tag case 216 => l.val
    case _ => 0
  }

  // ---- what the files read as

  lemma SmallWord(b: seq<byte>, off: nat, n: nat)
    requires 2 <= n && off + n <= |b| < U64_SIZE
    requires forall i :: off + 2 <= i < off + n ==> b[i] == 0
    ensures ReadLE(b, off, n) == Success(b[off] as int + 256 * b[off + 1] as int)
  {
    var w := b[off..off + n];
    assert w[1..][1..] == w[2..];
    LEOfZeros(w[2..]);
    assert LE(w[1..]) == w[1] as int + 256 * LE(w[2..]);
    assert LE(w) == w[0] as int + 256 * LE(w[1..]);
  }

  lemma Word(l: Sample, off: nat, n: nat)
    requires 2 <= n && off + n <= l.size < U64_SIZE
    requires forall i :: off + 2 <= i < off + n ==> FileByte(l, i) == 0
    ensures ReadLE(File(l), off, n) == Success(FileByte(l, off) as int + 256 * FileByte(l, off + 1) as int)
    ensures LE(File(l)[off..off + n]) == FileByte(l, off) as int + 256 * FileByte(l, off + 1) as int
  {
    SmallWord(File(l), off, n);
  }

  function LoadHeader(l: Sample): ProgramHeader {
    ProgramHeader(PT_LOAD, l.loadOffset, l.loadVaddr, l.size)
  }

  function DynamicHeader(l: Sample): ProgramHeader {
    ProgramHeader(PT_DYNAMIC, 176, 0, l.arraySize)
  }

  lemma Headers(l: Sample)
    requires Fits(l)
    ensures Identified(File(l))
    ensures PhdrTableOf(File(l)) == Success(PhdrTable(64, 56, 2))
    ensures PhdrAt(File(l), 64) == Success(LoadHeader(l))
    ensures PhdrAt(File(l), 120) == Success(DynamicHeader(l))
  {
    hide LE, ReadLE, FileByte;
    var b := File(l);
    assert b[0..4] == [FileByte(l, 0), FileByte(l, 1), FileByte(l, 2), FileByte(l, 3)];
    HeaderWords(l);
    LoadWords(l);
    DynamicWords(l);
  }

  lemma HeaderWords(l: Sample)
    requires Fits(l)
    ensures var b := File(l);
            && FileByte(l, 0) == 0x7f && FileByte(l, 1) == 0x45 && FileByte(l, 2) == 0x4c && FileByte(l, 3) == 0x46
            && FileByte(l, 4) == 2 && FileByte(l, 5) == 1
            && LE(b[16..18]) == l.kind as int
            && ReadLE(b, 32, 8) == Success(64) && ReadLE(b, 54, 2) == Success(56) && ReadLE(b, 56, 2) == Success(2)
  {
    hide LE, ReadLE, File;
    Word(l, 16, 2);
    Word(l, 32, 8);
    Word(l, 54, 2);
    Word(l, 56, 2);
  }

  lemma LoadWords(l: Sample)
    requires Fits(l)
    ensures var b := File(l);
            && ReadLE(b, 64, 4) == Success(1) && ReadLE(b, 72, 8) == Success(l.loadOffset)
            && ReadLE(b, 80, 8) == Success(l.loadVaddr) && ReadLE(b, 96, 8) == Success(l.size)
  {
    hide LE, ReadLE, File;
    Word(l, 64, 4);
    Word(l, 72, 8);
    Word(l, 80, 8);
    Word(l, 96, 8);
  }

  lemma DynamicWords(l: Sample)
    requires Fits(l)
    ensures var b := File(l);
            && ReadLE(b, 120, 4) == Success(2) && ReadLE(b, 128, 8) == Success(176)
            && ReadLE(b, 136, 8) == Success(0) && ReadLE(b, 152, 8) == Success(l.arraySize)
  {
    hide LE, ReadLE, File;
    Word(l, 120, 4);
    Word(l, 128, 8);
    Word(l, 136, 8);
    Word(l, 152, 8);
  }

  function EntriesOf(l: Sample): seq<Dyn> {
    [Dyn(DT_STRTAB, l.strtab), Dyn(DT_STRSZ, l.strsz)] + if l.tag == 0 then [] else [Dyn(l.tag, l.val)]
  }

  lemma Array(l: Sample)
    requires Fits(l)
    ensures DynList(File(l), 176, 176 + l.arraySize as int, EntriesOf(l))
  {
    hide LE, ReadLE, File;
    Word(l, 176, 8);
    Word(l, 184, 8);
    Word(l, 192, 8);
    Word(l, 200, 8);
    Word(l, 208, 8);
    Word(l, 216, 8);
    Word(l, 224, 8);
    Word(l, 232, 8);
  }

  lemma HeadersRead(l: Sample)
    requires Fits(l)
    ensures ProgramHeaders(File(l)) == Success([LoadHeader(l), DynamicHeader(l)])
  {
    hide PhdrAt, File, ReadLE, Identified;
    var b, load, dynamic := File(l), LoadHeader(l), DynamicHeader(l);
    Headers(l);
    assert PhdrsFrom(b, 176, 56, 0) == Success([]);
    assert PhdrsFrom(b, 120, 56, 1) == Success([dynamic] + []);
    assert [dynamic] + [] == [dynamic];
    assert [load] + [dynamic] == [load, dynamic];
    assert PhdrsFrom(b, 64, 56, 2) == Success([load] + [dynamic]);
  }

  function SectionOf(l: Sample): DynamicSection
    requires Fits(l)
  {
    DynamicSection(176, 176 + DYN_ENTRY_SIZE * |EntriesOf(l)|, 176 + l.arraySize as int,
                   l.loadOffset as int + l.strtab - l.loadVaddr,
                   if l.tag as int == DT_STRSZ then l.val else l.strsz)
  }

  lemma SectionValues()
    ensures Fits(READY) && Fits(TWO_LENGTHS) && Fits(OVERLAPPED)
    ensures SectionOf(READY) == SectionOf(TWO_LENGTHS) == DynamicSection(176, 224, 256, 256, 1)
    ensures SectionOf(OVERLAPPED) == DynamicSection(176, 208, 240, 193, 0)
  {
  }

  lemma SectionRead(l: Sample)
    requires Fits(l) && l.tag as int != DT_STRTAB
    ensures DynamicOf(File(l)) == Success(SectionOf(l))
    ensures Entries(File(l)) == EntriesOf(l)
  {
    hide ReadLE, File, ParseDyn, ProgramHeaders, Identified, DynList, LastValue, EntriesOf;
    var b, hs := File(l), [LoadHeader(l), DynamicHeader(l)];
    Headers(l);
    HeadersRead(l);
    Array(l);
    DynListParses(b, 176, 176 + l.arraySize as int, EntriesOf(l));
    Lookups(l);
    assert hs[1..] == [DynamicHeader(l)];
    assert FindDynamic(hs) == Success(DynamicHeader(l));
    assert VaddrToFileOffset(hs, l.strtab) == Success(SectionOf(l).strtab);
  }

  lemma Lookups(l: Sample)
    requires l.tag as int != DT_STRTAB
    ensures var es := EntriesOf(l);
            && LastValue(es, DT_STRTAB) == Some(l.strtab)
            && LastValue(es, DT_STRSZ) == Some(if l.tag as int == DT_STRSZ then l.val else l.strsz)
            && FirstIndex(es, DT_STRSZ) == 1
            && (Once(es, DT_STRSZ) <==> l.tag as int != DT_STRSZ)
  {
    var es := EntriesOf(l);
    var third := if l.tag == 0 then [] else [Dyn(l.tag, l.val)];
    assert es[1..] == [Dyn(DT_STRSZ, l.strsz)] + third;
    assert es[2..] == es[1..][1..] == third;
    if third != [] {
      assert third[1..] == [];
    }
    assert LastValue([], DT_STRTAB) == None && LastValue([], DT_STRSZ) == None;
    assert LastValue(third, DT_STRTAB) == None;
    assert LastValue(es[1..], DT_STRTAB) == None;
    assert FirstIndex(es[1..], DT_STRSZ) == 0;
    assert LastValue(third, DT_STRSZ) == if l.tag as int == DT_STRSZ then Some(l.val) else None;
    assert FirstIndex(es, DT_STRSZ) == 1;
  }

  lemma SpareZero(l: Sample)
    requires Fits(l)
    ensures AllZero(File(l), 224, 240)
    ensures l.size == 272 ==> AllZero(File(l), 240, 256) && AllZero(File(l), 256, 272)
  {
  }

  // ---- a file that chains apply to

  /** With at most one DT_STRSZ and strings at 256 up to the end, the regions of a sample are apart. */
  lemma SampleSeparated(l: Sample)
    requires Fits(l) && l.size == 272 && l.arraySize == 80 && SectionOf(l).strtab == 256
    ensures Separated(File(l), SectionOf(l), 272)
  {
    hide File, Identified, PhdrTableOf, PhdrAt, EntriesOf;
    Headers(l);
  }

  /** The conditions of the theorems about chains can be met, and a chain can succeed. */
  lemma ReadyFile()
    ensures DynamicOf(File(READY)) == Success(DynamicSection(176, 224, 256, 256, 1))
    ensures Ready(File(READY), SectionOf(READY), EntriesOf(READY), 272)
    ensures Rewritten(File(READY), Request([0x61], None)).Success?
  {
    hide File, Ready, Separated, Room, NewStrings, DynamicOf, Entries, EntriesOf, Once, Rewritten, SectionOf;
    var b, d, r := File(READY), SectionOf(READY), Request([0x61], None);
    SectionValues();
    SectionRead(READY);
    Lookups(READY);
    SampleSeparated(READY);
    ReadyIntro(b, d, 272);
    HasRoom(READY, r);
    Link(b, d, EntriesOf(READY), r, 272);
  }

  lemma HasRoom(l: Sample, r: Request)
    requires l in {READY, TWO_LENGTHS} && r == Request([0x61], None)
    ensures |NewStrings(r)| == 2 && StringsStart(SectionOf(l)) == 257
    ensures Room(File(l), SectionOf(l), EntriesNeeded(r), |NewStrings(r)|)
  {
    hide File;
    SpareZero(l);
  }

  // ---- two lengths

  /** The rewrite succeeds, adds two bytes of strings, and a reader still sees a length of 1. */
  lemma TwoLengthsDisagree()
    ensures var b, d, r := File(TWO_LENGTHS), SectionOf(TWO_LENGTHS), Request([0x61], None);
            && DynamicOf(b) == Success(d) && |NewStrings(r)| == 2
            && Rewritten(b, r).Success?
            && DynamicOf(Rewritten(b, r).value).Success?
            && DynamicOf(Rewritten(b, r).value).value.strsz == d.strsz
  {
    hide File, Rewritten, DynamicOf, Entries, ProgramHeaders, FirstIndex, Identified, Once, NewStrings, Room;
    hide Located, Separated, EntriesAfter, EntriesOf, SectionOf;
    var l, b, d, r := TWO_LENGTHS, File(TWO_LENGTHS), SectionOf(TWO_LENGTHS), Request([0x61], None);
    SectionValues();
    SectionRead(l);
    Lookups(l);
    HasRoom(l, r);
    SampleSeparated(l);
    LocatedIntro(b, d);
    SeparatedStrings(b, d, r, 272);
    SucceedsIffRoom(b, d, Entries(b), r);
    RewriteExtendsDynamic(b, d, r, 272);
  }

  // ---- overlapping strings

  /** 47 letters and a newline: written from 193 on, they cover all tags up to the last half slot. */
  function LongName(): (s: seq<byte>)
    ensures |s| == 48 && 0 !in s
  {
    seq(48, i => if i < 47 then 0x61 else 10)
  }

  /**
   All checks pass, the strings are laid over the array, and the closing loop runs on to the end of
   the file, where it takes the newline for a DT_STRSZ and indexes past the buffer.
   */
  lemma OverlapPanics()
    ensures var b, d := File(OVERLAPPED), SectionOf(OVERLAPPED);
            && DynamicOf(b) == Success(d) && !TagKept(d, Entries(b), Request(LongName(), None))
            && Rewritten(b, Request(LongName(), None)) == Failure(Panic)
  {
    hide LE, File, DynamicOf, Entries, EntriesOf, FirstIndex, Once, NewStrings, Room, Patched, StopsAt, TagKept;
    hide Rewritten, LongName, SectionOf;
    var l, b, d, r := OVERLAPPED, File(OVERLAPPED), SectionOf(OVERLAPPED), Request(LongName(), None);
    SectionRead(l);
    OverlapRoom(r);
    OverlapStops(r);
    PanicsExactly(b, r);
  }

  lemma OverlapRoom(r: Request)
    requires r == Request(LongName(), None)
    ensures var d := SectionOf(OVERLAPPED);
            && d == DynamicSection(176, 208, 240, 193, 0) && |NewStrings(r)| == 49
            && NewStrings(r) == LongName() + [0]
            && Room(File(OVERLAPPED), d, EntriesNeeded(r), |NewStrings(r)|)
  {
    hide LongName;
    assert AllZero(File(OVERLAPPED), 193, 242);
    SpareZero(OVERLAPPED);
  }

  /** What the closing loop finds: 5, a covered 10, the new 1, a covered 0, and a newline at 240. */
  lemma OverlapStops(r: Request)
    requires r == Request(LongName(), None)
    ensures var d, b := SectionOf(OVERLAPPED), File(OVERLAPPED);
            && d.strtab + d.strsz + |NewStrings(r)| <= |b|
            && d.terminator + DYN_ENTRY_SIZE * EntriesNeeded(r) <= |b|
            && StopsAt(Patched(b, d, r), d.offset) == Success(240)
            && LE(Patched(b, d, r)[240..248]) == DT_STRSZ
  {
    hide LE, NewStrings, Patched, StopsAt, Room, EntriesOf, SectionOf, LongName, File, ReadLE;
    OverlapRoom(r);
    var p := Patched(File(OVERLAPPED), SectionOf(OVERLAPPED), r);
    OverlapBytes(r);
    SmallWord(p, 176, 8);
    SmallWord(p, 240, 8);
    LargeWord(p, 192);
    LargeWord(p, 224);
    NewTag(r);
    TagOf(p, 176);
    TagOf(p, 240);
    forall i | 0 <= i < 4
      ensures Passed(p, 176, i)
    {
      assert i == 0 || i == 1 || i == 2 || i == 3;
    }
    PassesSlots(p, 176, 4);
    StopsHere(p, 240);
  }

  lemma TagOf(p: seq<byte>, off: nat)
    requires off + 8 <= |p| < U64_SIZE
    ensures ReadLE(p, off, 8) == Success(LE(p[off..off + 8]))
  {
  }

  /** A word whose second byte is a letter is no small tag. */
  lemma LargeWord(p: seq<byte>, off: nat)
    requires off + 8 <= |p| && p[off + 1] == 0x61
    ensures LE(p[off..off + 8]) >= 0x6100
  {
    var w := p[off..off + 8];
    assert LE(w) == w[0] as int + 256 * LE(w[1..]);
    assert LE(w[1..]) == w[1] as int + 256 * LE(w[1..][1..]);
  }

  lemma OverlapBytes(r: Request)
    requires r == Request(LongName(), None)
    ensures var b, d := File(OVERLAPPED), SectionOf(OVERLAPPED);
            && d.strtab + d.strsz + |NewStrings(r)| <= |b|
            && d.terminator + DYN_ENTRY_SIZE * EntriesNeeded(r) <= |b|
            && var p := Patched(b, d, r);
               && p[176] == 5 && p[240] == 10 && p[193] == 0x61 && p[225] == 0x61
               && (forall i :: 177 <= i < 184 ==> p[i] == 0) && (forall i :: 241 <= i < 248 ==> p[i] == 0)
  {
    hide DynBytes, NewEntries, Room, EntriesOf, FileByte, SectionOf, NewStrings;
    OverlapRoom(r);
    OverlapFileBytes();
    var s := LongName() + [0];
    assert s[0] == 0x61 && s[32] == 0x61 && s[47] == 10 && s[48] == 0;
  }

  lemma OverlapFileBytes()
    ensures var b := File(OVERLAPPED);
            b[176] == 5 && (forall i :: 177 <= i < 184 ==> b[i] == 0) && (forall i :: 241 <= i < 248 ==> b[i] == 0)
  {
  }

  lemma NewTag(r: Request)
    requires r == Request(LongName(), None)
    ensures var b, d := File(OVERLAPPED), SectionOf(OVERLAPPED);
            && d.strtab + d.strsz + |NewStrings(r)| <= |b|
            && d.terminator + DYN_ENTRY_SIZE * EntriesNeeded(r) <= |b|
            && LE(Patched(b, d, r)[208..216]) == DT_NEEDED
  {
    hide LE, File, EntriesOf, NewStrings, LongName, Room, SectionOf, Overlay, DynBytes, Digits;
    OverlapRoom(r);
    var b, d, es := File(OVERLAPPED), SectionOf(OVERLAPPED), NewEntries(r, 0);
    var b1 := Overlay(b, 193, NewStrings(r));
    OverlayInside(b1, 208, DynBytes(es), 208, 216);
    DynBytesAt(es, 0);
    LEOfDigits64(DT_NEEDED);
  }
}
