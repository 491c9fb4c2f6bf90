/**
 The ELF64 structures the rewriter reads: program headers, the dynamic array and the string
 table's place in the file. Offsets are 64-bit: an addition that leaves 64 bits is an error of
 its own, as in a build with overflow checks.
 */
module ElfFormat {
  import opened Results
  import opened Bytes

  const ET_EXEC := 2
  const ET_DYN := 3
  const PT_LOAD := 1
  const PT_DYNAMIC := 2

  const DT_NULL := 0
  const DT_NEEDED := 1
  const DT_STRTAB := 5
  const DT_STRSZ := 10
  const DT_RUNPATH := 0x1d

  const EHDR_SIZE := 64
  const PHDR_SIZE := 56
  const DYN_ENTRY_SIZE := 16

  datatype RewriteError =
    | NotExecutableOrPie
    | NoDynamicSection
    | NoFreeStringTableSpace
    | Malformed(why: string)
    | Overflow // a 64-bit addition overflows
    | Panic    // a slice index past the end of the buffer

  function Add(x: nat, y: nat): (r: Result<nat, RewriteError>)
    ensures r.Success? <==> x + y < U64_SIZE
    ensures r.Success? ==> r.value == x + y
  {
    if x + y < U64_SIZE then Success(x + y) else Failure(Overflow)
  }

  /** `read_u16_le`, `read_u32_le` and `read_u64_le`: an `n`-byte little-endian word at `off`. */
  function ReadLE(b: seq<byte>, off: nat, n: nat): (r: Result<nat, RewriteError>)
    ensures r.Success? <==> off + n < U64_SIZE && off + n <= |b|
    ensures r.Success? ==> r.value == LE(b[off..off + n])
  {
    if off + n >= U64_SIZE then Failure(Overflow)
    else if off + n > |b| then Failure(Malformed("truncated"))
    else Success(LE(b[off..off + n]))
  }

  // ---- program headers

  datatype ProgramHeader = ProgramHeader(kind: nat, offset: nat, vaddr: nat, filesz: nat)

  function PhdrAt(b: seq<byte>, off: nat): Result<ProgramHeader, RewriteError> {
    var kind :- ReadLE(b, off, 4);
    var offset :- ReadLE(b, off + 8, 8);
    var vaddr :- ReadLE(b, off + 16, 8);
    var filesz :- ReadLE(b, off + 32, 8);
    Success(ProgramHeader(kind, offset, vaddr, filesz))
  }

  /** `n` headers, `size` bytes apart, from `off` on. */
  function PhdrsFrom(b: seq<byte>, off: nat, size: nat, n: nat): (r: Result<seq<ProgramHeader>, RewriteError>)
    ensures r.Success? ==> |r.value| == n
    decreases n
  {
    if n == 0 then Success([])
    else
      var h :- PhdrAt(b, off);
      var rest :- PhdrsFrom(b, off + size, size, n - 1);
      Success([h] + rest)
  }

  datatype PhdrTable = PhdrTable(offset: nat, size: nat, count: nat)

  function PhdrTableOf(b: seq<byte>): Result<PhdrTable, RewriteError> {
    var offset :- ReadLE(b, 32, 8);
    var size :- ReadLE(b, 54, 2);
    var count :- ReadLE(b, 56, 2);
    if size < PHDR_SIZE then Failure(Malformed("unexpected phentsize"))
    else Success(PhdrTable(offset, size, count))
  }

  function ProgramHeaders(b: seq<byte>): Result<seq<ProgramHeader>, RewriteError> {
    var t :- PhdrTableOf(b);
    PhdrsFrom(b, t.offset, t.size, t.count)
  }

  /** The first PT_LOAD segment holding `vaddr`, in table order, and the file offset it gives. */
  function VaddrToFileOffset(hs: seq<ProgramHeader>, vaddr: nat): Result<nat, RewriteError> {
    if hs == [] then Failure(Malformed("DT_STRTAB vaddr not in any PT_LOAD segment"))
    else if hs[0].kind != PT_LOAD || vaddr < hs[0].vaddr then VaddrToFileOffset(hs[1..], vaddr)
    else
      var end :- Add(hs[0].vaddr, hs[0].filesz);
      if vaddr < end then Add(hs[0].offset, vaddr - hs[0].vaddr)
      else VaddrToFileOffset(hs[1..], vaddr)
  }

  function FindDynamic(hs: seq<ProgramHeader>): (r: Result<ProgramHeader, RewriteError>)
    ensures r.Success? ==> r.value in hs && r.value.kind == PT_DYNAMIC
  {
    if hs == [] then Failure(NoDynamicSection)
    else if hs[0].kind == PT_DYNAMIC then Success(hs[0])
    else FindDynamic(hs[1..])
  }

  // ---- the dynamic array

  datatype Dyn = Dyn(tag: nat, val: nat)

  function DynAt(b: seq<byte>, off: nat): Dyn
    requires off + DYN_ENTRY_SIZE <= |b|
  {
    Dyn(LE(b[off..off + 8]), LE(b[off + 8..off + 16]))
  }

  /** The entries of the array at `off` up to, and without, the first DT_NULL. */
  function ParseDyn(b: seq<byte>, off: nat, segEnd: nat): Result<seq<Dyn>, RewriteError>
    decreases segEnd - off
  {
    var next :- Add(off, DYN_ENTRY_SIZE);
    if next > segEnd then Failure(Malformed("dynamic array has no DT_NULL terminator"))
    else
      var tag :- ReadLE(b, off, 8);
      var val :- ReadLE(b, off + 8, 8);
      if tag == DT_NULL then Success([])
      else
        var rest :- ParseDyn(b, next, segEnd);
        Success([Dyn(tag, val)] + rest)
  }

  /** The same array by position: entry `i` of `es` is in slot `i`, and slot `|es|` has tag DT_NULL. */
  ghost predicate DynList(b: seq<byte>, off: nat, segEnd: nat, es: seq<Dyn>) {
    && off + DYN_ENTRY_SIZE * (|es| + 1) <= segEnd < U64_SIZE
    && off + DYN_ENTRY_SIZE * (|es| + 1) <= |b|
    && (forall i :: 0 <= i < |es| ==> DynAt(b, off + DYN_ENTRY_SIZE * i) == es[i] && es[i].tag != DT_NULL)
    && DynAt(b, off + DYN_ENTRY_SIZE * |es|).tag == DT_NULL
  }

  lemma {:induction false} DynListParses(b: seq<byte>, off: nat, segEnd: nat, es: seq<Dyn>)
    requires DynList(b, off, segEnd, es)
    ensures ParseDyn(b, off, segEnd) == Success(es)
    decreases |es|
  {
    hide LE;
    assert DynAt(b, off) == if es == [] then DynAt(b, off) else es[0] by {
      if es != [] {
        assert DynAt(b, off + DYN_ENTRY_SIZE * 0) == es[0];
      }
    }
    if es != [] {
      var next, rest := off + DYN_ENTRY_SIZE, es[1..];
      forall i | 0 <= i < |rest|
        ensures DynAt(b, next + DYN_ENTRY_SIZE * i) == rest[i] && rest[i].tag != DT_NULL
      {
        assert next + DYN_ENTRY_SIZE * i == off + DYN_ENTRY_SIZE * (i + 1);
        assert DynAt(b, off + DYN_ENTRY_SIZE * (i + 1)) == es[i + 1];
      }
      DynListParses(b, next, segEnd, rest);
      assert [es[0]] + rest == es;
    }
  }

  lemma {:induction false} ParsedIsDynList(b: seq<byte>, off: nat, segEnd: nat)
    requires ParseDyn(b, off, segEnd).Success? && segEnd < U64_SIZE
    ensures DynList(b, off, segEnd, ParseDyn(b, off, segEnd).value)
    decreases segEnd - off
  {
    hide LE;
    var es := ParseDyn(b, off, segEnd).value;
    if DynAt(b, off).tag != DT_NULL {
      var next, rest := off + DYN_ENTRY_SIZE, es[1..];
      ParsedIsDynList(b, next, segEnd);
      forall i | 0 <= i < |es|
        ensures DynAt(b, off + DYN_ENTRY_SIZE * i) == es[i] && es[i].tag != DT_NULL
      {
        if i > 0 {
          assert off + DYN_ENTRY_SIZE * i == next + DYN_ENTRY_SIZE * (i - 1);
          assert DynAt(b, next + DYN_ENTRY_SIZE * (i - 1)) == rest[i - 1];
        }
      }
      assert off + DYN_ENTRY_SIZE * |es| == next + DYN_ENTRY_SIZE * |rest|;
    }
  }

  // ---- lookups by tag

  /** The index of the first entry with this tag, or the length if there is none. */
  function FirstIndex(es: seq<Dyn>, tag: nat): (k: nat)
    ensures k <= |es| && (k < |es| ==> es[k].tag == tag)
    ensures forall i :: 0 <= i < k ==> es[i].tag != tag
  {
    if es == [] || es[0].tag == tag then 0
    else
      var k := FirstIndex(es[1..], tag);
      assert forall i :: 1 <= i <= k ==> es[i] == es[1..][i - 1];
      1 + k
  }

  /** The value of the last entry with this tag: a later one overrides an earlier one. */
  function LastValue(es: seq<Dyn>, tag: nat): (r: Option<nat>)
    ensures r.Some? <==> FirstIndex(es, tag) < |es|
  {
    if es == [] then None
    else
      var later := LastValue(es[1..], tag);
      if later.Some? then later
      else if es[0].tag == tag then Some(es[0].val)
      else None
  }

  /** No entry with this tag follows the first one. */
  predicate Once(es: seq<Dyn>, tag: nat) {
    var k := FirstIndex(es, tag);
    k < |es| && LastValue(es[k + 1..], tag).None?
  }

  datatype DynamicSection = DynamicSection(
    offset: nat, terminator: nat, segmentEnd: nat, strtab: nat, strsz: nat)

  /** `find_dynamic_section`, from the headers already read. */
  function Locate(b: seq<byte>, hs: seq<ProgramHeader>): Result<DynamicSection, RewriteError> {
    var seg :- FindDynamic(hs);
    var segEnd :- Add(seg.offset, seg.filesz);
    var es :- ParseDyn(b, seg.offset, segEnd);
    var strtab := LastValue(es, DT_STRTAB);
    var strsz := LastValue(es, DT_STRSZ);
    if strtab.None? then Failure(Malformed("no DT_STRTAB"))
    else if strsz.None? then Failure(Malformed("no DT_STRSZ"))
    else
      var fileOffset :- VaddrToFileOffset(hs, strtab.value);
      Success(DynamicSection(seg.offset, seg.offset + DYN_ENTRY_SIZE * |es|, segEnd, fileOffset, strsz.value))
  }

  /** A 64-bit little-endian file of a type the rewriter accepts. */
  predicate Identified(b: seq<byte>) {
    && |b| >= EHDR_SIZE
    && b[0..4] == [0x7f, 0x45, 0x4c, 0x46]
    && b[4] == 2 && b[5] == 1
    && LE(b[16..18]) in {ET_EXEC, ET_DYN}
  }

  /** Everything the rewriter learns about a file before it looks for room. */
  function DynamicOf(b: seq<byte>): Result<DynamicSection, RewriteError> {
    if !Identified(b) then Failure(NotExecutableOrPie)
    else
      var hs :- ProgramHeaders(b);
      Locate(b, hs)
  }

  /** The dynamic entries of a file, as a loader lists them. */
  function Entries(b: seq<byte>): seq<Dyn> {
    match DynamicOf(b)
    case Failure(_) => []
    case Success(d) => ParseDyn(b, d.offset, d.segmentEnd).value
  }
}
