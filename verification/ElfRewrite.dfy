/** `find_dynamic_section` and `rewrite_elf`, with the new bytes written in place on one buffer. */
module ElfRewrite {
  import opened Results
  import opened Bytes
  import opened ElfFormat

  /** What to add: the soname, and optionally a run path. */
  datatype Request = Request(needed: seq<byte>, rpath: Option<seq<byte>>)

  // ---- what the rewriter produces

  /** The bytes appended to the string table. */
  function NewStrings(r: Request): (s: seq<byte>)
    ensures |s| > 0
  {
    r.needed + [0] + (if r.rpath.Some? then r.rpath.value + [0] else [])
  }

  /** The dynamic entries added, for a string table that was `strsz` bytes long. */
  function NewEntries(r: Request, strsz: nat): (es: seq<Dyn>)
    ensures |es| == EntriesNeeded(r)
  {
    [Dyn(DT_NEEDED, strsz)] + if r.rpath.Some? then [Dyn(DT_RUNPATH, strsz + |r.needed| + 1)] else []
  }

  function EntriesNeeded(r: Request): nat {
    if r.rpath.Some? then 2 else 1
  }

  function DynBytes(es: seq<Dyn>): (s: seq<byte>)
    ensures |s| == DYN_ENTRY_SIZE * |es|
  {
    if es == [] then [] else Digits(es[0].tag, 8) + Digits(es[0].val, 8) + DynBytes(es[1..])
  }

  /** The `n` slots from `slot` on are readable and zero. */
  function CheckSlots(b: seq<byte>, slot: nat, n: nat): Result<(), RewriteError>
    decreases n
  {
    if n == 0 then Success(())
    else
      var tag :- ReadLE(b, slot, 8);
      if tag != 0 then Failure(NoFreeStringTableSpace)
      else
        var val :- ReadLE(b, slot + 8, 8);
        if val != 0 then Failure(NoFreeStringTableSpace)
        else CheckSlots(b, slot + DYN_ENTRY_SIZE, n - 1)
  }

  predicate AllZero(b: seq<byte>, lo: nat, hi: nat) {
    hi <= |b| && forall i :: lo <= i < hi ==> b[i] == 0
  }

  /** Walking the array to the first DT_STRSZ and storing the new length there. */
  function FixUp(b: seq<byte>, off: nat, strsz: nat): (r: Result<seq<byte>, RewriteError>)
    ensures r.Success? ==> |r.value| == |b|
    decreases |b| - off
  {
    var tag :- ReadLE(b, off, 8);
    if tag == DT_STRSZ then
      if off + DYN_ENTRY_SIZE <= |b| then Success(Overlay(b, off + 8, Digits(strsz, 8))) else Failure(Panic)
    else if tag == DT_NULL then Success(b)
    else FixUp(b, off + DYN_ENTRY_SIZE, strsz)
  }

  /** The strings and the entries in place, the old DT_STRSZ still there. */
  function Patched(b: seq<byte>, d: DynamicSection, r: Request): (p: seq<byte>)
    requires d.strtab + d.strsz + |NewStrings(r)| <= |b|
    requires d.terminator + DYN_ENTRY_SIZE * EntriesNeeded(r) <= |b|
    ensures |p| == |b|
  {
    Overlay(Overlay(b, d.strtab + d.strsz, NewStrings(r)), d.terminator, DynBytes(NewEntries(r, d.strsz)))
  }

  /** The whole of `rewrite_elf` on any input. */
  function Rewritten(b: seq<byte>, r: Request): Result<seq<byte>, RewriteError> {
    var d :- DynamicOf(b);
    RewrittenAt(b, d, r)
  }

  function RewrittenAt(b: seq<byte>, d: DynamicSection, r: Request): (res: Result<seq<byte>, RewriteError>)
    ensures res.Success? ==> |res.value| == |b|
  {
    if d.terminator + DYN_ENTRY_SIZE * (EntriesNeeded(r) + 1) > d.segmentEnd then Failure(NoFreeStringTableSpace)
    else
      var _ :- CheckSlots(b, d.terminator + DYN_ENTRY_SIZE, EntriesNeeded(r));
      var start :- Add(d.strtab, d.strsz);
      var _ :- Add(d.strsz, |r.needed| + 1);
      var end :- Add(start, |NewStrings(r)|);
      if !AllZero(b, start, end) then Failure(NoFreeStringTableSpace)
      else
        SlotsInside(b, d.terminator + DYN_ENTRY_SIZE, EntriesNeeded(r));
        FixUp(Patched(b, d, r), d.offset, d.strsz + |NewStrings(r)|)
  }

  lemma {:induction false} SlotsInside(b: seq<byte>, slot: nat, n: nat)
    ensures CheckSlots(b, slot, n).Success? && n > 0 ==> slot + DYN_ENTRY_SIZE * n <= |b|
    decreases n
  {
    if n > 1 && CheckSlots(b, slot, n).Success? {
      SlotsInside(b, slot + DYN_ENTRY_SIZE, n - 1);
    }
  }

  // ---- the code

  method ReadProgramHeaders(input: seq<byte>) returns (r: Result<seq<ProgramHeader>, RewriteError>)
    ensures r == ProgramHeaders(input)
  {
    hide LE, ReadLE;
    var phoff :- ReadLE(input, 32, 8);
    var phentsize :- ReadLE(input, 54, 2);
    var phnum :- ReadLE(input, 56, 2);
    if phentsize < PHDR_SIZE {
      return Failure(Malformed("unexpected phentsize"));
    }
    var headers: seq<ProgramHeader> := [];
    ghost var at := phoff;
    ghost var table := PhdrsFrom(input, phoff, phentsize, phnum);
    assert table.Success? ==> headers + table.value == table.value;
    for i := 0 to phnum
      invariant at == phoff + i * phentsize
      invariant match PhdrsFrom(input, at, phentsize, phnum - i)
                case Failure(e) => ProgramHeaders(input) == Failure(e)
                case Success(rest) => ProgramHeaders(input) == Success(headers + rest)
    {
      var off := phoff + i * phentsize;
      var kind :- ReadLE(input, off, 4);
      var offset :- ReadLE(input, off + 8, 8);
      var vaddr :- ReadLE(input, off + 16, 8);
      var filesz :- ReadLE(input, off + 32, 8);
      ghost var h := ProgramHeader(kind, offset, vaddr, filesz);
      assert PhdrAt(input, off) == Success(h);
      ghost var rest := PhdrsFrom(input, off + phentsize, phentsize, phnum - i - 1);
      assert rest.Success? ==> headers + ([h] + rest.value) == headers + [h] + rest.value;
      headers := headers + [ProgramHeader(kind, offset, vaddr, filesz)];
      NextRow(i, phentsize);
      at := at + phentsize;
    }
    assert headers + [] == headers;
    return Success(headers);
  }

  lemma NextRow(i: nat, size: nat)
    ensures (i + 1) * size == i * size + size
  {
  }

  method FindDynamicSection(input: seq<byte>, headers: seq<ProgramHeader>)
    returns (r: Result<DynamicSection, RewriteError>)
    ensures r == Locate(input, headers)
  {
    hide LE, ReadLE, VaddrToFileOffset, FirstIndex;
    var seg :- FindDynamic(headers);
    var strtabVaddr: Option<nat>, strsz: Option<nat>, terminator: Option<nat> := None, None, None;
    var off: nat := seg.offset;
    var segEnd :- Add(seg.offset, seg.filesz);
    ghost var whole := ParseDyn(input, seg.offset, segEnd);
    ghost var count: nat := 0;
    while true
      invariant off == seg.offset + DYN_ENTRY_SIZE * count
      invariant terminator.None?
      invariant match ParseDyn(input, off, segEnd)
                case Failure(e) => whole == Failure(e)
                case Success(rest) =>
                  && whole.Success? && |whole.value| == count + |rest|
                  && LastValue(whole.value, DT_STRTAB) == LaterOr(LastValue(rest, DT_STRTAB), strtabVaddr)
                  && LastValue(whole.value, DT_STRSZ) == LaterOr(LastValue(rest, DT_STRSZ), strsz)
      decreases segEnd - off
    {
      var next :- Add(off, DYN_ENTRY_SIZE);
      if next > segEnd {
        break;
      }
      var tag :- ReadLE(input, off, 8);
      var val :- ReadLE(input, off + 8, 8);
      if tag == DT_NULL {
        terminator := Some(off);
        break;
      }
      ghost var rest := ParseDyn(input, next, segEnd);
      assert rest.Success? ==> ([Dyn(tag, val)] + rest.value)[1..] == rest.value;
      if tag == DT_STRTAB {
        strtabVaddr := Some(val);
      } else if tag == DT_STRSZ {
        strsz := Some(val);
      }
      off := next;
      count := count + 1;
    }
    if terminator.None? {
      return Failure(Malformed("dynamic array has no DT_NULL terminator"));
    }
    if strtabVaddr.None? {
      return Failure(Malformed("no DT_STRTAB"));
    }
    if strsz.None? {
      return Failure(Malformed("no DT_STRSZ"));
    }
    var fileOffset :- VaddrToFileOffset(headers, strtabVaddr.value);
    return Success(DynamicSection(seg.offset, terminator.value, segEnd, fileOffset, strsz.value));
  }

  ghost function LaterOr(later: Option<nat>, sofar: Option<nat>): Option<nat> {
    if later.Some? then later else sofar
  }

  method WriteU64(buf: array<byte>, off: nat, v: nat)
    requires off + 8 <= buf.Length
    modifies buf
    ensures buf[..] == Overlay(old(buf[..]), off, Digits(v, 8))
  {
    CopyInto(buf, off, Digits(v, 8));
  }

  method WriteEntry(buf: array<byte>, slot: nat, e: Dyn)
    requires slot + DYN_ENTRY_SIZE <= buf.Length
    modifies buf
    ensures buf[..] == Overlay(old(buf[..]), slot, Digits(e.tag, 8) + Digits(e.val, 8))
  {
    OverlayExtend(buf[..], slot, Digits(e.tag, 8), Digits(e.val, 8));
    WriteU64(buf, slot, e.tag);
    WriteU64(buf, slot + 8, e.val);
  }

  method WriteEntries(buf: array<byte>, slot: nat, es: seq<Dyn>)
    requires 1 <= |es| <= 2
    requires slot + DYN_ENTRY_SIZE * |es| <= buf.Length
    modifies buf
    ensures buf[..] == Overlay(old(buf[..]), slot, DynBytes(es))
  {
    hide Digits;
    ghost var was := buf[..];
    var first := Digits(es[0].tag, 8) + Digits(es[0].val, 8);
    WriteEntry(buf, slot, es[0]);
    assert DynBytes([]) == [];
    if |es| == 2 {
      var second := Digits(es[1].tag, 8) + Digits(es[1].val, 8);
      assert DynBytes(es[1..]) == second + DynBytes(es[1..][1..]) == second + [] == second;
      WriteEntry(buf, slot + DYN_ENTRY_SIZE, es[1]);
      OverlayExtend(was, slot, first, second);
    } else {
      assert DynBytes(es) == first + [] == first;
    }
  }

  /** The closing loop: it stops at the first DT_STRSZ or DT_NULL it meets. */
  method GrowStrsz(out: array<byte>, start: nat, strsz: nat) returns (r: Result<(), RewriteError>)
    modifies out
    ensures match FixUp(old(out[..]), start, strsz)
            case Failure(e) => r == Failure(e)
            case Success(bytes) => r == Success(()) && out[..] == bytes
  {
    hide LE, Digits;
    var off := start;
    ghost var was := out[..];
    while true
      invariant out[..] == was && FixUp(was, start, strsz) == FixUp(was, off, strsz)
      decreases out.Length - off
    {
      var tag :- ReadLE(out[..], off, 8);
      if tag == DT_STRSZ {
        if off + DYN_ENTRY_SIZE > out.Length {
          return Failure(Panic);
        }
        WriteU64(out, off + 8, strsz);
        break;
      }
      if tag == DT_NULL {
        break;
      }
      off := off + DYN_ENTRY_SIZE;
    }
    return Success(());
  }

  /** The spare slots after the terminator: all of the entries and a new terminator must fit. */
  method SpareSlots(input: seq<byte>, d: DynamicSection, needed: nat) returns (r: Result<(), RewriteError>)
    ensures r == CheckSlots(input, d.terminator + DYN_ENTRY_SIZE, needed)
  {
    hide LE;
    for i := 1 to needed + 1
      invariant CheckSlots(input, d.terminator + DYN_ENTRY_SIZE, needed) ==
                CheckSlots(input, d.terminator + DYN_ENTRY_SIZE * i, needed + 1 - i)
    {
      var slot := d.terminator + DYN_ENTRY_SIZE * i;
      var tag :- ReadLE(input, slot, 8);
      if tag != 0 {
        return Failure(NoFreeStringTableSpace);
      }
      var val :- ReadLE(input, slot + 8, 8);
      if val != 0 {
        return Failure(NoFreeStringTableSpace);
      }
    }
    return Success(());
  }

  /** What is left of `rewrite_elf` once its checks have passed. */
  method Emit(original: seq<byte>, d: DynamicSection, request: Request) returns (r: Result<seq<byte>, RewriteError>)
    requires d.strtab + d.strsz + |NewStrings(request)| <= |original|
    requires d.terminator + DYN_ENTRY_SIZE * EntriesNeeded(request) <= |original|
    ensures r == FixUp(Patched(original, d, request), d.offset, d.strsz + |NewStrings(request)|)
  {
    hide LE, Digits, NewStrings, DynBytes, Overlay, FixUp;
    var newStrings := NewStrings(request);
    var out := new byte[|original|](i requires 0 <= i < |original| => original[i]);
    assert out[..] == original;
    CopyInto(out, d.strtab + d.strsz, newStrings);
    WriteEntries(out, d.terminator, NewEntries(request, d.strsz));
    assert out[..] == Patched(original, d, request);
    var fixed := GrowStrsz(out, d.offset, d.strsz + |newStrings|);
    var _ :- fixed;
    return Success(out[..]);
  }

  method RewriteElf(original: seq<byte>, request: Request) returns (r: Result<seq<byte>, RewriteError>)
    ensures r == Rewritten(original, request)
  {
    hide LE, FixUp, Patched, CheckSlots, NewStrings;
    if !Identified(original) {
      return Failure(NotExecutableOrPie);
    }
    var hs := ReadProgramHeaders(original);
    var headers :- hs;
    var located := FindDynamicSection(original, headers);
    var d :- located;
    assert DynamicOf(original) == Success(d);
    var needed := EntriesNeeded(request);
    if d.terminator + DYN_ENTRY_SIZE * (needed + 1) > d.segmentEnd {
      return Failure(NoFreeStringTableSpace);
    }
    var spare := SpareSlots(original, d, needed);
    SlotsInside(original, d.terminator + DYN_ENTRY_SIZE, needed);
    var _ :- spare;

    var stringsStart :- Add(d.strtab, d.strsz);
    var rpathOffset :- Add(d.strsz, |request.needed| + 1);
    var stringsEnd :- Add(stringsStart, |NewStrings(request)|);
    if stringsEnd > |original| || exists i :: stringsStart <= i < stringsEnd && original[i] != 0 {
      return Failure(NoFreeStringTableSpace);
    }
    r := Emit(original, d, request);
  }
}
