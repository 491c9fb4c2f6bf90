/** `find_anchor` and `rewrite_macho`, with the splice done in place on one buffer. */
module MachORewrite {
  import opened Results
  import opened Bytes
  import opened MachOTable

  // ---- what the rewriter produces

  function NewCommandSize(path: seq<byte>): nat {
    (DYLIB_COMMAND_HEADER_SIZE + |path| + 1 + 7) / 8 * 8
  }

  /** The injected command: six little-endian words, the path, zeros up to the size. */
  function LoadDylib(path: seq<byte>): (c: Command)
    ensures |c| == NewCommandSize(path) >= DYLIB_COMMAND_HEADER_SIZE + |path| + 1
  {
    LoadDylibWords(NewCommandSize(path)) + path + Zeros(NewCommandSize(path) - DYLIB_COMMAND_HEADER_SIZE - |path|)
  }

  function LoadDylibWords(size: nat): (w: seq<byte>)
    ensures |w| == DYLIB_COMMAND_HEADER_SIZE
  {
    Digits(LC_LOAD_DYLIB, 4) + Digits(size, 4) + Digits(DYLIB_COMMAND_HEADER_SIZE, 4) +
    Digits(2, 4) + Digits(0x10000, 4) + Digits(0x10000, 4)
  }

  /** The bytes between the slot and the table's end; none when the slot lies beyond that end. */
  function Tail(b: seq<byte>, a: Anchor, tableEnd: nat): seq<byte>
    requires tableEnd <= |b|
  {
    if a.offset + a.size <= tableEnd then b[a.offset + a.size..tableEnd] else []
  }

  function Clip(s: seq<byte>, room: nat): seq<byte> {
    if |s| <= room then s else s[..room]
  }

  function Growth(a: Anchor, path: seq<byte>): int {
    NewCommandSize(path) - a.size
  }

  /** The zero padding a growing rewrite needs right after the table. */
  predicate PaddingFree(b: seq<byte>, tableEnd: nat, delta: int) {
    delta > 0 ==> tableEnd + delta <= |b| && forall i :: tableEnd <= i < tableEnd + delta ==> b[i] == 0
  }

  /** The two patched header words, `ncmds` and `sizeofcmds`, both truncated to 32 bits. */
  function HeaderWords(b: seq<byte>, a: Anchor, path: seq<byte>): (w: seq<byte>)
    requires |b| >= HEADER_SIZE && a.commandCount <= CommandCount(b)
    ensures |w| == 8
  {
    Digits(CommandCount(b) - a.commandCount + 1, 4) + Digits(AsU32(TableSize(b) + Growth(a, path)), 4)
  }

  /** The new command followed by the displaced tail, cut at the end of the file. */
  function Patch(b: seq<byte>, a: Anchor, path: seq<byte>): (s: seq<byte>)
    requires |b| >= HEADER_SIZE && HEADER_SIZE + TableSize(b) <= |b| && a.offset <= |b|
    ensures a.offset + |s| <= |b|
  {
    Clip(LoadDylib(path) + Tail(b, a, HEADER_SIZE + TableSize(b)), |b| - a.offset)
  }

  /** The whole of `rewrite_macho` on any input: one overlay of the table, one of the header. */
  function Rewritten(b: seq<byte>, path: seq<byte>): (r: Result<seq<byte>, RewriteError>)
    ensures r.Success? ==> |r.value| == |b|
  {
    if |b| < HEADER_SIZE || LE(b[0..4]) != MH_MAGIC_64 then Failure(NotThin64)
    else
      var a :- AnchorOf(b, CommandCount(b), TableSize(b));
      AnchorBounds(b, CommandCount(b), TableSize(b));
      RewrittenAt(b, a, path)
  }

  /** ... once the slot is known. */
  function RewrittenAt(b: seq<byte>, a: Anchor, path: seq<byte>): (r: Result<seq<byte>, RewriteError>)
    requires |b| >= HEADER_SIZE && HEADER_SIZE + TableSize(b) <= |b|
    requires a.offset <= |b| && a.commandCount <= CommandCount(b)
    ensures r.Success? ==> |r.value| == |b|
  {
    if !PaddingFree(b, HEADER_SIZE + TableSize(b), Growth(a, path)) then Failure(NoPaddingToGrow)
    else if a.offset + DYLIB_COMMAND_HEADER_SIZE + |path| > |b| then Failure(Panic)
    else Success(Overlay(Overlay(b, a.offset, Patch(b, a, path)), 16, HeaderWords(b, a, path)))
  }

  /** Where an anchor can be, on any input. */
  lemma AnchorBounds(b: seq<byte>, ncmds: nat, sizeofcmds: nat)
    ensures var r := AnchorOf(b, ncmds, sizeofcmds);
            r.Success? ==>
              && HEADER_SIZE + sizeofcmds <= |b|
              && HEADER_SIZE <= r.value.offset && r.value.offset + r.value.size <= |b|
              && r.value.commandCount <= ncmds
              && (if r.value.commandCount == 2 then r.value.size == 2 * LINKEDIT_DATA_COMMAND_SIZE
                  else r.value.commandCount == 1 && r.value.offset + r.value.size == HEADER_SIZE + sizeofcmds)
  {
    var cs := ParseCommands(b, HEADER_SIZE, ncmds);
    if cs.Some? && HEADER_SIZE + sizeofcmds <= |b| {
      FlattenParsed(b, HEADER_SIZE, ncmds);
      FirstAnchorBounds(cs.value, HEADER_SIZE, HEADER_SIZE + sizeofcmds);
    }
  }

  lemma {:induction false} FirstAnchorBounds(cs: seq<Command>, off: nat, tableEnd: nat)
    requires AllCommands(cs)
    ensures match FirstAnchor(cs, off, tableEnd)
            case None => true
            case Some(a) =>
              && off <= a.offset && a.offset + a.size <= off + |Flatten(cs)|
              && a.commandCount <= |cs|
              && (if a.commandCount == 2 then a.size == 2 * LINKEDIT_DATA_COMMAND_SIZE
                  else a.commandCount == 1 && a.offset + a.size == tableEnd)
  {
    if cs == [] {
    } else if PairAt(cs, 0) {
      assert Flatten(cs) == cs[0] + (cs[1] + Flatten(cs[1..][1..]));
    } else {
      FirstAnchorBounds(cs[1..], off + |cs[0]|, tableEnd);
    }
  }

  // ---- the code

  /** What the rest of the walk will answer: None if it runs off the file, else the first slot. */
  ghost function Search(b: seq<byte>, off: nat, n: nat, tableEnd: nat): Option<Option<Anchor>> {
    var cs := ParseCommands(b, off, n);
    if cs.None? then None else Some(FirstAnchor(cs.value, off, tableEnd))
  }

  lemma SearchTruncated(b: seq<byte>, off: nat, n: nat, tableEnd: nat)
    requires n > 0
    requires off + 8 > |b| || LE(b[off + 4..off + 8]) < 8 || off + LE(b[off + 4..off + 8]) > |b|
    ensures Search(b, off, n, tableEnd) == None
  {
  }

  /** One command further along the walk. */
  lemma SearchStep(b: seq<byte>, off: nat, n: nat, tableEnd: nat, kind: nat, size: nat)
    requires n > 0 && off + 8 <= |b| && kind == LE(b[off..off + 4]) && size == LE(b[off + 4..off + 8])
    requires 8 <= size && off + size <= |b|
    ensures var here, rest := Search(b, off, n, tableEnd), Search(b, off + size, n - 1, tableEnd);
            && (here.None? <==> rest.None?)
            && (here.Some? ==>
                  here.value ==
                  if n > 1 && kind == LC_DATA_IN_CODE && size == 16 && off + size + 8 <= |b|
                     && LE(b[off + size..off + size + 4]) == LC_CODE_SIGNATURE
                     && LE(b[off + size + 4..off + size + 8]) == 16 then Some(Anchor(off, 32, 2))
                  else if kind == LC_CODE_SIGNATURE && off + size == tableEnd then Some(Anchor(off, size, 1))
                  else rest.value)
  {
    SubSlice(b, off, off + size, 0, 4);
    var rest := ParseCommands(b, off + size, n - 1);
    if rest.Some? {
      assert ([b[off..off + size]] + rest.value)[1..] == rest.value;
      if n > 1 {
        SubSlice(b, off + size, off + size + |rest.value[0]|, 0, 4);
      }
    }
  }

  method FindAnchor(input: seq<byte>, ncmds: nat, sizeofcmds: nat) returns (r: Result<Anchor, RewriteError>)
    ensures SameResult(r, AnchorOf(input, ncmds, sizeofcmds))
  {
    hide LE, ParseCommands, FirstAnchor;
    var tableEnd := HEADER_SIZE + sizeofcmds;
    if tableEnd > |input| {
      return Failure(Malformed("load-command table exceeds file size"));
    }
    var anchor: Option<Anchor> := None;
    var off := HEADER_SIZE;
    ghost var whole := Search(input, HEADER_SIZE, ncmds, tableEnd);
    assert whole.None? <==> ParseCommands(input, HEADER_SIZE, ncmds).None?;
    for i := 0 to ncmds
      invariant off >= HEADER_SIZE
      invariant whole.None? <==> Search(input, off, ncmds - i, tableEnd).None?
      invariant whole.Some? ==>
                  whole.value == if anchor.Some? then anchor else Search(input, off, ncmds - i, tableEnd).value
    {
      if off + 8 > |input| {
        SearchTruncated(input, off, ncmds - i, tableEnd);
        return Failure(Malformed("truncated load command"));
      }
      var cmd := ReadU32(input, off).value;
      var size := ReadU32(input, off + 4).value;
      if size < 8 || off + size > |input| {
        SearchTruncated(input, off, ncmds - i, tableEnd);
        return Failure(Malformed("invalid load command size"));
      }
      SearchStep(input, off, ncmds - i, tableEnd, cmd, size);

      if anchor.None? && cmd == LC_DATA_IN_CODE && size == LINKEDIT_DATA_COMMAND_SIZE && i + 1 < ncmds {
        var nextOff := off + size;
        if nextOff + 8 > |input| {
          SearchTruncated(input, nextOff, ncmds - i - 1, tableEnd);
        }
        var nextSize :- ReadU32(input, nextOff + 4);
        var nextCmd := ReadU32(input, nextOff).value;
        if nextCmd == LC_CODE_SIGNATURE && nextSize == LINKEDIT_DATA_COMMAND_SIZE {
          anchor := Some(Anchor(off, size + nextSize, 2));
        }
      }
      if anchor.None? && cmd == LC_CODE_SIGNATURE && off + size == tableEnd {
        anchor := Some(Anchor(off, size, 1));
      }
      off := off + size;
    }
    assert Search(input, off, 0, tableEnd) == Some(None) by { SearchDone(input, off, tableEnd); }
    return if anchor.None? then Failure(NoReplaceableSlot) else Success(anchor.value);
  }

  lemma SearchDone(b: seq<byte>, off: nat, tableEnd: nat)
    ensures Search(b, off, 0, tableEnd) == Some(None)
  {
  }

  /** The backward copy loop: an overlapping move of `[lo, hi)` up by `delta`. */
  method MoveUp(buf: array<byte>, lo: nat, hi: nat, delta: nat)
    requires lo <= hi && hi + delta <= buf.Length
    modifies buf
    ensures buf[..] == Overlay(old(buf[..]), lo + delta, old(buf[lo..hi]))
  {
    var j := hi;
    while j > lo
      invariant lo <= j <= hi
      invariant forall k :: 0 <= k < j + delta || hi + delta <= k < buf.Length ==> buf[k] == old(buf[k])
      invariant forall k :: j + delta <= k < hi + delta ==> buf[k] == old(buf[k - delta])
    {
      j := j - 1;
      buf[j + delta] := buf[j];
    }
  }

  /** The forward copy loop: an overlapping move of `[lo, hi)` down by `shrink`. */
  method MoveDown(buf: array<byte>, lo: nat, hi: nat, shrink: nat)
    requires shrink <= lo <= hi <= buf.Length
    modifies buf
    ensures buf[..] == Overlay(old(buf[..]), lo - shrink, old(buf[lo..hi]))
  {
    for j := lo to hi
      invariant forall k :: 0 <= k < lo - shrink || j - shrink <= k < buf.Length ==> buf[k] == old(buf[k])
      invariant forall k :: lo - shrink <= k < j - shrink ==> buf[k] == old(buf[k + shrink])
    {
      buf[j - shrink] := buf[j];
    }
  }

  method WriteU32(buf: array<byte>, off: nat, v: nat)
    requires off + 4 <= buf.Length
    modifies buf
    ensures buf[..] == Overlay(old(buf[..]), off, Digits(v, 4))
  {
    CopyInto(buf, off, Digits(v, 4));
  }

  method ZeroFill(out: array<byte>, lo: nat, hi: nat)
    requires lo <= hi <= out.Length
    modifies out
    ensures out[..] == Overlay(old(out[..]), lo, Zeros(hi - lo))
  {
    for k := lo to hi
      invariant out[..] == Overlay(old(out[..]), lo, Zeros(k - lo))
    {
      out[k] := 0;
      assert Zeros(k - lo + 1) == Zeros(k - lo) + [0];
    }
  }

  /** The six header words of the new command. */
  method WriteWords(out: array<byte>, at: nat, size: nat)
    requires at + DYLIB_COMMAND_HEADER_SIZE <= out.Length
    modifies out
    ensures out[..] == Overlay(old(out[..]), at, LoadDylibWords(size))
  {
    ghost var was := out[..];
    WriteU32(out, at, LC_LOAD_DYLIB);
    ghost var s1 := Digits(LC_LOAD_DYLIB, 4);
    WriteU32(out, at + 4, size);
    OverlayExtend(was, at, s1, Digits(size, 4));
    ghost var s2 := s1 + Digits(size, 4);
    WriteU32(out, at + 8, DYLIB_COMMAND_HEADER_SIZE);
    OverlayExtend(was, at, s2, Digits(DYLIB_COMMAND_HEADER_SIZE, 4));
    ghost var s3 := s2 + Digits(DYLIB_COMMAND_HEADER_SIZE, 4);
    WriteU32(out, at + 12, 2);
    OverlayExtend(was, at, s3, Digits(2, 4));
    ghost var s4 := s3 + Digits(2, 4);
    WriteU32(out, at + 16, 0x10000);
    OverlayExtend(was, at, s4, Digits(0x10000, 4));
    ghost var s5 := s4 + Digits(0x10000, 4);
    WriteU32(out, at + 20, 0x10000);
    OverlayExtend(was, at, s5, Digits(0x10000, 4));
  }

  /** Zeroing the slot, then writing the new command's words and name over it. */
  method WriteCommand(out: array<byte>, at: nat, path: seq<byte>)
    requires at + DYLIB_COMMAND_HEADER_SIZE + |path| <= out.Length
    modifies out
    ensures out[..] == Overlay(old(out[..]), at, Clip(LoadDylib(path), out.Length - at))
  {
    hide Overlay, LoadDylibWords, Zeros, Clip, LoadDylib;
    var size := NewCommandSize(path);
    var end := if at + size <= out.Length then at + size else out.Length;
    ghost var was := out[..];
    ZeroFill(out, at, end);
    WriteWords(out, at, size);
    CopyInto(out, at + DYLIB_COMMAND_HEADER_SIZE, path);
    CommandBytes(was, at, path, end);
  }

  lemma CommandBytes(was: seq<byte>, at: nat, path: seq<byte>, end: nat)
    requires at + DYLIB_COMMAND_HEADER_SIZE + |path| <= end <= |was|
    requires end == if at + NewCommandSize(path) <= |was| then at + NewCommandSize(path) else |was|
    ensures var w := LoadDylibWords(NewCommandSize(path));
            Overlay(Overlay(Overlay(was, at, Zeros(end - at)), at, w), at + DYLIB_COMMAND_HEADER_SIZE, path) ==
            Overlay(was, at, Clip(LoadDylib(path), |was| - at))
  {
    var w, zeroed := LoadDylibWords(NewCommandSize(path)), Overlay(was, at, Zeros(end - at));
    OverlayExtend(zeroed, at, w, path);
    OverlayCompose(was, at, Zeros(end - at), 0, w + path);
    assert Overlay(Zeros(end - at), 0, w + path) == Clip(LoadDylib(path), |was| - at);
  }

  /** Moving the tail and then writing the command is one overlay of command and tail. */
  lemma SplicedBytes(b: seq<byte>, a: Anchor, path: seq<byte>, moved: seq<byte>, written: seq<byte>)
    requires |b| >= HEADER_SIZE
    requires var tableEnd := HEADER_SIZE + TableSize(b);
             && tableEnd <= |b| && a.offset + a.size <= |b|
             && (Growth(a, path) > 0 ==> tableEnd + Growth(a, path) <= |b|)
             && moved == if a.offset + a.size <= tableEnd
                         then Overlay(b, a.offset + a.size + Growth(a, path), b[a.offset + a.size..tableEnd])
                         else b
    requires written == Overlay(moved, a.offset, Clip(LoadDylib(path), |b| - a.offset))
    ensures written == Overlay(b, a.offset, Patch(b, a, path))
  {
    hide LoadDylib, LE;
    var slotEnd, tableEnd, c := a.offset + a.size, HEADER_SIZE + TableSize(b), LoadDylib(path);
    if slotEnd <= tableEnd {
      hide Overlay;
      OverlayAdjacent(b, a.offset, c, b[slotEnd..tableEnd]);
    } else {
      assert c + [] == c;
    }
  }

  /** Shifting whatever lies between the slot and the table's end, either way. */
  method ShiftTail(out: array<byte>, slotEnd: nat, tableEnd: nat, delta: int)
    requires tableEnd <= out.Length && -delta <= slotEnd
    requires delta > 0 ==> tableEnd + delta <= out.Length
    requires delta < 0 ==> slotEnd == tableEnd
    modifies out
    ensures out[..] == if slotEnd <= tableEnd
                       then Overlay(old(out[..]), slotEnd + delta, old(out[..])[slotEnd..tableEnd])
                       else old(out[..])
  {
    if delta > 0 && slotEnd <= tableEnd {
      MoveUp(out, slotEnd, tableEnd, delta);
    } else if delta < 0 {
      MoveDown(out, slotEnd, tableEnd, -delta);
    }
  }

  method PatchHeader(out: array<byte>, ncmds: nat, sizeofcmds: nat)
    requires out.Length >= HEADER_SIZE
    modifies out
    ensures out[..] == Overlay(old(out[..]), 16, Digits(ncmds, 4) + Digits(sizeofcmds, 4))
  {
    OverlayAdjacent(out[..], 16, Digits(ncmds, 4), Digits(sizeofcmds, 4));
    WriteU32(out, 20, sizeofcmds);
    WriteU32(out, 16, ncmds);
  }

  /** What is left of `rewrite_macho` once its checks have passed: copy, shift, write, fix the header. */
  method Emit(original: seq<byte>, a: Anchor, path: seq<byte>) returns (bytes: seq<byte>)
    requires |original| >= HEADER_SIZE && HEADER_SIZE + TableSize(original) <= |original|
    requires a.offset + a.size <= |original| && a.commandCount <= CommandCount(original)
    requires a.size == 32 || a.offset + a.size == HEADER_SIZE + TableSize(original)
    requires Growth(a, path) > 0 ==> HEADER_SIZE + TableSize(original) + Growth(a, path) <= |original|
    requires a.offset + DYLIB_COMMAND_HEADER_SIZE + |path| <= |original|
    ensures bytes == Overlay(Overlay(original, a.offset, Patch(original, a, path)), 16, HeaderWords(original, a, path))
  {
    hide LoadDylib, Patch, Overlay, Digits, LE;
    var delta := NewCommandSize(path) - a.size;
    var out := new byte[|original|](i requires 0 <= i < |original| => original[i]);
    assert out[..] == original;
    ShiftTail(out, a.offset + a.size, HEADER_SIZE + TableSize(original), delta);
    ghost var moved := out[..];
    WriteCommand(out, a.offset, path);
    ghost var spliced := out[..];
    SplicedBytes(original, a, path, moved, spliced);
    PatchHeader(out, CommandCount(original) - a.commandCount + 1, AsU32(TableSize(original) + delta));
    assert out[..] == Overlay(spliced, 16, HeaderWords(original, a, path));
    return out[..];
  }

  method RewriteMachO(original: seq<byte>, path: seq<byte>) returns (r: Result<seq<byte>, RewriteError>)
    ensures SameResult(r, Rewritten(original, path))
  {
    if |original| < HEADER_SIZE {
      return Failure(NotThin64);
    }
    var magic := ReadU32(original, 0).value;
    if magic != MH_MAGIC_64 {
      return Failure(NotThin64);
    }
    var ncmds := ReadU32(original, 16).value;
    var sizeofcmds := ReadU32(original, 20).value;
    var tableEnd := HEADER_SIZE + sizeofcmds;

    var found := FindAnchor(original, ncmds, sizeofcmds);
    AnchorBounds(original, ncmds, sizeofcmds);
    var anchor :- found;
    var newCmdSize := NewCommandSize(path);
    var delta := newCmdSize - anchor.size;
    var slotEnd := anchor.offset + anchor.size;

    if delta > 0 {
      if tableEnd + delta > |original| {
        return Failure(NoPaddingToGrow);
      }
      var padding := original[tableEnd..tableEnd + delta];
      if exists i :: 0 <= i < |padding| && padding[i] != 0 {
        assert forall i :: 0 <= i < delta ==> padding[i] == original[tableEnd + i];
        return Failure(NoPaddingToGrow);
      }
      assert forall i :: tableEnd <= i < tableEnd + delta ==> original[i] == padding[i - tableEnd];
    }
    if anchor.offset + DYLIB_COMMAND_HEADER_SIZE + |path| > |original| {
      return Failure(Panic); // the name's destination slice is out of range
    }

    var out := Emit(original, anchor, path);
    return Success(out);
  }
}
