/** What rewriting means for a reader of the output, for one rewrite and for chains of rewrites. */
module MachOTheorems {
  import opened Results
  import opened Bytes
  import opened MachOTable
  import opened MachORewrite

  // ---- the injected command

  /** The injected command's size is the least multiple of 8 that holds header, name and NUL. */
  lemma NewCommandSizeIsLeast(path: seq<byte>, m: nat)
    requires m % 8 == 0 && m >= DYLIB_COMMAND_HEADER_SIZE + 1 + |path|
    ensures NewCommandSize(path) % 8 == 0
    ensures DYLIB_COMMAND_HEADER_SIZE + 1 + |path| <= NewCommandSize(path) <= m
  {
    var q := m / 8;
    assert m == 8 * q;
  }

  lemma LoadDylibFields(path: seq<byte>)
    requires NewCommandSize(path) < U32_SIZE
    ensures IsCommand(LoadDylib(path)) && Kind(LoadDylib(path)) == LC_LOAD_DYLIB
    ensures var c := LoadDylib(path);
            && LE(c[0..4]) == 0xc && LE(c[8..12]) == 24 && LE(c[12..16]) == 2
            && LE(c[16..20]) == 0x1_0000 && LE(c[20..24]) == 0x1_0000
            && forall i :: 24 + |path| <= i < |c| ==> c[i] == 0
  {
    hide LE, Digits;
    var c, w, size := LoadDylib(path), LoadDylibWords(NewCommandSize(path)), NewCommandSize(path);
    assert c[..24] == w;
    assert c[0..4] == Digits(LC_LOAD_DYLIB, 4);
    assert c[4..8] == Digits(size, 4);
    assert c[8..12] == Digits(DYLIB_COMMAND_HEADER_SIZE, 4);
    assert c[12..16] == Digits(2, 4);
    assert c[16..20] == Digits(0x1_0000, 4) && c[20..24] == Digits(0x1_0000, 4);
    LEOfDigits32(2);
    LEOfDigits32(0x1_0000);
    LEOfDigits32(LC_LOAD_DYLIB);
    LEOfDigits32(size);
    LEOfDigits32(DYLIB_COMMAND_HEADER_SIZE);
  }

  /** dyld reads the requested path back exactly when the path has no NUL in it. */
  lemma NameReadsBack(path: seq<byte>)
    ensures CString(LoadDylib(path), DYLIB_COMMAND_HEADER_SIZE) == path <==> 0 !in path
  {
    if 0 !in path {
      var c := LoadDylib(path);
      assert c[24..24 + |path|] == path;
      CStringReads(c, 24, path);
    }
  }

  // ---- one rewrite

  /** The table after a rewrite, as an edit of the list of commands. */
  function Replaced(cs: seq<Command>, s: Slot, path: seq<byte>): seq<Command>
    requires s.first + s.count <= |cs|
  {
    cs[..s.first] + [LoadDylib(path)] + cs[s.first + s.count..]
  }

  ghost function SlotIn(b: seq<byte>): Option<Slot>
    requires WellFormed(b)
  {
    SlotOf(Commands(b))
  }

  ghost function AnchorIn(b: seq<byte>): Anchor
    requires WellFormed(b) && SlotIn(b).Some?
  {
    AnchorAt(Commands(b), HEADER_SIZE, SlotIn(b).value)
  }

  /** The three runs of the table around the slot. */
  lemma SplitTable(b: seq<byte>)
    requires WellFormed(b) && SlotIn(b).Some?
    ensures var cs, s, a, tableEnd := Commands(b), SlotIn(b).value, AnchorIn(b), HEADER_SIZE + TableSize(b);
            && a.offset + a.size + |Flatten(cs[s.first + s.count..])| == tableEnd
            && b[HEADER_SIZE..a.offset] == Flatten(cs[..s.first])
            && b[a.offset + a.size..tableEnd] == Flatten(cs[s.first + s.count..])
  {
    hide Flatten, ParseCommands, LE, SlotOf;
    var cs, s := Commands(b), SlotIn(b).value;
    TableOf(b);
    FlattenSplit(cs, s.first, s.first + s.count);
    var slot, post := cs[s.first..s.first + s.count], cs[s.first + s.count..];
    ThreeRuns(b, HEADER_SIZE, Flatten(cs[..s.first]), Flatten(slot), Flatten(post));
  }

  /** On a well-formed file the search answers with the slot of the list of commands. */
  lemma AnchorFound(b: seq<byte>)
    requires WellFormed(b)
    ensures var r := AnchorOf(b, CommandCount(b), TableSize(b));
            match SlotIn(b)
            case None => r == Failure(NoReplaceableSlot)
            case Some(s) =>
              && r == Success(AnchorIn(b)) && s.count == AnchorIn(b).commandCount <= CommandCount(b)
              && HEADER_SIZE <= AnchorIn(b).offset
              && AnchorIn(b).offset + AnchorIn(b).size <= HEADER_SIZE + TableSize(b)
              && (if s.count == 2 then AnchorIn(b).size == 32
                  else s.count == 1 && AnchorIn(b).offset + AnchorIn(b).size == HEADER_SIZE + TableSize(b))
  {
    AnchorIsSlot(Commands(b), HEADER_SIZE);
    AnchorBounds(b, CommandCount(b), TableSize(b));
    if SlotIn(b).Some? {
      SplitTable(b);
    }
  }

  /** So a rewrite of a well-formed file is the splice at that slot. */
  lemma RewrittenAtSlot(b: seq<byte>, path: seq<byte>)
    requires WellFormed(b) && SlotIn(b).Some?
    ensures HEADER_SIZE + TableSize(b) <= |b| && AnchorIn(b).offset + AnchorIn(b).size <= HEADER_SIZE + TableSize(b)
    ensures AnchorIn(b).commandCount <= CommandCount(b)
    ensures Rewritten(b, path) == RewrittenAt(b, AnchorIn(b), path)
  {
    hide AnchorOf, AnchorAt, SlotOf, Flatten, RewrittenAt;
    AnchorFound(b);
  }

  /**
   The three outcomes on a well-formed file, each with its condition; it never panics there. A
   growing rewrite needs every byte it grows into to be in the file and zero.
   */
  lemma OutcomeOnWellFormed(b: seq<byte>, path: seq<byte>)
    requires WellFormed(b)
    ensures match SlotIn(b)
            case None => Rewritten(b, path) == Failure(NoReplaceableSlot)
            case Some(_) =>
              var end := 32 + LE(b[20..24]);
              var newEnd := end - AnchorIn(b).size + (24 + |path| + 1 + 7) / 8 * 8;
              if newEnd > |b| || exists i :: end <= i < newEnd && b[i] != 0
              then Rewritten(b, path) == Failure(NoPaddingToGrow)
              else Rewritten(b, path).Success?
  {
    hide AnchorIn, LE, SlotOf, Rewritten, ParseCommands, Flatten;
    OutcomeByPadding(b, path);
  }

  /**
   So a successful rewrite never writes over a byte after the table that is not zero.
   */
  lemma NonZeroBytesSurvive(b: seq<byte>, path: seq<byte>, i: nat)
    requires WellFormed(b) && Rewritten(b, path).Success?
    requires 32 + LE(b[20..24]) <= i < |b| && b[i] != 0
    ensures Rewritten(b, path).value[i] == b[i]
  {
    hide LE, ParseCommands, Flatten, SlotOf, AnchorAt, LoadDylib, AnchorOf, RewrittenAt, Patch, Rewritten;
    OutcomeByPadding(b, path);
    AnchorFound(b);
    PatchIs(b, AnchorIn(b), path);
    UntouchedBytes(b, path, i);
  }

  /** The same outcomes, by the predicate the rewriter tests. */
  lemma OutcomeByPadding(b: seq<byte>, path: seq<byte>)
    requires WellFormed(b)
    ensures match SlotIn(b)
            case None => Rewritten(b, path) == Failure(NoReplaceableSlot)
            case Some(_) =>
              if PaddingFree(b, HEADER_SIZE + TableSize(b), Growth(AnchorIn(b), path))
              then Rewritten(b, path).Success?
              else Rewritten(b, path) == Failure(NoPaddingToGrow)
  {
    hide AnchorOf, AnchorAt, SlotOf, Flatten, LE, Patch, HeaderWords, Overlay;
    AnchorFound(b);
  }

  /** The left shift never has bytes to move: only a signature that ends the table can shrink. */
  lemma ShrinkingHasNoTail(b: seq<byte>, path: seq<byte>)
    requires |b| >= HEADER_SIZE
    requires var a := AnchorOf(b, CommandCount(b), TableSize(b));
             a.Success? && Growth(a.value, path) < 0
    ensures var a := AnchorOf(b, CommandCount(b), TableSize(b)).value;
            && a.commandCount == 1 && a.offset + a.size == HEADER_SIZE + TableSize(b)
            && Tail(b, a, HEADER_SIZE + TableSize(b)) == []
  {
    AnchorBounds(b, CommandCount(b), TableSize(b));
  }

  lemma PatchIs(b: seq<byte>, a: Anchor, path: seq<byte>)
    requires |b| >= HEADER_SIZE && HEADER_SIZE + TableSize(b) <= |b|
    requires a.offset + a.size <= HEADER_SIZE + TableSize(b)
    requires PaddingFree(b, HEADER_SIZE + TableSize(b), Growth(a, path))
    ensures Patch(b, a, path) == LoadDylib(path) + b[a.offset + a.size..HEADER_SIZE + TableSize(b)]
    ensures a.offset + |Patch(b, a, path)| == HEADER_SIZE + TableSize(b) + Growth(a, path)
  {
    hide LE, LoadDylib;
  }

  /** The regions of a file that carries the table `rs` under the magic of `b`. */
  ghost predicate HasTable(b: seq<byte>, rs: seq<Command>, out: seq<byte>) {
    && |b| >= HEADER_SIZE && HEADER_SIZE + |Flatten(rs)| <= |out|
    && out[0..4] == b[0..4]
    && out[16..20] == Digits(|rs|, 4)
    && out[20..24] == Digits(AsU32(|Flatten(rs)|), 4)
    && out[HEADER_SIZE..HEADER_SIZE + |Flatten(rs)|] == Flatten(rs)
  }

  /** Such a file reads back as `rs` exactly when the table's size fits its 32-bit field. */
  lemma HasTableReads(b: seq<byte>, rs: seq<Command>, out: seq<byte>)
    requires |b| >= HEADER_SIZE && LE(b[0..4]) == MH_MAGIC_64
    requires HasTable(b, rs, out) && |rs| < U32_SIZE && (|Flatten(rs)| < U32_SIZE ==> AllCommands(rs))
    ensures (WellFormed(out) && Commands(out) == rs) <==> |Flatten(rs)| < U32_SIZE
  {
    hide LE, Digits, AsU32, Flatten, ParseCommands, AllCommands;
    LEOfDigits32(|rs|);
    LEOfDigits32(AsU32(|Flatten(rs)|));
    AsU32Exact(|Flatten(rs)|);
    assert TableSize(out) == AsU32(|Flatten(rs)|);
    if |Flatten(rs)| < U32_SIZE {
      WellFormedIntro(out, rs);
    }
  }

  /** A patch in two runs and a patched header make such a file. */
  lemma PatchedHasTable(b: seq<byte>, at: nat, pre: seq<byte>, c: seq<byte>, post: seq<byte>, rs: seq<Command>)
    requires HEADER_SIZE + |pre| == at && at + |c| + |post| <= |b|
    requires b[HEADER_SIZE..at] == pre && Flatten(rs) == pre + c + post
    ensures HasTable(b, rs, Overlay(Overlay(b, at, c + post), 16, Digits(|rs|, 4) + Digits(AsU32(|Flatten(rs)|), 4)))
  {
    hide Digits, Flatten, AsU32;
    var words := Digits(|rs|, 4) + Digits(AsU32(|Flatten(rs)|), 4);
    var out1, end := Overlay(b, at, c + post), at + |c| + |post|;
    assert out1[HEADER_SIZE..end] == pre + c + post;
    OverlayApart(out1, 16, words, HEADER_SIZE, end);
    OverlayApart(out1, 16, words, 0, 4);
    OverlayApart(b, at, c + post, 0, 4);
    OverlayInside(out1, 16, words, 16, 20);
    OverlayInside(out1, 16, words, 20, 24);
  }

  /** The splice puts the edited list into the file, for any split of the table around the slot. */
  lemma SpliceHasTable(b: seq<byte>, a: Anchor, path: seq<byte>, pre: seq<byte>, post: seq<byte>, rs: seq<Command>)
    requires |b| >= HEADER_SIZE && HEADER_SIZE + TableSize(b) <= |b|
    requires HEADER_SIZE <= a.offset && a.offset + a.size <= HEADER_SIZE + TableSize(b)
    requires a.commandCount <= CommandCount(b)
    requires RewrittenAt(b, a, path).Success?
    requires b[HEADER_SIZE..a.offset] == pre && b[a.offset + a.size..HEADER_SIZE + TableSize(b)] == post
    requires Flatten(rs) == pre + LoadDylib(path) + post && |rs| == CommandCount(b) - a.commandCount + 1
    ensures HasTable(b, rs, RewrittenAt(b, a, path).value)
    ensures |Flatten(rs)| == TableSize(b) + Growth(a, path)
  {
    hide LE, LoadDylib, Flatten, Digits, AsU32, HasTable, Patch, HeaderWords, Overlay, NewCommandSize;
    PatchIs(b, a, path);
    HeaderWordsAre(b, a, path, |rs|, |Flatten(rs)|);
    PatchedHasTable(b, a.offset, pre, LoadDylib(path), post, rs);
  }

  lemma OutputHasTable(b: seq<byte>, path: seq<byte>)
    requires WellFormed(b) && Rewritten(b, path).Success?
    ensures SlotIn(b).Some?
    ensures HasTable(b, Replaced(Commands(b), SlotIn(b).value, path), Rewritten(b, path).value)
    ensures |Flatten(Replaced(Commands(b), SlotIn(b).value, path))| == TableSize(b) + Growth(AnchorIn(b), path)
  {
    hide Rewritten, RewrittenAt, HasTable, ParseCommands, LE, Flatten, LoadDylib, SlotOf, Replaced, AnchorOf;
    hide AllCommands, AnchorAt;
    OutcomeByPadding(b, path);
    AnchorFound(b);
    var cs, s, a := Commands(b), SlotIn(b).value, AnchorIn(b);
    SizeOfReplaced(b, path);
    RewrittenAtSlot(b, path);
    SplitTable(b);
    FlattenReplaced(cs, s, path);
    SpliceHasTable(b, a, path, Flatten(cs[..s.first]), Flatten(cs[s.first + s.count..]), Replaced(cs, s, path));
  }

  lemma HeaderWordsAre(b: seq<byte>, a: Anchor, path: seq<byte>, n: nat, size: nat)
    requires |b| >= HEADER_SIZE && a.commandCount <= CommandCount(b)
    requires n == CommandCount(b) - a.commandCount + 1 && size == TableSize(b) + Growth(a, path)
    ensures HeaderWords(b, a, path) == Digits(n, 4) + Digits(AsU32(size), 4)
  {
  }

  lemma SizeOfReplaced(b: seq<byte>, path: seq<byte>)
    requires WellFormed(b) && SlotIn(b).Some?
    ensures |Replaced(Commands(b), SlotIn(b).value, path)| == CommandCount(b) - AnchorIn(b).commandCount + 1
  {
  }

  lemma FlattenReplaced(cs: seq<Command>, s: Slot, path: seq<byte>)
    requires s.first + s.count <= |cs|
    ensures Flatten(Replaced(cs, s, path)) ==
            Flatten(cs[..s.first]) + LoadDylib(path) + Flatten(cs[s.first + s.count..])
  {
    hide Flatten, LoadDylib;
    var c := LoadDylib(path);
    FlattenOne(c);
    FlattenAppend(cs[..s.first], [c]);
    FlattenAppend(cs[..s.first] + [c], cs[s.first + s.count..]);
  }

  /**
   Rewriting commutes with reading. The output is again well formed and its list of commands is
   the input's with the slot replaced by the one injected command, exactly when the new table
   size fits the 32-bit header field that holds it.
   */
  lemma SpliceCommutesWithReading(b: seq<byte>, path: seq<byte>)
    requires WellFormed(b) && Rewritten(b, path).Success?
    ensures SlotIn(b).Some?
    ensures var out := Rewritten(b, path).value;
            (WellFormed(out) && Commands(out) == Replaced(Commands(b), SlotIn(b).value, path))
            <==> TableSize(b) + Growth(AnchorIn(b), path) < U32_SIZE
  {
    OutputHasTable(b, path);
    var cs, s := Commands(b), SlotIn(b).value;
    ReplacedCommands(cs, s, path);
    LE32Bound(b[16..20]);
    hide HasTable, Flatten, LE, Rewritten, ParseCommands, SlotOf, Replaced, AnchorAt, AllCommands;
    HasTableReads(b, Replaced(cs, s, path), Rewritten(b, path).value);
  }

  lemma ReplacedCommands(cs: seq<Command>, s: Slot, path: seq<byte>)
    requires AllCommands(cs) && s.first + s.count <= |cs| && s.count > 0
    ensures |Replaced(cs, s, path)| <= |cs|
    ensures |Flatten(Replaced(cs, s, path))| < U32_SIZE ==> AllCommands(Replaced(cs, s, path))
  {
    FlattenReplaced(cs, s, path);
    if |Flatten(Replaced(cs, s, path))| < U32_SIZE {
      LoadDylibFields(path);
    }
  }

  /** Files below 4 GiB never hit the truncation. */
  lemma SmallFilesFit(b: seq<byte>, path: seq<byte>)
    requires WellFormed(b) && Rewritten(b, path).Success? && |b| < U32_SIZE
    ensures SlotIn(b).Some? && TableSize(b) + Growth(AnchorIn(b), path) < U32_SIZE
  {
    OutcomeByPadding(b, path);
    LE32Bound(b[20..24]);
  }

  /**
   The frame, on any input at all: outside the header's two words and the patched run, no byte
   moves. The run starts at the slot; it ends at the table's end moved by the growth, or for a
   shrinking rewrite at the end of the new command.
   */
  lemma UntouchedBytes(b: seq<byte>, path: seq<byte>, i: nat)
    requires Rewritten(b, path).Success? && i < |b|
    requires !(16 <= i < 24)
    requires var a := AnchorOf(b, CommandCount(b), TableSize(b)).value;
             i < a.offset || i >= a.offset + |Patch(b, a, path)|
    ensures Rewritten(b, path).value[i] == b[i]
  {
  }

  /** A file made of a header, any commands and `n` zero bytes. */
  function FileOf(cs: seq<Command>, n: nat): seq<byte> {
    Header(|cs|, |Flatten(cs)|) + (Flatten(cs) + Zeros(n))
  }

  function Header(count: nat, size: nat): (h: seq<byte>)
    ensures |h| == HEADER_SIZE
  {
    Digits(MH_MAGIC_64, 4) + Zeros(12) + (Digits(count, 4) + Digits(size, 4)) + Zeros(8)
  }

  lemma HeaderReads(count: nat, size: nat)
    requires count < U32_SIZE && size < U32_SIZE
    ensures var h := Header(count, size);
            LE(h[0..4]) == MH_MAGIC_64 && LE(h[16..20]) == count && LE(h[20..24]) == size
  {
    hide LE, Digits, Zeros;
    var h := Header(count, size);
    LEOfDigits32(MH_MAGIC_64);
    LEOfDigits32(count);
    LEOfDigits32(size);
    assert h[0..4] == Digits(MH_MAGIC_64, 4) && h[16..20] == Digits(count, 4) && h[20..24] == Digits(size, 4);
  }

  /**
   Every list of commands that fits its header words is the table of some file; and given padding
   for the whole new command, a rewrite of that file succeeds exactly when the list has a slot.
   */
  lemma EveryTableHasAFile(cs: seq<Command>, n: nat, path: seq<byte>)
    requires AllCommands(cs) && |cs| < U32_SIZE && |Flatten(cs)| < U32_SIZE
    ensures WellFormed(FileOf(cs, n)) && Commands(FileOf(cs, n)) == cs
    ensures n >= NewCommandSize(path) ==> (Rewritten(FileOf(cs, n), path).Success? <==> SlotOf(cs).Some?)
  {
    hide LE, Header, Flatten, ParseCommands, Rewritten, SlotOf, AllCommands, AnchorAt, NewCommandSize, LoadDylib;
    var h, b, end := Header(|cs|, |Flatten(cs)|), FileOf(cs, n), HEADER_SIZE + |Flatten(cs)|;
    HeaderReads(|cs|, |Flatten(cs)|);
    assert b[0..4] == h[0..4] && b[16..20] == h[16..20] && b[20..24] == h[20..24];
    assert b[HEADER_SIZE..end] == Flatten(cs);
    WellFormedIntro(b, cs);
    OutcomeByPadding(b, path);
    assert forall i :: end <= i < end + n ==> b[i] == 0;
  }

  // ---- off the well-formed path

  /**
   When the rewriter indexes past the buffer, on any input: exactly when the slot is a pair, the
   padding its growth asks for is there, and the path written into it runs over the end of the
   file. The pair then sticks out of the declared table.
   */
  lemma PanicsExactlyOnStrayPair(b: seq<byte>, path: seq<byte>)
    ensures Rewritten(b, path) == Failure(Panic) <==>
            && |b| >= 32 && LE(b[0..4]) == 0xfeed_facf
            && var a, end := AnchorOf(b, LE(b[16..20]), LE(b[20..24])), 32 + LE(b[20..24]);
               && a.Success? && a.value.commandCount == 2
               && var newEnd := end - a.value.size + (24 + |path| + 1 + 7) / 8 * 8;
                  && (newEnd > end ==> newEnd <= |b|)
                  && (forall i :: end <= i < newEnd ==> b[i] == 0)
                  && a.value.offset + 24 + |path| > |b|
    ensures Rewritten(b, path) == Failure(Panic) ==>
              var a := AnchorOf(b, CommandCount(b), TableSize(b)).value;
              a.offset + a.size > HEADER_SIZE + TableSize(b)
  {
    hide LE, ParseCommands, FirstAnchor;
    if |b| >= HEADER_SIZE {
      AnchorBounds(b, CommandCount(b), TableSize(b));
    }
  }

  /** A 64-byte file whose declared table (8 bytes) cuts its pair short; a 9-byte path overruns it. */
  function StrayPairFile(): seq<byte> {
    seq(64, (i: nat) => StrayByte(i))
  }

  function StrayByte(i: nat): byte {
    match i
    case 0 => 0xcf case 1 => 0xfa case 2 => 0xed case 3 => 0xfe
    case 16 => 2
    case 20 => 8
    case 32 => 0x29 case 36 => 16
    case 48 => 0x1d case 52 => 16
    case _ => 0
  }

  /** ... and then it does happen, so the table has to end where the header says. */
  lemma StrayPairPanics(path: seq<byte>)
    requires |path| == 9
    ensures Rewritten(StrayPairFile(), path) == Failure(Panic)
  {
    var b := StrayPairFile();
    hide LE, ParseCommands, StrayPairFile, Overlay, Patch, HeaderWords, FirstAnchor;
    StrayPadding(b);
    StrayWords(b);
    StrayCommands(b);
    assert CommandCount(b) == 2 && TableSize(b) == 8 && LE(b[0..4]) == MH_MAGIC_64;
    assert AnchorOf(b, 2, 8) == Success(Anchor(32, 32, 2));
    assert Growth(Anchor(32, 32, 2), path) == 8;
  }

  lemma StrayPadding(b: seq<byte>)
    requires b == StrayPairFile()
    ensures |b| == 64 && forall i :: 40 <= i < 48 ==> b[i] == 0
  {
  }

  lemma StrayCommands(b: seq<byte>)
    requires |b| == 64
    requires LE(b[32..36]) == LC_DATA_IN_CODE && LE(b[36..40]) == 16
    requires LE(b[48..52]) == LC_CODE_SIGNATURE && LE(b[52..56]) == 16
    ensures ParseCommands(b, 32, 2) == Some([b[32..48], b[48..64]])
    ensures FirstAnchor([b[32..48], b[48..64]], 32, 40) == Some(Anchor(32, 32, 2))
  {
    hide LE;
    SubSlice(b, 32, 48, 0, 4);
    SubSlice(b, 48, 64, 0, 4);
    assert ParseCommands(b, 64, 0) == Some([]);
    assert [b[48..64]] + [] == [b[48..64]];
    assert ParseCommands(b, 48, 1) == Some([b[48..64]]);
    assert [b[32..48]] + [b[48..64]] == [b[32..48], b[48..64]];
  }

  lemma StrayWords(b: seq<byte>)
    requires b == StrayPairFile()
    ensures LE(b[0..4]) == MH_MAGIC_64 && LE(b[16..20]) == 2 && LE(b[20..24]) == 8
    ensures LE(b[32..36]) == LC_DATA_IN_CODE && LE(b[36..40]) == 16
    ensures LE(b[48..52]) == LC_CODE_SIGNATURE && LE(b[52..56]) == 16
  {
    hide LE;
    LE4(b, 0);
    LE4(b, 16);
    LE4(b, 20);
    LE4(b, 32);
    LE4(b, 36);
    LE4(b, 48);
    LE4(b, 52);
  }

  /** The remaining refusals, on any input. */
  lemma RefusesExactly(b: seq<byte>, path: seq<byte>)
    ensures Rewritten(b, path) == Failure(NotThin64) <==> |b| < 32 || LE(b[0..4]) != 0xfeed_facf
    ensures Rewritten(b, path).Failure? && Rewritten(b, path).error.Malformed? <==>
            && |b| >= 32 && LE(b[0..4]) == 0xfeed_facf
            && (32 + LE(b[20..24]) > |b| || ParseCommands(b, 32, LE(b[16..20])).None?)
  {
    hide LE, ParseCommands, FirstAnchor, PaddingFree;
    if |b| >= HEADER_SIZE {
      AnchorBounds(b, CommandCount(b), TableSize(b));
    }
  }

  // ---- chains of rewrites

  function Signatures(cs: seq<Command>): nat
    requires AllCommands(cs)
  {
    if cs == [] then 0
    else (if Kind(cs[0]) == LC_CODE_SIGNATURE then 1 else 0) + Signatures(cs[1..])
  }

  lemma {:induction false} SignaturesAppend(cs: seq<Command>, ds: seq<Command>)
    requires AllCommands(cs) && AllCommands(ds)
    ensures Signatures(cs + ds) == Signatures(cs) + Signatures(ds)
  {
    if cs == [] {
      assert cs + ds == ds;
    } else {
      assert (cs + ds)[1..] == cs[1..] + ds;
      SignaturesAppend(cs[1..], ds);
    }
  }

  lemma SignaturesSplit(pre: seq<Command>, mid: seq<Command>, post: seq<Command>)
    requires AllCommands(pre) && AllCommands(mid) && AllCommands(post)
    ensures AllCommands(pre + mid + post)
    ensures Signatures(pre + mid + post) == Signatures(pre) + Signatures(mid) + Signatures(post)
  {
    SignaturesAppend(pre, mid);
    SignaturesAppend(pre + mid, post);
  }

  /** A rewrite gives up exactly one signature. */
  lemma SlotHoldsOneSignature(cs: seq<Command>, path: seq<byte>)
    requires AllCommands(cs) && SlotOf(cs).Some? && NewCommandSize(path) < U32_SIZE
    ensures AllCommands(Replaced(cs, SlotOf(cs).value, path))
    ensures Signatures(Replaced(cs, SlotOf(cs).value, path)) == Signatures(cs) - 1
  {
    hide LE, Kind, LoadDylib, SlotOf, Signatures;
    var s := SlotOf(cs).value;
    OneSignature(cs, s);
    LoadDylibFields(path);
    NoSignature(LoadDylib(path));
    ThreeParts(cs, s.first, s.first + s.count);
    SignaturesSplit(cs[..s.first], cs[s.first..s.first + s.count], cs[s.first + s.count..]);
    SignaturesSplit(cs[..s.first], [LoadDylib(path)], cs[s.first + s.count..]);
  }

  lemma NoSignature(c: Command)
    requires IsCommand(c) && Kind(c) == LC_LOAD_DYLIB
    ensures AllCommands([c]) && Signatures([c]) == 0
  {
    hide LE, Kind;
    assert [c][1..] == [];
  }

  lemma OneSignature(cs: seq<Command>, s: Slot)
    requires AllCommands(cs) && SlotOf(cs) == Some(s)
    ensures Signatures(cs[s.first..s.first + s.count]) == 1
  {
    if s.count == 1 {
      assert cs[s.first..s.first + s.count] == [cs[s.first]];
    } else {
      var second := [cs[s.first + 1]];
      assert cs[s.first..s.first + s.count] == [cs[s.first]] + second;
      assert ([cs[s.first]] + second)[1..] == second;
      assert Signatures(second) == 1;
    }
  }

  /** Rewriting the output of a rewrite, and so on. */
  function RewriteAll(b: seq<byte>, paths: seq<seq<byte>>): Result<seq<byte>, RewriteError>
    decreases |paths|
  {
    if paths == [] then Success(b)
    else
      var out :- Rewritten(b, paths[0]);
      RewriteAll(out, paths[1..])
  }

  /** The same chain on lists of commands. */
  ghost function ReplaceAll(cs: seq<Command>, paths: seq<seq<byte>>): Option<seq<Command>>
    decreases |paths|
  {
    if paths == [] then Some(cs)
    else if !AllCommands(cs) || SlotOf(cs).None? then None
    else ReplaceAll(Replaced(cs, SlotOf(cs).value, paths[0]), paths[1..])
  }

  /**
   Chains: as long as it succeeds, any number of rewrites of a file below 4 GiB is that many
   edits of the command list, and every rewrite uses up one LC_CODE_SIGNATURE.
   */
  lemma {:induction false} ChainsEditTheList(b: seq<byte>, paths: seq<seq<byte>>)
    requires WellFormed(b) && |b| < U32_SIZE
    requires RewriteAll(b, paths).Success?
    ensures var out := RewriteAll(b, paths).value;
            && WellFormed(out) && |out| == |b|
            && ReplaceAll(Commands(b), paths) == Some(Commands(out))
            && Signatures(Commands(out)) == Signatures(Commands(b)) - |paths|
    decreases |paths|
  {
    if paths != [] {
      var out := Rewritten(b, paths[0]).value;
      SpliceCommutesWithReading(b, paths[0]);
      SmallFilesFit(b, paths[0]);
      OutcomeByPadding(b, paths[0]);
      AnchorBounds(b, CommandCount(b), TableSize(b));
      SlotHoldsOneSignature(Commands(b), paths[0]);
      ChainsEditTheList(out, paths[1..]);
    }
  }

  /** The zero padding after the table that a chain needs: its accumulated growth at the peak. */
  ghost function Padding(cs: seq<Command>, paths: seq<seq<byte>>): nat
    decreases |paths|
  {
    if paths == [] || !AllCommands(cs) || SlotOf(cs).None? then 0
    else
      var next := Replaced(cs, SlotOf(cs).value, paths[0]);
      var need := |Flatten(next)| - |Flatten(cs)| + Padding(next, paths[1..]);
      if need > 0 then need else 0
  }

  /**
   When a chain succeeds: exactly when the list of commands has a slot for every edit and the
   bytes after the table, as far as the accumulated growth reaches, are zero at the start.
   */
  lemma ChainSucceedsIff(b: seq<byte>, paths: seq<seq<byte>>)
    requires WellFormed(b) && |b| < U32_SIZE
    ensures RewriteAll(b, paths).Success? <==>
            && ReplaceAll(Commands(b), paths).Some?
            && var end := 32 + LE(b[20..24]);
               end + Padding(Commands(b), paths) <= |b|
               && forall i :: end <= i < end + Padding(Commands(b), paths) ==> b[i] == 0
  {
    hide LE, ParseCommands, Flatten, RewriteAll, ReplaceAll, Padding;
    ChainSucceedsByPadding(b, paths);
  }

  /** A byte after the table that is not zero survives any successful chain. */
  lemma {:induction false} ChainsKeepNonZeroBytes(b: seq<byte>, paths: seq<seq<byte>>, i: nat)
    requires WellFormed(b) && |b| < U32_SIZE && RewriteAll(b, paths).Success?
    requires 32 + LE(b[20..24]) <= i < |b| && b[i] != 0
    ensures |RewriteAll(b, paths).value| == |b| && RewriteAll(b, paths).value[i] == b[i]
    decreases |paths|
  {
    hide LE, ParseCommands, Rewritten, Flatten, SlotOf, Replaced, AnchorAt, LoadDylib;
    if paths != [] {
      OutcomeByPadding(b, paths[0]);
      FirstLink(b, paths[0]);
      NonZeroBytesSurvive(b, paths[0], i);
      ChainsKeepNonZeroBytes(Rewritten(b, paths[0]).value, paths[1..], i);
    }
  }

  lemma {:induction false} ChainSucceedsByPadding(b: seq<byte>, paths: seq<seq<byte>>)
    requires WellFormed(b) && |b| < U32_SIZE
    ensures RewriteAll(b, paths).Success? <==>
            && ReplaceAll(Commands(b), paths).Some?
            && PaddingFree(b, HEADER_SIZE + TableSize(b), Padding(Commands(b), paths))
    decreases |paths|
  {
    hide LE, ParseCommands, Rewritten, Flatten, SlotOf, Replaced, AnchorAt, PaddingFree, LoadDylib;
    if paths != [] {
      OutcomeByPadding(b, paths[0]);
      if SlotIn(b).Some? {
        var cs, g := Commands(b), Growth(AnchorIn(b), paths[0]);
        var next, end := Replaced(cs, SlotIn(b).value, paths[0]), HEADER_SIZE + TableSize(b);
        var more := Padding(next, paths[1..]);
        GrowthIs(b, paths[0]);
        PaddingShrinks(b, end, g, g + more);
        if Rewritten(b, paths[0]).Success? {
          FirstLink(b, paths[0]);
          var out := Rewritten(b, paths[0]).value;
          ChainSucceedsByPadding(out, paths[1..]);
          if g >= 0 {
            PaddingCarries(b, out, end, g, more);
          } else if paths[1..] != [] {
            ShrinkingIsLast(b, paths[0]);
          } else {
            NoPaddingNeeded(b, end);
            NoPaddingNeeded(out, end + g);
          }
        }
      }
    } else {
      NoPaddingNeeded(b, HEADER_SIZE + TableSize(b));
    }
  }

  lemma NoPaddingNeeded(b: seq<byte>, end: nat)
    ensures PaddingFree(b, end, 0)
  {
  }

  lemma PaddingShrinks(b: seq<byte>, end: nat, g: int, g': int)
    requires g <= g'
    ensures PaddingFree(b, end, g') ==> PaddingFree(b, end, g)
    ensures PaddingFree(b, end, g') <==> PaddingFree(b, end, if g' > 0 then g' else 0)
  {
  }

  /** After a rewrite that used up `g` bytes of padding, `more` bytes are left exactly if all were there. */
  lemma PaddingCarries(b: seq<byte>, out: seq<byte>, end: nat, g: nat, more: nat)
    requires PaddingFree(b, end, g) && |out| == |b|
    requires forall i :: end + g <= i < |b| ==> out[i] == b[i]
    ensures PaddingFree(out, end + g, more) <==> PaddingFree(b, end, g + more)
  {
    if PaddingFree(out, end + g, more) {
      forall i | end + g <= i < end + g + more && i < |b|
        ensures b[i] == 0
      {
        assert out[i] == 0;
      }
    }
  }

  /** The growth at the slot is the growth of the table. */
  lemma GrowthIs(b: seq<byte>, path: seq<byte>)
    requires WellFormed(b) && SlotIn(b).Some?
    ensures |Flatten(Replaced(Commands(b), SlotIn(b).value, path))| - |Flatten(Commands(b))| ==
            Growth(AnchorIn(b), path)
    ensures |Flatten(Commands(b))| == TableSize(b)
  {
    hide LE, ParseCommands, Flatten, SlotOf, LoadDylib, Replaced;
    var cs, s := Commands(b), SlotIn(b).value;
    FlattenReplaced(cs, s, path);
    FlattenSplit(cs, s.first, s.first + s.count);
  }

  /** What one successful rewrite hands on to the rest of a chain. */
  lemma FirstLink(b: seq<byte>, path: seq<byte>)
    requires WellFormed(b) && |b| < U32_SIZE && Rewritten(b, path).Success?
    ensures SlotIn(b).Some?
    ensures var out, g := Rewritten(b, path).value, Growth(AnchorIn(b), path);
            && |out| == |b| && WellFormed(out)
            && Commands(out) == Replaced(Commands(b), SlotIn(b).value, path)
            && TableSize(out) == TableSize(b) + g
            && forall i :: HEADER_SIZE + TableSize(b) + g <= i < |b| ==> out[i] == b[i]
  {
    hide LE, ParseCommands, Flatten, SlotOf, Replaced, AnchorAt, LoadDylib, AnchorOf, RewrittenAt, Patch, PaddingFree;
    SpliceCommutesWithReading(b, path);
    SmallFilesFit(b, path);
    OutcomeByPadding(b, path);
    GrowthIs(b, path);
    AnchorFound(b);
    PatchIs(b, AnchorIn(b), path);
    var out, g := Rewritten(b, path).value, Growth(AnchorIn(b), path);
    forall i | HEADER_SIZE + TableSize(b) + g <= i < |b|
      ensures out[i] == b[i]
    {
      UntouchedBytes(b, path, i);
    }
  }

  /** Only a final signature shrinks, and then no slot is left for another rewrite. */
  lemma ShrinkingIsLast(b: seq<byte>, path: seq<byte>)
    requires WellFormed(b) && SlotIn(b).Some? && Growth(AnchorIn(b), path) < 0
    ensures var next := Replaced(Commands(b), SlotIn(b).value, path);
            AllCommands(next) && SlotOf(next).None?
  {
    hide LE, ParseCommands, Flatten, SlotOf, Replaced, AnchorAt, LoadDylib;
    AnchorFound(b);
    LE32Bound(b[20..24]);
    LoadDylibFields(path);
    assert SlotIn(b).value.count == 1;
    SingleIsLast(Commands(b), path);
  }

  lemma SingleIsLast(cs: seq<Command>, path: seq<byte>)
    requires AllCommands(cs) && SlotOf(cs).Some? && SlotOf(cs).value.count == 1
    requires IsCommand(LoadDylib(path)) && Kind(LoadDylib(path)) == LC_LOAD_DYLIB
    ensures var next := Replaced(cs, SlotOf(cs).value, path);
            AllCommands(next) && SlotOf(next).None?
  {
    hide LE, LoadDylib, Kind;
    var next, last := Replaced(cs, SlotOf(cs).value, path), |cs| - 1;
    assert next == cs[..last] + [LoadDylib(path)];
    forall i | 0 <= i < |next|
      ensures !PairAt(next, i)
    {
      assert !PairAt(cs, i);
    }
  }

  /** With one signature in the input, a second rewrite finds no slot, whatever its path. */
  lemma RewritingUsesUpTheSlot(b: seq<byte>, path: seq<byte>, path': seq<byte>)
    requires WellFormed(b) && |b| < U32_SIZE && Signatures(Commands(b)) == 1
    requires Rewritten(b, path).Success?
    ensures Rewritten(Rewritten(b, path).value, path') == Failure(NoReplaceableSlot)
  {
    var out := Rewritten(b, path).value;
    assert RewriteAll(out, []) == Success(out);
    ChainsEditTheList(b, [path]);
    OutcomeByPadding(out, path');
    NoSignatureNoSlot(Commands(out));
  }

  lemma NoSignatureNoSlot(cs: seq<Command>)
    requires AllCommands(cs) && Signatures(cs) == 0
    ensures SlotOf(cs).None?
  {
    if SlotOf(cs).Some? {
      SlotHoldsOneSignature(cs, []);
    }
  }
}
