/**
 The Mach-O side of the rewriter, as a reader sees it: the load-command table as a list of
 commands, and the slot rule of `find_anchor` stated on that list.
 */
module MachOTable {
  import opened Results
  import opened Bytes

  const MH_MAGIC_64 := 0xfeed_facf
  const HEADER_SIZE := 32

  const LC_LOAD_DYLIB := 0xc
  const LC_CODE_SIGNATURE := 0x1d
  const LC_DATA_IN_CODE := 0x29

  const LINKEDIT_DATA_COMMAND_SIZE := 16
  const DYLIB_COMMAND_HEADER_SIZE := 24

  datatype RewriteError =
    | NotThin64
    | Malformed(why: string)
    | NoReplaceableSlot
    | NoPaddingToGrow
    | Panic // a slice index past the end of the buffer

  /** A load command, whole: `cmd`, `cmdsize` and the rest of its `cmdsize` bytes. */
  type Command = seq<byte>

  function Kind(c: Command): nat
    requires |c| >= 8
  {
    LE(c[0..4])
  }

  function ReadU32(b: seq<byte>, off: nat): (r: Result<nat, RewriteError>)
    ensures r.Success? ==> off + 4 <= |b| && r.value == LE(b[off..off + 4]) < U32_SIZE
    ensures r.Failure? ==> off + 4 > |b| && r.error.Malformed?
  {
    if off + 4 <= |b| then
      LE32Bound(b[off..off + 4]);
      Success(LE(b[off..off + 4]))
    else
      Failure(Malformed("truncated"))
  }

  // ---- the independent reader

  /** The `n` commands starting at `off`, each as long as its own size field says. */
  function ParseCommands(b: seq<byte>, off: nat, n: nat): (r: Option<seq<Command>>)
    ensures r.Some? ==> |r.value| == n && AllCommands(r.value)
    decreases n
  {
    if n == 0 then Some([])
    else if off + 8 > |b| then None
    else
      var size := LE(b[off + 4..off + 8]);
      if size < 8 || off + size > |b| then None
      else
        var rest := ParseCommands(b, off + size, n - 1);
        var c := b[off..off + size];
        SubSlice(b, off, off + size, 4, 8);
        if rest.None? then None else Some([c] + rest.value)
  }

  /** A byte string that is one well-formed command: its size field is its length. */
  predicate IsCommand(c: Command) {
    |c| >= 8 && LE(c[4..8]) == |c|
  }

  predicate AllCommands(cs: seq<Command>) {
    forall i :: 0 <= i < |cs| ==> IsCommand(cs[i])
  }

  function Flatten(cs: seq<Command>): seq<byte> {
    if cs == [] then [] else cs[0] + Flatten(cs[1..])
  }

  lemma FlattenOne(c: Command)
    ensures Flatten([c]) == c
  {
    assert Flatten([c]) == c + Flatten([c][1..]);
  }

  lemma {:induction false} FlattenAppend(cs: seq<Command>, ds: seq<Command>)
    ensures Flatten(cs + ds) == Flatten(cs) + Flatten(ds)
  {
    if cs == [] {
      assert cs + ds == ds;
    } else {
      FlattenAppend(cs[1..], ds);
      assert (cs + ds)[1..] == cs[1..] + ds;
      assert Flatten(cs + ds) == cs[0] + (Flatten(cs[1..]) + Flatten(ds));
    }
  }

  lemma FlattenSplit(cs: seq<Command>, i: nat, j: nat)
    requires i <= j <= |cs|
    ensures Flatten(cs) == Flatten(cs[..i]) + Flatten(cs[i..j]) + Flatten(cs[j..])
  {
    ThreeParts(cs, i, j);
    FlattenAppend(cs[..i] + cs[i..j], cs[j..]);
    FlattenAppend(cs[..i], cs[i..j]);
  }

  lemma ParseStep(b: seq<byte>, off: nat, c: Command, rest: seq<Command>)
    requires IsCommand(c) && off + |c| <= |b| && b[off..off + |c|] == c
    requires ParseCommands(b, off + |c|, |rest|) == Some(rest)
    ensures ParseCommands(b, off, 1 + |rest|) == Some([c] + rest)
  {
    SubSlice(b, off, off + |c|, 4, 8);
  }

  /** Reading is the inverse of laying commands out one after the other. */
  lemma {:induction false} ParseFlattened(b: seq<byte>, off: nat, cs: seq<Command>)
    requires AllCommands(cs)
    requires off + |Flatten(cs)| <= |b| && b[off..off + |Flatten(cs)|] == Flatten(cs)
    ensures ParseCommands(b, off, |cs|) == Some(cs)
    decreases |cs|
  {
    if cs != [] {
      ThreeRuns(b, off, cs[0], Flatten(cs[1..]), []);
      ParseFlattened(b, off + |cs[0]|, cs[1..]);
      ParseStep(b, off, cs[0], cs[1..]);
      assert [cs[0]] + cs[1..] == cs;
    }
  }

  /** ... and laying out what was read gives back the bytes that were read. */
  lemma {:induction false} FlattenParsed(b: seq<byte>, off: nat, n: nat)
    requires ParseCommands(b, off, n).Some?
    ensures var cs := ParseCommands(b, off, n).value;
            n > 0 ==> off + |Flatten(cs)| <= |b| && b[off..off + |Flatten(cs)|] == Flatten(cs)
    decreases n
  {
    if n != 0 {
      var size := LE(b[off + 4..off + 8]);
      FlattenParsed(b, off + size, n - 1);
      var rest := ParseCommands(b, off + size, n - 1).value;
      assert ([b[off..off + size]] + rest)[1..] == rest;
      if n == 1 {
        assert Flatten(rest) == [];
      } else {
        assert b[off..off + size + |Flatten(rest)|] ==
               b[off..off + size] + b[off + size..off + size + |Flatten(rest)|];
      }
    }
  }

  // ---- whole files

  function CommandCount(b: seq<byte>): nat
    requires |b| >= HEADER_SIZE
  {
    LE(b[16..20])
  }

  function TableSize(b: seq<byte>): nat
    requires |b| >= HEADER_SIZE
  {
    LE(b[20..24])
  }

  /** A thin 64-bit file whose `ncmds` commands fill exactly the `sizeofcmds` bytes of its table. */
  ghost predicate WellFormed(b: seq<byte>) {
    && |b| >= HEADER_SIZE
    && LE(b[0..4]) == MH_MAGIC_64
    && ParseCommands(b, HEADER_SIZE, CommandCount(b)).Some?
    && |Flatten(Commands(b))| == TableSize(b)
    && HEADER_SIZE + TableSize(b) <= |b|
  }

  ghost function Commands(b: seq<byte>): seq<Command>
    requires |b| >= HEADER_SIZE && ParseCommands(b, HEADER_SIZE, CommandCount(b)).Some?
  {
    ParseCommands(b, HEADER_SIZE, CommandCount(b)).value
  }

  lemma TableOf(b: seq<byte>)
    requires WellFormed(b)
    ensures b[HEADER_SIZE..HEADER_SIZE + TableSize(b)] == Flatten(Commands(b))
  {
    FlattenParsed(b, HEADER_SIZE, CommandCount(b));
  }

  /** The table of a file is the one list of commands that fills it. */
  lemma WellFormedIntro(b: seq<byte>, cs: seq<Command>)
    requires |b| >= HEADER_SIZE && LE(b[0..4]) == MH_MAGIC_64
    requires CommandCount(b) == |cs| && TableSize(b) == |Flatten(cs)|
    requires AllCommands(cs)
    requires HEADER_SIZE + |Flatten(cs)| <= |b|
    requires b[HEADER_SIZE..HEADER_SIZE + |Flatten(cs)|] == Flatten(cs)
    ensures WellFormed(b) && Commands(b) == cs
  {
    ParseFlattened(b, HEADER_SIZE, cs);
  }

  // ---- the slot rule

  /** The slot that will be overwritten: where it is and how many commands it holds. */
  datatype Anchor = Anchor(offset: nat, size: nat, commandCount: nat)

  predicate PairAt(cs: seq<Command>, i: nat)
    requires AllCommands(cs)
  {
    && i + 1 < |cs|
    && Kind(cs[i]) == LC_DATA_IN_CODE && |cs[i]| == LINKEDIT_DATA_COMMAND_SIZE
    && Kind(cs[i + 1]) == LC_CODE_SIGNATURE && |cs[i + 1]| == LINKEDIT_DATA_COMMAND_SIZE
  }

  /** The first command, in table order, that opens a pair or is a signature ending the table. */
  function FirstAnchor(cs: seq<Command>, off: nat, tableEnd: nat): Option<Anchor>
    requires AllCommands(cs)
  {
    if cs == [] then None
    else if PairAt(cs, 0) then Some(Anchor(off, |cs[0]| + |cs[1]|, 2))
    else if Kind(cs[0]) == LC_CODE_SIGNATURE && off + |cs[0]| == tableEnd then Some(Anchor(off, |cs[0]|, 1))
    else FirstAnchor(cs[1..], off + |cs[0]|, tableEnd)
  }

  /** What `find_anchor` answers on any input at all, up to the wording of `Malformed`. */
  function AnchorOf(b: seq<byte>, ncmds: nat, sizeofcmds: nat): (r: Result<Anchor, RewriteError>) {
    var tableEnd := HEADER_SIZE + sizeofcmds;
    if tableEnd > |b| then Failure(Malformed(""))
    else
      var cs := ParseCommands(b, HEADER_SIZE, ncmds);
      if cs.None? then Failure(Malformed(""))
      else
        var a := FirstAnchor(cs.value, HEADER_SIZE, tableEnd);
        if a.None? then Failure(NoReplaceableSlot) else Success(a.value)
  }

  /** Two results that differ at most in the wording of `Malformed`. */
  predicate SameResult<T(==)>(r: Result<T, RewriteError>, s: Result<T, RewriteError>) {
    match (r, s)
    case (Success(x), Success(y)) => x == y
    case (Failure(d), Failure(e)) => d == e || (d.Malformed? && e.Malformed?)
    case _ => false
  }

  /** The index of the first pair, or the number of commands if there is no pair. */
  function FirstPair(cs: seq<Command>): (p: nat)
    requires AllCommands(cs)
    ensures p <= |cs| && (p < |cs| ==> PairAt(cs, p))
    ensures forall i :: 0 <= i < p ==> !PairAt(cs, i)
  {
    if cs == [] || PairAt(cs, 0) then 0
    else
      var p := FirstPair(cs[1..]);
      assert forall i :: 1 <= i < |cs| ==> PairAt(cs, i) == PairAt(cs[1..], i - 1);
      1 + p
  }

  /** Which commands the rewriter gives up: from index `first`, `count` of them. */
  datatype Slot = Slot(first: nat, count: nat)

  /** The rule in words: the first pair; failing that, a signature that is the last command. */
  function SlotOf(cs: seq<Command>): (r: Option<Slot>)
    requires AllCommands(cs)
    ensures r.Some? ==> r.value.first + r.value.count <= |cs| && r.value.count > 0
  {
    var p := FirstPair(cs);
    if p < |cs| then Some(Slot(p, 2))
    else if cs != [] && Kind(cs[|cs| - 1]) == LC_CODE_SIGNATURE then Some(Slot(|cs| - 1, 1))
    else None
  }

  /** A pair by the words of its commands: 16 bytes each, LC_DATA_IN_CODE and then LC_CODE_SIGNATURE. */
  lemma PairInWords(cs: seq<Command>, i: nat)
    requires AllCommands(cs)
    ensures PairAt(cs, i) <==>
            && i + 1 < |cs| && LE(cs[i][0..4]) == 0x29 && |cs[i]| == 16
            && LE(cs[i + 1][0..4]) == 0x1d && |cs[i + 1]| == 16
  {
    hide LE;
  }

  /** The rule in full: the first pair; without one, LC_CODE_SIGNATURE as the last command; else nothing. */
  lemma SlotInWords(cs: seq<Command>)
    requires AllCommands(cs)
    ensures match SlotOf(cs)
            case Some(Slot(first, count)) =>
              if count == 2 then PairAt(cs, first) && forall i :: 0 <= i < first ==> !PairAt(cs, i)
              else
                && count == 1 && first == |cs| - 1 && LE(cs[|cs| - 1][0..4]) == 0x1d
                && forall i :: 0 <= i < |cs| ==> !PairAt(cs, i)
            case None =>
              && (forall i :: 0 <= i < |cs| ==> !PairAt(cs, i))
              && (cs != [] ==> LE(cs[|cs| - 1][0..4]) != 0x1d)
  {
    hide LE, PairAt, FirstPair;
  }

  /** Where a slot's commands lie, for a table starting at `off`. */
  function AnchorAt(cs: seq<Command>, off: nat, s: Slot): Anchor
    requires s.first + s.count <= |cs|
  {
    Anchor(off + |Flatten(cs[..s.first])|, |Flatten(cs[s.first..s.first + s.count])|, s.count)
  }

  /**
   The search is complete on a table that ends where the header says: it finds the first pair
   if there is one, otherwise a final LC_CODE_SIGNATURE, and fails exactly when there is neither.
   */
  lemma {:induction false} AnchorIsSlot(cs: seq<Command>, off: nat)
    requires AllCommands(cs)
    ensures FirstAnchor(cs, off, off + |Flatten(cs)|) ==
            match SlotOf(cs) case None => None case Some(s) => Some(AnchorAt(cs, off, s))
  {
    if cs == [] {
    } else if PairAt(cs, 0) {
      FlattenOne(cs[0]);
      FlattenOne(cs[1]);
      assert cs[0..2] == [cs[0]] + [cs[1]];
      FlattenAppend([cs[0]], [cs[1]]);
    } else if Kind(cs[0]) == LC_CODE_SIGNATURE && |cs[0]| == |Flatten(cs)| {
      assert |cs| == 1;
      assert cs[0..1] == cs;
    } else {
      AnchorIsSlot(cs[1..], off + |cs[0]|);
      if |cs| == 1 {
        FlattenOne(cs[0]);
        assert cs == [cs[0]];
      } else if SlotOf(cs).Some? {
        AnchorShift(cs, off, SlotOf(cs).value);
      }
    }
  }

  lemma AnchorShift(cs: seq<Command>, off: nat, s: Slot)
    requires 0 < s.first && s.first + s.count <= |cs|
    ensures AnchorAt(cs, off, s) == AnchorAt(cs[1..], off + |cs[0]|, Slot(s.first - 1, s.count))
  {
    assert cs[..s.first] == [cs[0]] + cs[1..][..s.first - 1];
    FlattenAppend([cs[0]], cs[1..][..s.first - 1]);
    FlattenOne(cs[0]);
    SubSlice(cs, 1, |cs|, s.first - 1, s.first - 1 + s.count);
    assert cs[1..|cs|] == cs[1..];
  }
}
