/** Rewriting the output of a rewrite: what any number of rewrites adds up to, and how many fit. */
module ElfChains {
  import opened Results
  import opened Bytes
  import opened ElfFormat
  import opened ElfRewrite
  import opened ElfFrames
  import opened ElfTheorems
  import opened ElfLoader

  function RewriteAll(b: seq<byte>, rs: seq<Request>): Result<seq<byte>, RewriteError>
    decreases |rs|
  {
    if rs == [] then Success(b)
    else
      var out :- Rewritten(b, rs[0]);
      RewriteAll(out, rs[1..])
  }

  /** Dynamic slots a list of requests consumes. */
  function TotalSlots(rs: seq<Request>): (n: nat)
    ensures n >= |rs|
  {
    if rs == [] then 0 else EntriesNeeded(rs[0]) + TotalSlots(rs[1..])
  }

  /** Bytes of string-table padding a list of requests consumes. */
  function TotalBytes(rs: seq<Request>): nat {
    if rs == [] then 0 else |NewStrings(rs[0])| + TotalBytes(rs[1..])
  }

  /** The entries a list of requests adds, in order, each pointing past the strings before it. */
  function AddedEntries(rs: seq<Request>, strsz: nat): (es: seq<Dyn>)
    ensures |es| == TotalSlots(rs)
    decreases |rs|
  {
    if rs == [] then []
    else NewEntries(rs[0], strsz) + AddedEntries(rs[1..], strsz + |NewStrings(rs[0])|)
  }

  function SectionAfterAll(d: DynamicSection, rs: seq<Request>): DynamicSection {
    d.(terminator := d.terminator + DYN_ENTRY_SIZE * TotalSlots(rs), strsz := d.strsz + TotalBytes(rs))
  }

  function EntriesAfterAll(d: DynamicSection, es: seq<Dyn>, rs: seq<Request>): seq<Dyn>
    requires FirstIndex(es, DT_STRSZ) < |es|
  {
    es[FirstIndex(es, DT_STRSZ) := Dyn(DT_STRSZ, d.strsz + TotalBytes(rs))] + AddedEntries(rs, d.strsz)
  }

  /** What every rewrite of a chain starts from and leaves: found, separated, one DT_STRSZ. */
  ghost predicate Ready(b: seq<byte>, d: DynamicSection, es: seq<Dyn>, limit: nat) {
    Located(b, d, es) && Separated(b, d, limit) && Once(es, DT_STRSZ)
  }

  lemma ReadyIntro(b: seq<byte>, d: DynamicSection, limit: nat)
    requires DynamicOf(b) == Success(d) && |b| < U64_SIZE
    requires Separated(b, d, limit) && Once(Entries(b), DT_STRSZ)
    ensures Ready(b, d, Entries(b), limit)
  {
    LocatedIntro(b, d);
  }

  /** One link of a chain: it succeeds exactly when there is room, and then leaves a ready file. */
  lemma Link(b: seq<byte>, d: DynamicSection, es: seq<Dyn>, r: Request, limit: nat)
    requires Ready(b, d, es, limit) && StringsStart(d) + |NewStrings(r)| <= limit
    ensures Rewritten(b, r).Success? <==> Room(b, d, EntriesNeeded(r), |NewStrings(r)|)
    ensures Rewritten(b, r).Success? ==>
              && Writable(b, d, es, r) && Rewritten(b, r).value == Output(b, d, es, r)
              && Ready(Output(b, d, es, r), SectionAfter(d, es, r), EntriesAfter(d, es, r), limit)
              && SectionAfter(d, es, r).strsz == NewStrsz(d, r)
              && ProgramHeaders(Output(b, d, es, r)) == ProgramHeaders(b)
  {
    hide Located, Room, Output, Writable, NewStrings, Separated, EntriesAfter, FirstIndex, Rewritten, DynamicOf;
    hide Entries, ProgramHeaders;
    SeparatedStrings(b, d, r, limit);
    SucceedsIffRoom(b, d, es, r);
    if Rewritten(b, r).Success? {
      WritableBounds(b, d, es, r);
      HeadersKept(b, d, es, r, limit);
      SectionFound(b, d, es, r, limit);
      SeparatedAfter(b, d, es, r, limit);
      OnceAfter(d, es, r);
      LocatedIntro(Output(b, d, es, r), SectionAfter(d, es, r));
    }
  }

  /** A rewrite uses up its own slots and padding and nothing else. */
  lemma RoomSplits(b: seq<byte>, d: DynamicSection, es: seq<Dyn>, r: Request, limit: nat, slots: nat, bytes: nat)
    requires Writable(b, d, es, r) && Separated(b, d, limit) && SectionAfter(d, es, r).strsz == NewStrsz(d, r)
    requires StringsStart(d) + |NewStrings(r)| + bytes <= limit
    ensures Room(Output(b, d, es, r), SectionAfter(d, es, r), slots, bytes) <==>
            Room(b, d, EntriesNeeded(r) + slots, |NewStrings(r)| + bytes)
  {
    hide Writable, Output, NewStrings, FirstIndex, AllZero, Same, PhdrTableOf;
    WritableBounds(b, d, es, r);
    RoomNow(b, d, es, r);
    var out, k, n := Output(b, d, es, r), EntriesNeeded(r), |NewStrings(r)|;
    var slot, spare := d.terminator + DYN_ENTRY_SIZE, d.terminator + DYN_ENTRY_SIZE * (k + 1);
    var spareEnd, pad := d.terminator + DYN_ENTRY_SIZE * (k + slots + 1), StringsStart(d) + n;
    if spareEnd <= d.segmentEnd {
      OutputSame(b, d, es, r, spare, spareEnd);
      ZeroSame(b, out, spare, spareEnd);
    }
    OutputSame(b, d, es, r, pad, pad + bytes);
    ZeroSame(b, out, pad, pad + bytes);
    ZeroSplits(b, slot, spare, spareEnd);
    ZeroSplits(b, StringsStart(d), pad, pad + bytes);
  }

  lemma RoomNow(b: seq<byte>, d: DynamicSection, es: seq<Dyn>, r: Request)
    requires Writable(b, d, es, r)
    ensures Room(b, d, EntriesNeeded(r), |NewStrings(r)|)
  {
  }

  lemma ZeroSame(b: seq<byte>, c: seq<byte>, lo: nat, hi: nat)
    requires Same(b, c, lo, hi)
    ensures AllZero(b, lo, hi) <==> AllZero(c, lo, hi)
  {
    if AllZero(c, lo, hi) {
      forall i | lo <= i < hi
        ensures b[i] == 0
      {
        assert c[i] == 0;
      }
    }
  }

  lemma ZeroSplits(b: seq<byte>, lo: nat, mid: nat, hi: nat)
    requires lo <= mid <= hi
    ensures AllZero(b, lo, hi) <==> AllZero(b, lo, mid) && AllZero(b, mid, hi)
  {
  }

  /**
   Chains. Over a separated layout whose padding reaches `limit`, a chain of rewrites succeeds
   exactly when all of its entries and all of its strings have room at once; each rewrite hands on
   the conditions for the next one; and the chain adds its entries in order.
   */
  lemma {:induction false} ChainsAddUp(b: seq<byte>, d: DynamicSection, es: seq<Dyn>, rs: seq<Request>, limit: nat)
    requires Ready(b, d, es, limit) && rs != []
    requires StringsStart(d) + TotalBytes(rs) <= limit
    ensures RewriteAll(b, rs).Success? <==> Room(b, d, TotalSlots(rs), TotalBytes(rs))
    ensures RewriteAll(b, rs).Success? ==>
              && FirstIndex(es, DT_STRSZ) < |es|
              && Ready(RewriteAll(b, rs).value, SectionAfterAll(d, rs), EntriesAfterAll(d, es, rs), limit)
              && ProgramHeaders(RewriteAll(b, rs).value) == ProgramHeaders(b)
    decreases |rs|
  {
    hide Ready, Located, Room, Output, Writable, NewStrings, Separated, FirstIndex, Rewritten, ProgramHeaders;
    hide NewEntries;
    var r, rest := rs[0], rs[1..];
    ReadyParts(b, d, es, limit);
    Link(b, d, es, r, limit);
    if rest == [] {
      LastLink(d, es, rs);
      assert forall out :: RewriteAll(out, rest) == Success(out);
    }
    if Rewritten(b, r).Success? {
      WritableBounds(b, d, es, r);
      RoomSplits(b, d, es, r, limit, TotalSlots(rest), TotalBytes(rest));
      if rest != [] {
        ChainsAddUp(Output(b, d, es, r), SectionAfter(d, es, r), EntriesAfter(d, es, r), rest, limit);
        ChainAlgebra(d, es, rs);
      }
    } else {
      RoomShrinks(b, d, EntriesNeeded(r), |NewStrings(r)|, TotalSlots(rs), TotalBytes(rs));
    }
  }

  lemma ReadyParts(b: seq<byte>, d: DynamicSection, es: seq<Dyn>, limit: nat)
    requires Ready(b, d, es, limit)
    ensures Separated(b, d, limit) && Once(es, DT_STRSZ) && FirstIndex(es, DT_STRSZ) < |es|
  {
  }

  lemma RoomShrinks(b: seq<byte>, d: DynamicSection, slots: nat, bytes: nat, slots': nat, bytes': nat)
    requires slots <= slots' && bytes <= bytes'
    ensures Room(b, d, slots', bytes') ==> Room(b, d, slots, bytes)
  {
  }

  lemma LastLink(d: DynamicSection, es: seq<Dyn>, rs: seq<Request>)
    requires |rs| == 1 && Once(es, DT_STRSZ)
    ensures TotalSlots(rs) == EntriesNeeded(rs[0]) && TotalBytes(rs) == |NewStrings(rs[0])|
    ensures SectionAfterAll(d, rs) == SectionAfter(d, es, rs[0])
    ensures EntriesAfterAll(d, es, rs) == EntriesAfter(d, es, rs[0])
  {
    hide NewStrings, NewEntries, FirstIndex;
    assert TotalSlots(rs[1..]) == 0 && TotalBytes(rs[1..]) == 0;
    assert AddedEntries(rs[1..], d.strsz + |NewStrings(rs[0])|) == [];
    assert AddedEntries(rs, d.strsz) == NewEntries(rs[0], d.strsz) + [];
  }

  lemma ChainAlgebra(d: DynamicSection, es: seq<Dyn>, rs: seq<Request>)
    requires rs != [] && Once(es, DT_STRSZ)
    ensures var d', es' := SectionAfter(d, es, rs[0]), EntriesAfter(d, es, rs[0]);
            && FirstIndex(es', DT_STRSZ) < |es'|
            && SectionAfterAll(d', rs[1..]) == SectionAfterAll(d, rs)
            && EntriesAfterAll(d', es', rs[1..]) == EntriesAfterAll(d, es, rs)
  {
    hide NewStrings, NewEntries, FirstIndex, LastValue;
    OnceAfter(d, es, rs[0]);
    var k, added := FirstIndex(es, DT_STRSZ), NewEntries(rs[0], d.strsz);
    var last := Dyn(DT_STRSZ, d.strsz + TotalBytes(rs));
    var later := AddedEntries(rs[1..], d.strsz + |NewStrings(rs[0])|);
    assert (es[k := Dyn(DT_STRSZ, NewStrsz(d, rs[0]))] + added)[k := last] == es[k := last] + added;
    assert (es[k := last] + added) + later == es[k := last] + (added + later);
  }

  /** However long the chain, it fits in the spare slots: `S` of them admit at most `S` rewrites. */
  lemma SlotsBoundChains(b: seq<byte>, d: DynamicSection, es: seq<Dyn>, rs: seq<Request>, limit: nat)
    requires Ready(b, d, es, limit) && rs != []
    requires StringsStart(d) + TotalBytes(rs) <= limit
    requires RewriteAll(b, rs).Success?
    ensures DYN_ENTRY_SIZE * (|rs| + 1) <= d.segmentEnd - d.terminator
  {
    ChainsAddUp(b, d, es, rs, limit);
  }

  /** Strings terminated inside the old table survive a whole chain. */
  lemma {:induction false} ChainsKeepStrings(
    b: seq<byte>, d: DynamicSection, es: seq<Dyn>, rs: seq<Request>, limit: nat, at: nat)
    requires Ready(b, d, es, limit) && StringsStart(d) + TotalBytes(rs) <= limit
    requires d.strtab <= at <= StringsStart(d) <= |b| && 0 in b[at..StringsStart(d)]
    requires RewriteAll(b, rs).Success?
    ensures CString(RewriteAll(b, rs).value, at) == CString(b, at)
    decreases |rs|
  {
    hide Ready, NewStrings, Rewritten, EntriesAfter, CString;
    if rs != [] {
      LinkKeepsString(b, d, es, rs[0], limit, at);
      var out := Rewritten(b, rs[0]).value;
      ChainsKeepStrings(out, SectionAfter(d, es, rs[0]), EntriesAfter(d, es, rs[0]), rs[1..], limit, at);
    }
  }

  lemma LinkKeepsString(b: seq<byte>, d: DynamicSection, es: seq<Dyn>, r: Request, limit: nat, at: nat)
    requires Ready(b, d, es, limit) && StringsStart(d) + |NewStrings(r)| <= limit
    requires d.strtab <= at <= StringsStart(d) <= |b| && 0 in b[at..StringsStart(d)]
    requires Rewritten(b, r).Success?
    ensures FirstIndex(es, DT_STRSZ) < |es| && SectionAfter(d, es, r).strsz == NewStrsz(d, r)
    ensures var out := Rewritten(b, r).value;
            && Ready(out, SectionAfter(d, es, r), EntriesAfter(d, es, r), limit)
            && StringsStart(d) + |NewStrings(r)| <= |out| && 0 in out[at..StringsStart(d) + |NewStrings(r)|]
            && CString(out, at) == CString(b, at)
  {
    hide Ready, Output, Writable, NewStrings, Separated, FirstIndex, Rewritten, EntriesAfter, CString, Room;
    ReadyParts(b, d, es, limit);
    Link(b, d, es, r, limit);
    WritableBounds(b, d, es, r);
    OldStringsResolve(b, d, es, r, limit, at);
    OldTableKept(b, d, es, r, limit);
    StillTerminated(b, Output(b, d, es, r), d.strtab, at, StringsStart(d), StringsStart(d) + |NewStrings(r)|);
  }

  lemma StillTerminated(b: seq<byte>, out: seq<byte>, lo: nat, at: nat, mid: nat, mid': nat)
    requires lo <= at <= mid <= mid' <= |out| && mid <= |b|
    requires out[lo..mid] == b[lo..mid] && 0 in b[at..mid]
    ensures 0 in out[at..mid']
  {
    SubSlice(b, lo, mid, at - lo, mid - lo);
    SubSlice(out, lo, mid, at - lo, mid - lo);
    var i :| 0 <= i < mid - at && out[at..mid][i] == 0;
    assert out[at..mid'][i] == 0;
  }

  /** The names a request adds, one for each of its entries. */
  function NamesOf(r: Request): (names: seq<seq<byte>>)
    ensures |names| == EntriesNeeded(r)
  {
    [r.needed] + if r.rpath.Some? then [r.rpath.value] else []
  }

  function AddedNames(rs: seq<Request>): (names: seq<seq<byte>>)
    ensures |names| == TotalSlots(rs)
  {
    if rs == [] then [] else NamesOf(rs[0]) + AddedNames(rs[1..])
  }

  /**
   Every entry a chain adds, run paths included, still resolves to its own name at the end of the
   chain, if and only if that name has no NUL.
   */
  lemma {:induction false} ChainsResolveNames(
    b: seq<byte>, d: DynamicSection, es: seq<Dyn>, rs: seq<Request>, limit: nat, j: nat)
    requires Ready(b, d, es, limit) && StringsStart(d) + TotalBytes(rs) <= limit
    requires RewriteAll(b, rs).Success? && j < TotalSlots(rs)
    ensures CString(RewriteAll(b, rs).value, d.strtab + AddedEntries(rs, d.strsz)[j].val) == AddedNames(rs)[j]
            <==> 0 !in AddedNames(rs)[j]
    decreases |rs|
  {
    hide Ready, Output, Writable, NewStrings, Separated, FirstIndex, Rewritten, ProgramHeaders, EntriesAfter;
    hide CString, Room, NewEntries, NamesOf;
    var r, k := rs[0], EntriesNeeded(rs[0]);
    ReadyParts(b, d, es, limit);
    Link(b, d, es, r, limit);
    WritableBounds(b, d, es, r);
    var out, d' := Output(b, d, es, r), SectionAfter(d, es, r);
    if j < k {
      LinkResolvesName(b, d, es, r, j);
      var at := d.strtab + NewEntries(r, d.strsz)[j].val;
      ChainsKeepStrings(out, d', EntriesAfter(d, es, r), rs[1..], limit, at);
    } else {
      ChainsResolveNames(out, d', EntriesAfter(d, es, r), rs[1..], limit, j - k);
    }
  }

  /** Right after its rewrite, an entry resolves, to a string that ends inside the grown table. */
  lemma LinkResolvesName(b: seq<byte>, d: DynamicSection, es: seq<Dyn>, r: Request, j: nat)
    requires Writable(b, d, es, r) && j < EntriesNeeded(r)
    ensures var out, at := Output(b, d, es, r), d.strtab + NewEntries(r, d.strsz)[j].val;
            var end := StringsStart(d) + |NewStrings(r)|;
            && d.strtab <= at <= end <= |out| && 0 in out[at..end]
            && (CString(out, at) == NamesOf(r)[j] <==> 0 !in NamesOf(r)[j])
  {
    hide Output, Writable, FirstIndex, CString;
    WritableBounds(b, d, es, r);
    NewStringsResolve(b, d, es, r);
    StringsPlaced(b, d, es, r);
    var out, start, end := Output(b, d, es, r), StringsStart(d), StringsStart(d) + |NewStrings(r)|;
    var at, s := d.strtab + NewEntries(r, d.strsz)[j].val, NewStrings(r);
    LastByteIsNul(r);
    assert out[end - 1] == out[start..end][|s| - 1] == 0;
    assert out[at..end][end - 1 - at] == 0;
  }

  lemma LastByteIsNul(r: Request)
    ensures NewStrings(r)[|NewStrings(r)| - 1] == 0
  {
  }
}
