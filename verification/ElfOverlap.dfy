/**
 Layouts the rewriter does not check for. When the padding after the string table runs into the
 dynamic array, the new strings can overwrite the tag that the closing loop looks for.
 */
module ElfOverlap {
  import opened Results
  import opened Bytes
  import opened ElfFormat
  import opened ElfRewrite
  import opened ElfFrames
  import opened ElfTheorems
  import opened ElfLookup

  /** Where the closing loop ends: the first slot whose tag is DT_STRSZ or DT_NULL. */
  function StopsAt(b: seq<byte>, off: nat): (r: Result<nat, RewriteError>)
    ensures r.Success? ==> off <= r.value && r.value + 8 <= |b|
    ensures r.Failure? ==> r.error != Panic
    decreases |b| - off
  {
    var tag :- ReadLE(b, off, 8);
    if tag == DT_STRSZ || tag == DT_NULL then Success(off) else StopsAt(b, off + DYN_ENTRY_SIZE)
  }

  /** The loop's result, from where it ends: it panics on a DT_STRSZ cut off by the end of the file. */
  lemma {:induction false} FixUpFollows(b: seq<byte>, off: nat, strsz: nat)
    ensures FixUp(b, off, strsz) ==
            match StopsAt(b, off)
            case Failure(e) => Failure(e)
            case Success(o) =>
              if LE(b[o..o + 8]) != DT_STRSZ then Success(b)
              else if o + DYN_ENTRY_SIZE > |b| then Failure(Panic)
              else Success(Overlay(b, o + 8, Digits(strsz, 8)))
    decreases |b| - off
  {
    hide LE, Digits, Overlay;
    if ReadLE(b, off, 8).Success? {
      FixUpFollows(b, off + DYN_ENTRY_SIZE, strsz);
    }
  }

  function StrszSlot(d: DynamicSection, es: seq<Dyn>): nat {
    d.offset + DYN_ENTRY_SIZE * FirstIndex(es, DT_STRSZ)
  }

  /** The byte the new strings put at a place in the file; zero where they do not reach. */
  function StringByte(d: DynamicSection, r: Request, q: nat): byte {
    if StringsStart(d) <= q < StringsStart(d) + |NewStrings(r)| then NewStrings(r)[q - StringsStart(d)] else 0
  }

  /** The new strings put nothing but zeros on the tag of the first DT_STRSZ, if they reach it at all. */
  predicate TagKept(d: DynamicSection, es: seq<Dyn>, r: Request) {
    forall q :: StrszSlot(d, es) <= q < StrszSlot(d, es) + 8 ==> StringByte(d, r, q) == 0
  }

  // ---- tags under the strings

  /** What bytes have become of a word whose zero bytes may have been overwritten. */
  ghost predicate Grown(w: seq<byte>, w': seq<byte>) {
    |w| == |w'| && forall i :: 0 <= i < |w| ==> w[i] == 0 || w'[i] == w[i]
  }

  /** Such a word cannot become DT_NULL, and becomes DT_STRSZ only if it was that already. */
  lemma GrownTag(w: seq<byte>, w': seq<byte>)
    requires Grown(w, w') && |w| == 8 && LE(w) != DT_NULL
    ensures LE(w') != DT_NULL
    ensures LE(w') == DT_STRSZ ==> LE(w) == DT_STRSZ
  {
    if LE(w') == DT_NULL {
      ZerosOfLE(w');
      LEOfZeros(w);
    } else if LE(w') == DT_STRSZ {
      ZerosOfLE(w'[1..]);
      assert forall i :: 1 <= i < |w| ==> w'[i] == w'[1..][i - 1];
      LEOfZeros(w[1..]);
    }
  }

  /** A grown DT_STRSZ is still one exactly if every byte is. */
  lemma GrownStrsz(w: seq<byte>, w': seq<byte>)
    requires |w| == |w'| == 8 && LE(w) == DT_STRSZ
    ensures LE(w') == DT_STRSZ <==> w == w'
    ensures w[0] == DT_STRSZ && forall i :: 1 <= i < 8 ==> w[i] == 0
  {
    StrszBytes(w);
    if LE(w') == DT_STRSZ {
      StrszBytes(w');
    }
  }

  lemma StrszBytes(w: seq<byte>)
    requires |w| == 8 && LE(w) == DT_STRSZ
    ensures w[0] == DT_STRSZ && forall i :: 1 <= i < 8 ==> w[i] == 0
  {
    ZerosOfLE(w[1..]);
    assert forall i :: 1 <= i < |w| ==> w[i] == w[1..][i - 1];
  }

  /** A byte of the present entries once strings and entries are in place. */
  lemma PatchedByte(b: seq<byte>, d: DynamicSection, r: Request, q: nat)
    requires Room(b, d, EntriesNeeded(r), |NewStrings(r)|) && q < d.terminator
    requires d.terminator + DYN_ENTRY_SIZE * EntriesNeeded(r) <= |b|
    ensures StringsStart(d) + |NewStrings(r)| <= |b|
    ensures Patched(b, d, r)[q] == if StringByte(d, r, q) != 0 then StringByte(d, r, q) else b[q]
    ensures StringByte(d, r, q) != 0 ==> b[q] == 0
  {
    hide NewStrings, DynBytes, NewEntries;
  }

  lemma RoomBounds(b: seq<byte>, d: DynamicSection, es: seq<Dyn>, r: Request)
    requires Located(b, d, es) && Room(b, d, EntriesNeeded(r), |NewStrings(r)|)
    ensures |b| < U64_SIZE && DynamicOf(b) == Success(d) && DynList(b, d.offset, d.segmentEnd, es)
    ensures d.terminator == d.offset + DYN_ENTRY_SIZE * |es| && FirstIndex(es, DT_STRSZ) < |es|
    ensures StringsStart(d) + |NewStrings(r)| <= |b|
    ensures d.terminator + DYN_ENTRY_SIZE * (EntriesNeeded(r) + 1) <= |b|
  {
    hide LE, NewStrings;
  }

  lemma PatchedTag(b: seq<byte>, d: DynamicSection, es: seq<Dyn>, r: Request, i: nat)
    requires Located(b, d, es) && Room(b, d, EntriesNeeded(r), |NewStrings(r)|) && i < |es|
    ensures StringsStart(d) + |NewStrings(r)| <= |b| && d.terminator + DYN_ENTRY_SIZE * EntriesNeeded(r) <= |b|
    ensures var p, off := Patched(b, d, r), d.offset + DYN_ENTRY_SIZE * i;
            && off + DYN_ENTRY_SIZE <= |b|
            && LE(b[off..off + 8]) == es[i].tag != DT_NULL && Grown(b[off..off + 8], p[off..off + 8])
  {
    hide LE, Located, Room, NewStrings, Patched, FirstIndex, StringByte;
    RoomBounds(b, d, es, r);
    var p, off := Patched(b, d, r), d.offset + DYN_ENTRY_SIZE * i;
    assert DynAt(b, off) == es[i];
    var w, w' := b[off..off + 8], p[off..off + 8];
    forall j | 0 <= j < 8
      ensures w[j] == 0 || w'[j] == w[j]
    {
      PatchedByte(b, d, r, off + j);
    }
  }

  // ---- where the loop ends

  /** Slots with other tags are passed. */
  lemma {:induction false} PassesSlots(p: seq<byte>, off: nat, k: nat)
    requires off + DYN_ENTRY_SIZE * k <= |p| < U64_SIZE
    requires forall i :: 0 <= i < k ==> Passed(p, off, i)
    ensures StopsAt(p, off) == StopsAt(p, off + DYN_ENTRY_SIZE * k)
    decreases k
  {
    hide LE, StopsAt;
    if k > 0 {
      assert Passed(p, off, 0);
      PassesOne(p, off);
      var next := off + DYN_ENTRY_SIZE;
      forall i | 0 <= i < k - 1
        ensures Passed(p, next, i)
      {
        assert Passed(p, off, i + 1);
      }
      PassesSlots(p, next, k - 1);
    }
  }

  /** The tag in slot `i` is one the loop goes past. */
  predicate Passed(p: seq<byte>, off: nat, i: nat) {
    var slot := off + DYN_ENTRY_SIZE * i;
    slot + 8 <= |p| && LE(p[slot..slot + 8]) !in {DT_STRSZ, DT_NULL}
  }

  lemma PassesOne(p: seq<byte>, off: nat)
    requires Passed(p, off, 0) && |p| < U64_SIZE
    ensures StopsAt(p, off) == StopsAt(p, off + DYN_ENTRY_SIZE)
  {
    hide LE;
  }

  lemma StopsHere(p: seq<byte>, off: nat)
    requires off + 8 <= |p| < U64_SIZE && LE(p[off..off + 8]) != DT_NULL
    ensures StopsAt(p, off) == Success(off) <==> LE(p[off..off + 8]) == DT_STRSZ
  {
    hide LE;
  }

  /**
   On every layout, separated or not, on which the checks pass: the closing loop ends on the
   original DT_STRSZ slot exactly when the new strings leave that slot's tag alone, and then the
   rewrite succeeds.
   */
  lemma ClosingLoopStopsIff(b: seq<byte>, d: DynamicSection, es: seq<Dyn>, r: Request)
    requires Located(b, d, es) && Room(b, d, EntriesNeeded(r), |NewStrings(r)|)
    ensures StringsStart(d) + |NewStrings(r)| <= |b| && d.terminator + DYN_ENTRY_SIZE * EntriesNeeded(r) <= |b|
    ensures StrszValueOffset(d, es) + 8 <= |b|
    ensures StopsAt(Patched(b, d, r), d.offset) == Success(StrszSlot(d, es)) <==> TagKept(d, es, r)
    ensures TagKept(d, es, r) ==> Rewritten(b, r) == Success(Output(b, d, es, r))
  {
    hide LE, Located, Room, NewStrings, Patched, FirstIndex, StopsAt, TagKept, Grown, Overlay, Digits, FixUp;
    hide RewrittenAt, DynamicOf, StringByte;
    RoomBounds(b, d, es, r);
    var p, k, slot := Patched(b, d, r), FirstIndex(es, DT_STRSZ), StrszSlot(d, es);
    forall i | 0 <= i < k
      ensures Passed(p, d.offset, i)
    {
      var off := d.offset + DYN_ENTRY_SIZE * i;
      PatchedTag(b, d, es, r, i);
      GrownTag(b[off..off + 8], p[off..off + 8]);
      NotYetStrsz(es, i);
    }
    PassesSlots(p, d.offset, k);
    PatchedTag(b, d, es, r, k);
    GrownTag(b[slot..slot + 8], p[slot..slot + 8]);
    StopsHere(p, slot);
    TagKeptIff(b, d, es, r);
    FixUpFollows(p, d.offset, NewStrsz(d, r));
    ChecksAreRoom(b, d, r);
  }

  lemma NotYetStrsz(es: seq<Dyn>, i: nat)
    requires i < FirstIndex(es, DT_STRSZ)
    ensures i < |es| && es[i].tag != DT_STRSZ
  {
  }

  lemma TagKeptIff(b: seq<byte>, d: DynamicSection, es: seq<Dyn>, r: Request)
    requires Located(b, d, es) && Room(b, d, EntriesNeeded(r), |NewStrings(r)|)
    ensures StringsStart(d) + |NewStrings(r)| <= |b| && d.terminator + DYN_ENTRY_SIZE * EntriesNeeded(r) <= |b|
    ensures var p, slot := Patched(b, d, r), StrszSlot(d, es);
            slot + 8 <= |b| && (LE(p[slot..slot + 8]) == DT_STRSZ <==> TagKept(d, es, r))
  {
    hide LE, Located, Room, NewStrings, Patched, Grown, FirstIndex, StringByte;
    RoomBounds(b, d, es, r);
    var p, k, slot := Patched(b, d, r), FirstIndex(es, DT_STRSZ), StrszSlot(d, es);
    PatchedTag(b, d, es, r, k);
    FirstIsStrsz(es);
    var w, w' := b[slot..slot + 8], p[slot..slot + 8];
    GrownStrsz(w, w');
    forall q | slot <= q < slot + 8
      ensures p[q] == if StringByte(d, r, q) != 0 then StringByte(d, r, q) else b[q]
      ensures StringByte(d, r, q) != 0 ==> b[q] == 0
    {
      PatchedByte(b, d, r, q);
    }
    if w == w' {
      forall q | slot <= q < slot + 8
        ensures StringByte(d, r, q) == 0
      {
        assert w[q - slot] == w'[q - slot];
      }
    }
  }

  // ---- when the rewrite panics

  /**
   When a rewrite indexes past the buffer: exactly when all checks pass and the loop, sent astray,
   takes the last bytes of the file for the tag DT_STRSZ. The original tag is then overwritten.
   */
  lemma PanicsExactly(b: seq<byte>, r: Request)
    requires |b| < U64_SIZE
    ensures Rewritten(b, r) == Failure(Panic) <==>
            && DynamicOf(b).Success?
            && var d := DynamicOf(b).value;
               && Room(b, d, EntriesNeeded(r), |NewStrings(r)|)
               && d.terminator + DYN_ENTRY_SIZE * EntriesNeeded(r) <= |b|
               && var p, stop := Patched(b, d, r), StopsAt(Patched(b, d, r), d.offset);
                  && stop.Success? && LE(p[stop.value..stop.value + 8]) == DT_STRSZ
                  && stop.value + DYN_ENTRY_SIZE > |b|
    ensures Rewritten(b, r) == Failure(Panic) ==>
              !TagKept(DynamicOf(b).value, Entries(b), r)
  {
    hide LE, Room, NewStrings, Patched, StopsAt, TagKept, FixUp, RewrittenAt, DynamicOf, Entries, Located, Overlay;
    hide Digits, FirstIndex;
    LocatingNeverPanics(b);
    if DynamicOf(b).Success? {
      var d := DynamicOf(b).value;
      LocatedIntro(b, d);
      ChecksNeverPanic(b, d, r);
      ChecksAreRoom(b, d, r);
      if Room(b, d, EntriesNeeded(r), |NewStrings(r)|) {
        RoomBounds(b, d, Entries(b), r);
        FixUpFollows(Patched(b, d, r), d.offset, NewStrsz(d, r));
        ClosingLoopStopsIff(b, d, Entries(b), r);
      }
    }
  }

  lemma ChecksNeverPanic(b: seq<byte>, d: DynamicSection, r: Request)
    requires |b| < U64_SIZE
    ensures !Room(b, d, EntriesNeeded(r), |NewStrings(r)|) ==> RewrittenAt(b, d, r) != Failure(Panic)
  {
    hide FixUp, CheckSlots, NewStrings, Patched;
    NeededFits(r);
    CheckSlotsIsZero(b, d.terminator + DYN_ENTRY_SIZE, EntriesNeeded(r));
    SlotCheckKinds(b, d.terminator + DYN_ENTRY_SIZE, EntriesNeeded(r));
  }

  lemma LocatingNeverPanics(b: seq<byte>)
    ensures DynamicOf(b) != Failure(Panic)
  {
    hide LE, ProgramHeaders, Locate, Identified;
    if ProgramHeaders(b).Failure? {
      HeaderErrors(b);
    } else {
      LocateErrors(b, ProgramHeaders(b).value);
    }
  }
}
