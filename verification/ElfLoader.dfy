/**
 The output of one rewrite as a loader sees it: headers, located section, and strings resolved
 through the string table.
 */
module ElfLoader {
  import opened Results
  import opened Bytes
  import opened ElfFormat
  import opened ElfRewrite
  import opened ElfFrames
  import opened ElfTheorems

  /** The located section after a rewrite. */
  function SectionAfter(d: DynamicSection, es: seq<Dyn>, r: Request): DynamicSection {
    d.(terminator := d.terminator + DYN_ENTRY_SIZE * EntriesNeeded(r),
       strsz := if Once(es, DT_STRSZ) then NewStrsz(d, r) else d.strsz)
  }

  // ---- headers

  lemma HeadersKept(b: seq<byte>, d: DynamicSection, es: seq<Dyn>, r: Request, limit: nat)
    requires Writable(b, d, es, r) && Separated(b, d, limit)
    requires StringsStart(d) + |NewStrings(r)| <= limit
    ensures PhdrTableOf(Output(b, d, es, r)) == PhdrTableOf(b)
    ensures ProgramHeaders(Output(b, d, es, r)) == ProgramHeaders(b)
    ensures Identified(Output(b, d, es, r)) == Identified(b)
  {
    hide Writable, Output, Same, Identified, ProgramHeaders, PhdrTableOf, FirstIndex, NewStrings;
    WritableBounds(b, d, es, r);
    var out, t := Output(b, d, es, r), PhdrTableOf(b).value;
    var end := t.offset + t.count * t.size;
    RowsNonNegative(t.count, t.size);
    OutputSame(b, d, es, r, 0, EHDR_SIZE);
    OutputSame(b, d, es, r, t.offset, end);
    HeadersSame(b, out, t);
    IdentifiedSame(b, out);
  }

  // ---- the section is found again

  lemma LocateAfter(b: seq<byte>, c: seq<byte>, hs: seq<ProgramHeader>, d: DynamicSection, es: seq<Dyn>, strsz: nat)
    requires Locate(b, hs) == Success(d)
    requires ParseDyn(c, d.offset, d.segmentEnd) == Success(es)
    requires LastValue(es, DT_STRTAB) == LastValue(ParseDyn(b, d.offset, d.segmentEnd).value, DT_STRTAB)
    requires LastValue(es, DT_STRSZ) == Some(strsz)
    ensures Locate(c, hs) == Success(d.(terminator := d.offset + DYN_ENTRY_SIZE * |es|, strsz := strsz))
  {
    hide ParseDyn, LastValue, VaddrToFileOffset, FindDynamic;
  }

  lemma LookupsAfter(d: DynamicSection, es: seq<Dyn>, r: Request)
    requires FirstIndex(es, DT_STRSZ) < |es| && LastValue(es, DT_STRSZ) == Some(d.strsz)
    ensures LastValue(EntriesAfter(d, es, r), DT_STRTAB) == LastValue(es, DT_STRTAB)
    ensures LastValue(EntriesAfter(d, es, r), DT_STRSZ) == Some(SectionAfter(d, es, r).strsz)
  {
    hide LastValue, FirstIndex, NewStrings, NewEntries;
    var k, e, added := FirstIndex(es, DT_STRSZ), Dyn(DT_STRSZ, NewStrsz(d, r)), NewEntries(r, d.strsz);
    FirstIsStrsz(es);
    NoneAdded(r, d.strsz);
    LastValueAppend(es[k := e], added, DT_STRTAB);
    LastValueAppend(es[k := e], added, DT_STRSZ);
    LastValueUpdate(es, k, e, DT_STRTAB);
    LastValueUpdate(es, k, e, DT_STRSZ);
  }

  lemma NoneAdded(r: Request, strsz: nat)
    ensures LastValue(NewEntries(r, strsz), DT_STRTAB).None? && LastValue(NewEntries(r, strsz), DT_STRSZ).None?
  {
    hide NewStrings;
    var added := NewEntries(r, strsz);
    assert LastValue([], DT_STRTAB).None? && LastValue([], DT_STRSZ).None?;
    if |added| == 1 {
      assert added[1..] == [];
    } else {
      assert added[1..][1..] == [];
    }
  }

  /** The uniqueness the code relies on survives a rewrite. */
  lemma OnceAfter(d: DynamicSection, es: seq<Dyn>, r: Request)
    requires Once(es, DT_STRSZ)
    ensures Once(EntriesAfter(d, es, r), DT_STRSZ)
    ensures FirstIndex(EntriesAfter(d, es, r), DT_STRSZ) == FirstIndex(es, DT_STRSZ)
  {
    hide LastValue, NewStrings, NewEntries;
    var k, es', added := FirstIndex(es, DT_STRSZ), EntriesAfter(d, es, r), NewEntries(r, d.strsz);
    assert forall i :: 0 <= i < k ==> es'[i] == es[i];
    assert es'[k].tag == DT_STRSZ;
    FirstIndexIs(es', k);
    assert es'[k + 1..] == es[k + 1..] + added;
    LastValueAppend(es[k + 1..], added, DT_STRSZ);
    NoneAdded(r, d.strsz);
  }

  lemma FirstIndexIs(es: seq<Dyn>, k: nat)
    requires k < |es| && es[k].tag == DT_STRSZ && forall i :: 0 <= i < k ==> es[i].tag != DT_STRSZ
    ensures FirstIndex(es, DT_STRSZ) == k
  {
  }

  lemma SectionFound(b: seq<byte>, d: DynamicSection, es: seq<Dyn>, r: Request, limit: nat)
    requires Located(b, d, es) && Writable(b, d, es, r) && Separated(b, d, limit)
    requires StringsStart(d) + |NewStrings(r)| <= limit
    ensures DynamicOf(Output(b, d, es, r)) == Success(SectionAfter(d, es, r))
    ensures Entries(Output(b, d, es, r)) == EntriesAfter(d, es, r)
  {
    hide Writable, Output, Separated, EntriesAfter, ProgramHeaders, Identified, LastValue, ParseDyn, DynList, Room;
    hide NewStrings, FirstIndex, Locate;
    WritableBounds(b, d, es, r);
    var out, es' := Output(b, d, es, r), EntriesAfter(d, es, r);
    HeadersKept(b, d, es, r, limit);
    OutputEntries(b, d, es, r);
    DynListParses(out, d.offset, d.segmentEnd, es');
    DynListParses(b, d.offset, d.segmentEnd, es);
    LookupsAfter(d, es, r);
    LocateAfter(b, out, ProgramHeaders(b).value, d, es', SectionAfter(d, es, r).strsz);
  }

  lemma SeparatedAfter(b: seq<byte>, d: DynamicSection, es: seq<Dyn>, r: Request, limit: nat)
    requires Writable(b, d, es, r) && Separated(b, d, limit)
    requires StringsStart(d) + |NewStrings(r)| <= limit
    ensures Separated(Output(b, d, es, r), SectionAfter(d, es, r), limit)
  {
    hide Writable, Output, PhdrTableOf, FirstIndex, NewStrings;
    HeadersKept(b, d, es, r, limit);
  }

  /**
   One rewrite, as a loader sees it. On a separated layout, a successful rewrite keeps the program
   headers; the dynamic entries are the old ones with the first DT_STRSZ grown by the appended
   length and the new entries at the end; and the terminator moves by that many slots, still
   inside the segment. The length a reader then uses (the last DT_STRSZ) is the grown one exactly
   when the file has a single DT_STRSZ: the code reads the last one and patches the first.
   */
  lemma RewriteExtendsDynamic(b: seq<byte>, d: DynamicSection, r: Request, limit: nat)
    requires DynamicOf(b) == Success(d) && |b| < U64_SIZE
    requires Separated(b, d, limit) && StringsStart(d) + |NewStrings(r)| <= limit
    requires Rewritten(b, r).Success?
    ensures FirstIndex(Entries(b), DT_STRSZ) < |Entries(b)|
    ensures var out, es := Rewritten(b, r).value, Entries(b);
            && |out| == |b|
            && ProgramHeaders(out) == ProgramHeaders(b)
            && Entries(out) == EntriesAfter(d, es, r)
            && DynamicOf(out) == Success(SectionAfter(d, es, r))
            && d.terminator + DYN_ENTRY_SIZE * (EntriesNeeded(r) + 1) <= d.segmentEnd
            && (DynamicOf(out).value.strsz == NewStrsz(d, r) <==> Once(es, DT_STRSZ))
            && Separated(out, SectionAfter(d, es, r), limit)
  {
    hide Writable, Output, Located, EntriesAfter, ProgramHeaders, Identified, Room, NewStrings, Rewritten;
    hide DynamicOf, Entries, Once, FirstIndex;
    var es := Entries(b);
    LocatedIntro(b, d);
    SeparatedStrings(b, d, r, limit);
    SucceedsIffRoom(b, d, es, r);
    WritableBounds(b, d, es, r);
    HeadersKept(b, d, es, r, limit);
    SectionFound(b, d, es, r, limit);
    SeparatedAfter(b, d, es, r, limit);
    NewStringsNonEmpty(r);
  }

  lemma NewStringsNonEmpty(r: Request)
    ensures |NewStrings(r)| > 0
  {
  }

  lemma SeparatedStrings(b: seq<byte>, d: DynamicSection, r: Request, limit: nat)
    requires Separated(b, d, limit) && StringsStart(d) + |NewStrings(r)| <= limit
    ensures Apart(StringsStart(d), StringsStart(d) + |NewStrings(r)|, d.offset, d.segmentEnd)
  {
    hide NewStrings, PhdrTableOf;
  }

  /**
   The same entries one by one, by their tags: DT_STRSZ (10) grown, DT_NEEDED (1) and DT_RUNPATH
   (29) at the end, every other entry as it was.
   */
  lemma EntriesSpelledOut(b: seq<byte>, d: DynamicSection, r: Request, limit: nat)
    requires DynamicOf(b) == Success(d) && |b| < U64_SIZE
    requires Separated(b, d, limit) && StringsStart(d) + |NewStrings(r)| <= limit
    requires Rewritten(b, r).Success?
    ensures var es, es' := Entries(b), Entries(Rewritten(b, r).value);
            && |es'| == |es| + (if r.rpath.Some? then 2 else 1)
            && (exists k: nat :: k < |es| && es[k].tag == 10 && (forall i :: 0 <= i < k ==> es[i].tag != 10)
                  && es'[k] == Dyn(10, d.strsz + |r.needed| + 1 + if r.rpath.Some? then |r.rpath.value| + 1 else 0)
                  && forall i :: 0 <= i < |es| && i != k ==> es'[i] == es[i])
            && es'[|es|] == Dyn(1, d.strsz)
            && (r.rpath.Some? ==> es'[|es| + 1] == Dyn(0x1d, d.strsz + |r.needed| + 1))
  {
    hide Rewritten, DynamicOf, Entries, Separated, ProgramHeaders, Room, FirstIndex, Once;
    RewriteExtendsDynamic(b, d, r, limit);
    var k := FirstIndex(Entries(b), DT_STRSZ);
    assert Entries(b)[k].tag == 10;
  }

  /**
   A rewrite never writes over a byte that is not zero, save the length it grows and the value word
   of the terminator it turns into an entry.
   */
  lemma NonZeroBytesSurvive(b: seq<byte>, d: DynamicSection, es: seq<Dyn>, r: Request, q: nat)
    requires Writable(b, d, es, r) && q < |b| && b[q] != 0
    requires !(StrszValueOffset(d, es) <= q < StrszValueOffset(d, es) + 8)
    requires !(d.terminator + 8 <= q < d.terminator + 16)
    ensures Output(b, d, es, r)[q] == b[q]
  {
    hide Output, NewStrings, FirstIndex, LE;
    WritableBounds(b, d, es, r);
    WordZero(b, d.terminator);
    OutputSame(b, d, es, r, q, q + 1);
  }

  // ---- strings

  /** The appended strings, as one run of bytes, whatever the order of the three writes. */
  lemma StringsPlaced(b: seq<byte>, d: DynamicSection, es: seq<Dyn>, r: Request)
    requires Writable(b, d, es, r)
    ensures Output(b, d, es, r)[StringsStart(d)..StringsStart(d) + |NewStrings(r)|] == NewStrings(r)
  {
    hide Writable, Overlay, NewStrings, DynBytes, Digits, FirstIndex, NewEntries, Same;
    WritableBounds(b, d, es, r);
    var s, lo, hi := NewStrings(r), StringsStart(d), StringsStart(d) + |NewStrings(r)|;
    var b1 := Overlay(b, lo, s);
    var entries, p := DynBytes(NewEntries(r, d.strsz)), Patched(b, d, r);
    OverlayWhole(b, lo, s);
    OverlaySame(b1, d.terminator, entries, lo, hi);
    SameWindow(b1, p, lo, hi);
    OverlaySame(p, StrszValueOffset(d, es), Digits(NewStrsz(d, r), 8), lo, hi);
    SameWindow(p, Output(b, d, es, r), lo, hi);
  }

  /** Both new entries resolve to the requested names, each exactly when its name is NUL-free. */
  lemma NewStringsResolve(b: seq<byte>, d: DynamicSection, es: seq<Dyn>, r: Request)
    requires Writable(b, d, es, r)
    ensures var out := Output(b, d, es, r);
            && (CString(out, d.strtab + NewEntries(r, d.strsz)[0].val) == r.needed <==> 0 !in r.needed)
            && (r.rpath.Some? ==>
                  (CString(out, d.strtab + NewEntries(r, d.strsz)[1].val) == r.rpath.value <==> 0 !in r.rpath.value))
  {
    hide Writable, Output, FirstIndex, NewStrings, CString;
    WritableBounds(b, d, es, r);
    StringsLayout(r);
    StringsPlaced(b, d, es, r);
    var out, start, n := Output(b, d, es, r), StringsStart(d), |r.needed|;
    NameReads(out, start, NewStrings(r), 0, r.needed);
    if r.rpath.Some? {
      NameReads(out, start, NewStrings(r), n + 1, r.rpath.value);
    }
  }

  lemma StringsLayout(r: Request)
    ensures var s, n := NewStrings(r), |r.needed|;
            && n < |s| && s[0..n] == r.needed && s[n] == 0
            && (r.rpath.Some? ==>
                  n + 1 + |r.rpath.value| < |s| && s[n + 1..n + 1 + |r.rpath.value|] == r.rpath.value
                  && s[n + 1 + |r.rpath.value|] == 0)
  {
  }

  lemma NameReads(out: seq<byte>, start: nat, s: seq<byte>, i: nat, name: seq<byte>)
    requires start + |s| <= |out| && out[start..start + |s|] == s
    requires i + |name| < |s| && s[i..i + |name|] == name && s[i + |name|] == 0
    ensures CString(out, start + i) == name <==> 0 !in name
  {
    if 0 !in name {
      SubSlice(out, start, start + |s|, i, i + |name|);
      assert out[start + i + |name|] == out[start..start + |s|][i + |name|];
      CStringReads(out, start + i, name);
    }
  }

  /** The old string table is untouched. */
  lemma OldTableKept(b: seq<byte>, d: DynamicSection, es: seq<Dyn>, r: Request, limit: nat)
    requires Writable(b, d, es, r) && Separated(b, d, limit)
    requires StringsStart(d) + |NewStrings(r)| <= limit
    ensures StringsStart(d) <= |b| && Output(b, d, es, r)[d.strtab..StringsStart(d)] == b[d.strtab..StringsStart(d)]
  {
    hide Writable, Output, Same, PhdrTableOf, FirstIndex, NewStrings;
    WritableBounds(b, d, es, r);
    OutputSame(b, d, es, r, d.strtab, StringsStart(d));
    SameWindow(b, Output(b, d, es, r), d.strtab, StringsStart(d));
  }

  lemma {:induction false} CStringRuns(b: seq<byte>, at: nat, mid: nat)
    requires at <= mid <= |b| && 0 !in b[at..mid]
    ensures CString(b, at) == b[at..mid] + CString(b, mid)
    decreases mid - at
  {
    if at < mid {
      assert b[at..mid] == [b[at]] + b[at + 1..mid];
      assert b[at] in b[at..mid];
      CStringRuns(b, at + 1, mid);
    } else {
      assert b[at..mid] == [];
    }
  }

  /**
   An old string resolves to the same bytes exactly when its NUL lies inside the old table length;
   a last string that borrowed its NUL from the padding would otherwise run into the new name.
   */
  lemma OldStringsResolve(b: seq<byte>, d: DynamicSection, es: seq<Dyn>, r: Request, limit: nat, at: nat)
    requires Writable(b, d, es, r) && Separated(b, d, limit)
    requires StringsStart(d) + |NewStrings(r)| <= limit
    requires d.strtab <= at <= StringsStart(d) <= |b|
    ensures CString(Output(b, d, es, r), at) == CString(b, at) <==>
            0 in b[at..StringsStart(d)] || NewStrings(r)[0] == 0
  {
    hide Writable, Output, Separated, FirstIndex, NewStrings;
    WritableBounds(b, d, es, r);
    NewStringsNonEmpty(r);
    OldTableKept(b, d, es, r, limit);
    StringsPlaced(b, d, es, r);
    PaddingIsZero(b, d, es, r);
    var out, mid := Output(b, d, es, r), StringsStart(d);
    SubSlice(b, d.strtab, mid, at - d.strtab, mid - d.strtab);
    SubSlice(out, d.strtab, mid, at - d.strtab, mid - d.strtab);
    assert out[mid] == out[mid..mid + |NewStrings(r)|][0];
    OldStringAt(b, out, at, mid, NewStrings(r)[0]);
  }

  lemma OldStringAt(b: seq<byte>, out: seq<byte>, at: nat, mid: nat, first: byte)
    requires at <= mid < |b| == |out| && b[at..mid] == out[at..mid]
    requires b[mid] == 0 && out[mid] == first
    ensures CString(out, at) == CString(b, at) <==> 0 in b[at..mid] || first == 0
  {
    if 0 in b[at..mid] {
      CStringFrame(b, out, at, mid);
    } else {
      CStringRuns(b, at, mid);
      CStringRuns(out, at, mid);
      assert CString(b, mid) == [];
      assert CString(out, mid) == [] <==> first == 0;
      assert |CString(out, at)| == |out[at..mid]| + |CString(out, mid)|;
    }
  }

  lemma PaddingIsZero(b: seq<byte>, d: DynamicSection, es: seq<Dyn>, r: Request)
    requires Writable(b, d, es, r)
    ensures StringsStart(d) < |b| && b[StringsStart(d)] == 0
  {
    hide DynList, FirstIndex, NewStrings;
    NewStringsNonEmpty(r);
  }
}
