/** Installing a mapping: writing one page-table entry in paged memory and translating through it. */
module PageInstall {
  import opened Results
  import opened Bytes
  import opened GuestMemory
  import opened GuestRuns
  import opened PageTable

  function PagesReader(pages: Pages): Reader {
    (a: nat, w: AccessWidth) => PagesRead(pages, a, w)
  }

  lemma PagesRespectWidths(pages: Pages)
    ensures RespectsWidths(PagesReader(pages))
  {
    hide LE, Pow256;
    forall a: nat, w | PagesReader(pages)(a, w).Success? && WidthBytes(w).Some?
      ensures PagesReader(pages)(a, w).value < Pow256(WidthBytes(w).value)
    {
      LEBound(Window(FlatOf(pages), a, WidthBytes(w).value));
    }
  }

  /** A 2-level table of 64 KiB pages over paged memory, as `SharedPageTable::new` makes it. */
  function TableOver(pages: Pages, tableVaddr: nat, securityVaddr: nat, pteBits: nat): SharedPageTable {
    SharedPageTable(PagesReader(pages), tableVaddr, securityVaddr, 16, 2, pteBits)
  }

  function EntryAddr(tableVaddr: nat, page: nat, size: nat): nat {
    Wrap(tableVaddr + page * size)
  }

  lemma ReadsAgree(f: Flat, g: Flat, addr: nat, n: nat)
    requires Agree(f, g)
    ensures FlatRead(f, addr, n) == FlatRead(g, addr, n)
  {
    hide LE, Nth;
    forall i | 0 <= i < n
      ensures Window(f, addr, n)[i] == Window(g, addr, n)[i]
    {
      assert f(Nth(addr, i)) == g(Nth(addr, i));
    }
    assert Window(f, addr, n) == Window(g, addr, n);
  }

  /** Entries of different pages share no byte, even when the table wraps. */
  lemma EntriesApart(tableVaddr: nat, p: nat, q: nat, size: nat)
    requires size == 4 || size == 8
    requires tableVaddr < U64_SIZE && p != q && p < 0x1_0000_0000_0000 && q < 0x1_0000_0000_0000
    ensures forall i :: 0 <= i < size ==>
              Outside(Nth(EntryAddr(tableVaddr, q, size), i), EntryAddr(tableVaddr, p, size), size)
  {
    hide Wrap, Nth;
    ScaledApart(p, q, size);
    forall i | 0 <= i < size
      ensures Outside(Nth(EntryAddr(tableVaddr, q, size), i), EntryAddr(tableVaddr, p, size), size)
    {
      EntryDistance(tableVaddr, p * size, q * size, i);
      DistanceLeast(p * size, q * size, i, size);
    }
  }

  lemma ScaledApart(p: nat, q: nat, size: nat)
    requires size == 4 || size == 8
    requires p != q && p < 0x1_0000_0000_0000 && q < 0x1_0000_0000_0000
    ensures p * size < 0x8_0000_0000_0000 && q * size < 0x8_0000_0000_0000
    ensures q * size >= p * size + size || p * size >= q * size + size
  {
    if size == 4 {
    } else {
    }
  }

  lemma EntryDistance(table: nat, x: nat, y: nat, i: nat)
    ensures Wrap(Nth(Wrap(table + y), i) - Wrap(table + x)) == Wrap(y + i - x)
  {
    var p, q := (table + y) / U64_SIZE, (table + x) / U64_SIZE;
    var s := (Wrap(table + y) + i) / U64_SIZE;
    assert Wrap(table + y) == table + y - U64_SIZE * p && Wrap(table + x) == table + x - U64_SIZE * q;
    assert Nth(Wrap(table + y), i) == Wrap(table + y) + i - U64_SIZE * s;
    WrapTurns(y + i - x, q - p - s);
  }

  lemma WrapTurns(a: int, k: int)
    ensures Wrap(a + U64_SIZE * k) == Wrap(a)
  {
    DivUnique(a + U64_SIZE * k, U64_SIZE, a / U64_SIZE + k, a % U64_SIZE);
  }

  lemma DistanceLeast(x: nat, y: nat, i: nat, size: nat)
    requires x < 0x8_0000_0000_0000 && y < 0x8_0000_0000_0000 && i < size <= 8
    requires y >= x + size || x >= y + size
    ensures Wrap(y + i - x) >= size
  {
  }

  /** After storing an entry: it reads back, and the entry of any other page reads as before. */
  lemma EntryReads(pages: Pages, pages': Pages, tableVaddr: nat, p: nat, size: nat, pte: nat)
    requires size == 4 || size == 8
    requires tableVaddr < U64_SIZE && p < 0x1_0000_0000_0000 && pte < Pow256(size)
    requires Holds(pages', FlatWrite(FlatOf(pages), EntryAddr(tableVaddr, p, size), size, pte))
    ensures FlatRead(FlatOf(pages'), EntryAddr(tableVaddr, p, size), size) == pte
    ensures forall q: nat :: q < 0x1_0000_0000_0000 && q != p ==>
              FlatRead(FlatOf(pages'), EntryAddr(tableVaddr, q, size), size) ==
              FlatRead(FlatOf(pages), EntryAddr(tableVaddr, q, size), size)
  {
    hide FlatRead, EntryAddr, Pow256, Outside, ByteAt;
    var f, at := FlatOf(pages), EntryAddr(tableVaddr, p, size);
    var g := FlatWrite(f, at, size, pte);
    EntryAddrFits(tableVaddr, p, size);
    assert Agree(FlatOf(pages'), g) by {
      hide FlatWrite;
    }
    ReadsAgree(FlatOf(pages'), g, at, size);
    ReadBack(f, at, size, pte);
    forall q: nat | q < 0x1_0000_0000_0000 && q != p
      ensures FlatRead(FlatOf(pages'), EntryAddr(tableVaddr, q, size), size) ==
              FlatRead(f, EntryAddr(tableVaddr, q, size), size)
    {
      EntriesApart(tableVaddr, p, q, size);
      ReadsAgree(FlatOf(pages'), g, EntryAddr(tableVaddr, q, size), size);
      ReadApart(f, at, size, pte, EntryAddr(tableVaddr, q, size), size);
    }
  }

  /** An access of `n` bytes at `a` shares nothing with one of `m` bytes at `at`. */
  ghost predicate WindowApart(a: nat, n: nat, at: nat, m: nat) {
    forall i: nat :: i < n ==> Outside(Nth(a, i), at, m)
  }

  lemma EntryAddrFits(tableVaddr: nat, p: nat, size: nat)
    ensures EntryAddr(tableVaddr, p, size) < U64_SIZE
  {
  }

  /** A 64-bit, 2-level translation over paged memory, in closed form: it never faults. */
  lemma TranslateOver64(pages: Pages, tableVaddr: nat, securityVaddr: nat, v: nat)
    requires tableVaddr < U64_SIZE && securityVaddr < U64_SIZE && v < U64_SIZE
    ensures Pow2(16) == 0x1_0000 && Sound(TableOver(pages, tableVaddr, securityVaddr, 64))
    ensures Translate(TableOver(pages, tableVaddr, securityVaddr, 64), v) ==
            Success(FlatRead(FlatOf(pages), EntryAddr(tableVaddr, v / 0x1_0000, 8), 8) / 0x1_0000 * 0x1_0000
                    + v % 0x1_0000)
  {
    hide Pow2, FlatRead, RespectsWidths, PhysicalPage, Shl;
    Pow2Values();
    PagesRespectWidths(pages);
    var t := TableOver(pages, tableVaddr, securityVaddr, 64);
    var pointer := FlatRead(FlatOf(pages), EntryAddr(tableVaddr, v / 0x1_0000, 8), 8);
    assert ReadPte(t, EntryAddr(tableVaddr, v / 0x1_0000, 8)) == Success(pointer);
    SecurityTopIsZero(pointer, ReadSecurity(t, pointer % 0x1_0000).value);
    ShortShift(pointer / 0x1_0000);
  }

  /**
   Installing a mapping works and is local. Writing `f << 16 | sec` at page `p`'s 64-bit entry maps
   every address of page `p` into frame `f`, and changes the translation of no other address; the
   table may wrap, and its entry may even overlap the security directory.
   */
  lemma InstallMapping(
    pages: Pages, pages': Pages, tableVaddr: nat, securityVaddr: nat, p: nat, f: nat, sec: nat, v: nat)
    requires tableVaddr < U64_SIZE && securityVaddr < U64_SIZE && v < U64_SIZE
    requires p < 0x1_0000_0000_0000 && f < 0x1_0000_0000_0000 && sec < 0x1_0000
    requires PagedStep(pages, Store(EntryAddr(tableVaddr, p, 8), W64, f * 0x1_0000 + sec), pages', Done)
    ensures Sound(TableOver(pages, tableVaddr, securityVaddr, 64))
    ensures Sound(TableOver(pages', tableVaddr, securityVaddr, 64))
    ensures Pow2(16) == 0x1_0000
    ensures Translate(TableOver(pages', tableVaddr, securityVaddr, 64), v) ==
            if v / 0x1_0000 == p then Success(f * 0x1_0000 + v % 0x1_0000)
            else Translate(TableOver(pages, tableVaddr, securityVaddr, 64), v)
  {
    hide FlatRead, EntryAddr, Pow2, Translate, FlatWrite, Sound, Holds;
    Pow256Values();
    EntryReads(pages, pages', tableVaddr, p, 8, f * 0x1_0000 + sec);
    TranslateOver64(pages', tableVaddr, securityVaddr, v);
    TranslateOver64(pages, tableVaddr, securityVaddr, v);
  }

  /** A 32-bit, 2-level translation over paged memory, in closed form. */
  lemma TranslateOver32(pages: Pages, tableVaddr: nat, securityVaddr: nat, v: nat)
    requires tableVaddr < U64_SIZE && securityVaddr < U64_SIZE && v < U64_SIZE
    ensures Pow2(16) == 0x1_0000 && Sound(TableOver(pages, tableVaddr, securityVaddr, 32))
    ensures var pointer := FlatRead(FlatOf(pages), EntryAddr(tableVaddr, v / 0x1_0000, 4), 4);
            Translate(TableOver(pages, tableVaddr, securityVaddr, 32), v) ==
            Success((SecurityTop(pages, securityVaddr, pointer % 0x100) * 0x100_0000 + pointer / 0x100) * 0x1_0000
                    + v % 0x1_0000)
  {
    hide Pow2, FlatRead, RespectsWidths, FromEntry, SecurityTop, PagesReader;
    Pow2Values();
    PagesRespectWidths(pages);
    var t := TableOver(pages, tableVaddr, securityVaddr, 32);
    var at := EntryAddr(tableVaddr, v / 0x1_0000, 4);
    FromEntry32(pages, t, at, v % 0x1_0000);
  }

  lemma FromEntry32(pages: Pages, t: SharedPageTable, at: nat, offset: nat)
    requires RespectsWidths(t.read) && t == TableOver(pages, t.tableVaddr, t.securityVaddr, 32)
    ensures var pointer := FlatRead(FlatOf(pages), at, 4);
            FromEntry(t, at, offset) ==
            Success((SecurityTop(pages, t.securityVaddr, pointer % 0x100) * 0x100_0000 + pointer / 0x100) * 0x1_0000
                    + offset)
  {
    hide Pow2, FlatRead, RespectsWidths, Shl;
    Pow2Values();
    var pointer := FlatRead(FlatOf(pages), at, 4);
    var security := FlatRead(FlatOf(pages), SecurityAddr(t.securityVaddr, pointer % 0x100), 4);
    assert ReadPte(t, at) == Success(pointer);
    assert ReadSecurity(t, pointer % 0x100) == Success(security);
    ShortShift(security / 0x100_0000 * 0x100_0000 + pointer / 0x100);
  }

  lemma ShortShift(x: nat)
    requires x < 0x1_0000_0000_0000
    ensures Shl(x, 16) == x * 0x1_0000
  {
    hide Pow2;
    Pow2Values();
  }

  function SecurityAddr(securityVaddr: nat, index: nat): nat {
    Wrap(securityVaddr + index * 4)
  }

  /** The top byte of a security entry: the top eight bits of a 32-bit physical page number. */
  function SecurityTop(pages: Pages, securityVaddr: nat, index: nat): nat {
    FlatRead(FlatOf(pages), SecurityAddr(securityVaddr, index), 4) / 0x100_0000
  }

  /**
   With 32-bit entries the directory does count. A mapping is then installed, and is local, as long
   as the entry written is apart from the directory's 256 entries.
   */
  lemma InstallMapping32(
    pages: Pages, pages': Pages, tableVaddr: nat, securityVaddr: nat, p: nat, f: nat, sec: nat, v: nat)
    requires tableVaddr < U64_SIZE && securityVaddr < U64_SIZE && v < U64_SIZE
    requires p < 0x1_0000_0000_0000 && f < 0x100_0000 && sec < 0x100
    requires PagedStep(pages, Store(EntryAddr(tableVaddr, p, 4), W32, f * 0x100 + sec), pages', Done)
    requires forall j: nat :: j < 0x100 ==>
               WindowApart(SecurityAddr(securityVaddr, j), 4, EntryAddr(tableVaddr, p, 4), 4)
    ensures Sound(TableOver(pages, tableVaddr, securityVaddr, 32))
    ensures Sound(TableOver(pages', tableVaddr, securityVaddr, 32))
    ensures Pow2(16) == 0x1_0000
    ensures Translate(TableOver(pages', tableVaddr, securityVaddr, 32), v) ==
            if v / 0x1_0000 == p
            then Success((SecurityTop(pages, securityVaddr, sec) * 0x100_0000 + f) * 0x1_0000 + v % 0x1_0000)
            else Translate(TableOver(pages, tableVaddr, securityVaddr, 32), v)
  {
    hide FlatRead, EntryAddr, Pow2, Translate, FlatWrite, Sound, Holds, SecurityTop, SecurityAddr, WindowApart;
    hide TableOver, FlatOf;
    Pow256Values();
    EntryReads(pages, pages', tableVaddr, p, 4, f * 0x100 + sec);
    TranslateOver32(pages', tableVaddr, securityVaddr, v);
    TranslateOver32(pages, tableVaddr, securityVaddr, v);
    var pointer := FlatRead(FlatOf(pages'), EntryAddr(tableVaddr, v / 0x1_0000, 4), 4);
    assert v / 0x1_0000 == p ==> pointer % 0x100 == sec && pointer / 0x100 == f;
    DirectoryKept(pages, pages', EntryAddr(tableVaddr, p, 4), f * 0x100 + sec, securityVaddr, pointer % 0x100);
  }

  lemma DirectoryKept(pages: Pages, pages': Pages, at: nat, pte: nat, securityVaddr: nat, j: nat)
    requires PagedStep(pages, Store(at, W32, pte), pages', Done) && j < 0x100
    requires WindowApart(SecurityAddr(securityVaddr, j), 4, at, 4)
    ensures SecurityTop(pages', securityVaddr, j) == SecurityTop(pages, securityVaddr, j)
  {
    hide FlatRead, FlatWrite, Outside;
    var g := FlatWrite(FlatOf(pages), at, 4, pte);
    assert Agree(FlatOf(pages'), g);
    ReadsAgree(FlatOf(pages'), g, SecurityAddr(securityVaddr, j), 4);
    ReadApart(FlatOf(pages), at, 4, pte, SecurityAddr(securityVaddr, j), 4);
  }

  // ---- three levels

  /** A 3-level table over paged memory, with 64-bit entries. */
  function TreeOver(pages: Pages, tableVaddr: nat, securityVaddr: nat): SharedPageTable {
    TableOver(pages, tableVaddr, securityVaddr, 64).(levels := 3)
  }

  /** The 64-bit entry at a place. */
  function Entry(pages: Pages, at: nat): nat {
    FlatRead(FlatOf(pages), at, 8)
  }

  /** Where the walk reads at each level. */
  function TopPlace(tableVaddr: nat, v: nat): nat {
    EntryAddr(tableVaddr, v / 0x1_0000_0000_0000 % 0x1_0000, 8)
  }

  function MiddlePlace(l2: nat, v: nat): nat {
    EntryAddr(l2, v / 0x1_0000_0000 % 0x1_0000, 8)
  }

  function LeafPlace(l1: nat, v: nat): nat {
    EntryAddr(l1, v / 0x1_0000 % 0x1_0000, 8)
  }

  /** A 3-level translation over paged memory from three entries; it never faults. */
  lemma TranslateTree(pages: Pages, tableVaddr: nat, securityVaddr: nat, v: nat, l2: nat, l1: nat, pointer: nat)
    requires tableVaddr < U64_SIZE && securityVaddr < U64_SIZE && v < U64_SIZE
    requires Entry(pages, TopPlace(tableVaddr, v)) == l2 && Entry(pages, MiddlePlace(l2, v)) == l1
    requires Entry(pages, LeafPlace(l1, v)) == pointer
    ensures Pow2(16) == 0x1_0000 && Sound(TreeOver(pages, tableVaddr, securityVaddr))
    ensures Translate(TreeOver(pages, tableVaddr, securityVaddr), v) ==
            Success(pointer / 0x1_0000 * 0x1_0000 + v % 0x1_0000)
  {
    hide Pow2, FlatRead, RespectsWidths, Translate3, EntryRead, TableOver, Entry, PagesRead;
    Pow2Values();
    var t := TreeOver(pages, tableVaddr, securityVaddr);
    TreeFields(pages, tableVaddr, securityVaddr);
    TreeReads(pages, t, tableVaddr, v / 0x1_0000_0000_0000 % 0x1_0000);
    TreeReads(pages, t, l2, v / 0x1_0000_0000 % 0x1_0000);
    TreeReads(pages, t, l1, v / 0x1_0000 % 0x1_0000);
    EntryBound(pages, LeafPlace(l1, v));
    var security := FlatRead(FlatOf(pages), Wrap(securityVaddr + pointer % 0x1_0000 * 4), 4);
    DirectoryRead(pages, (securityVaddr + pointer % 0x1_0000 * 4) % 0x1_0000_0000_0000_0000);
    ThreeLevelWalk(t, v, l2, l1, pointer, security);
    ShlIs(pointer / 0x1_0000, 16);
    ShortShift(pointer / 0x1_0000);
  }

  lemma TreeFields(pages: Pages, tableVaddr: nat, securityVaddr: nat)
    requires tableVaddr < U64_SIZE && securityVaddr < U64_SIZE
    ensures var t := TreeOver(pages, tableVaddr, securityVaddr);
            && Sound(t) && t.read == PagesReader(pages) && t.levels == 3 && t.pteBits == 64 && t.pageSizeLog2 == 16
            && t.tableVaddr == tableVaddr && t.securityVaddr == securityVaddr
  {
    hide RespectsWidths;
    PagesRespectWidths(pages);
  }

  lemma TreeReads(pages: Pages, t: SharedPageTable, table: nat, index: nat)
    requires t.read == PagesReader(pages) && t.pteBits == 64
    ensures EntryRead(t, table, index) == Success(Entry(pages, EntryAddr(table, index, 8)))
  {
    hide FlatRead;
  }

  lemma DirectoryRead(pages: Pages, at: nat)
    ensures PagesReader(pages)(at, W32) == Success(FlatRead(FlatOf(pages), at, 4))
  {
    hide FlatRead;
  }

  lemma EntryBound(pages: Pages, at: nat)
    ensures Entry(pages, at) < U64_SIZE
  {
    hide LE, Window;
    LE64Bound(Window(FlatOf(pages), at, 8));
  }

  /** A stored entry reads back, and entries apart from it are as before. */
  lemma StoreEntry(pages: Pages, pages': Pages, at: nat, pte: nat)
    requires at < U64_SIZE && pte < U64_SIZE
    requires PagedStep(pages, Store(at, W64, pte), pages', Done)
    ensures Entry(pages', at) == pte
    ensures forall a: nat :: WindowApart(a, 8, at, 8) ==> Entry(pages', a) == Entry(pages, a)
  {
    hide FlatRead, FlatWrite, Outside, Pow256;
    Pow256Values();
    var f := FlatOf(pages);
    var g := FlatWrite(f, at, 8, pte);
    assert Agree(FlatOf(pages'), g);
    ReadsAgree(FlatOf(pages'), g, at, 8);
    ReadBack(f, at, 8, pte);
    forall a: nat | WindowApart(a, 8, at, 8)
      ensures Entry(pages', a) == Entry(pages, a)
    {
      ReadsAgree(FlatOf(pages'), g, a, 8);
      ReadApart(f, at, 8, pte, a, 8);
    }
  }

  /**
   Installing a mapping in three levels: storing the top, the middle and the leaf entry, at places
   that do not overlap, maps every address of the page into the frame.
   */
  lemma InstallThreeLevels(
    s0: Pages, s1: Pages, s2: Pages, s3: Pages, tableVaddr: nat, securityVaddr: nat,
    l2: nat, l1: nat, f: nat, sec: nat, v: nat, v': nat)
    requires tableVaddr < U64_SIZE && securityVaddr < U64_SIZE && v < U64_SIZE && l2 < U64_SIZE && l1 < U64_SIZE
    requires v' < U64_SIZE && v' / 0x1_0000 == v / 0x1_0000
    requires f < 0x1_0000_0000_0000 && sec < 0x1_0000
    requires PagedStep(s0, Store(TopPlace(tableVaddr, v), W64, l2), s1, Done)
    requires PagedStep(s1, Store(MiddlePlace(l2, v), W64, l1), s2, Done)
    requires PagedStep(s2, Store(LeafPlace(l1, v), W64, f * 0x1_0000 + sec), s3, Done)
    requires WindowApart(TopPlace(tableVaddr, v), 8, MiddlePlace(l2, v), 8)
    requires WindowApart(TopPlace(tableVaddr, v), 8, LeafPlace(l1, v), 8)
    requires WindowApart(MiddlePlace(l2, v), 8, LeafPlace(l1, v), 8)
    ensures Pow2(16) == 0x1_0000 && Sound(TreeOver(s3, tableVaddr, securityVaddr))
    ensures Translate(TreeOver(s3, tableVaddr, securityVaddr), v') == Success(f * 0x1_0000 + v' % 0x1_0000)
  {
    hide Entry, EntryAddr, WindowApart, Translate, Sound, TreeOver, FlatStep, Holds, Pow2, PagedStep;
    hide TopPlace, MiddlePlace, LeafPlace;
    PlacesFit(tableVaddr, l2, l1, v);
    StoreEntry(s0, s1, TopPlace(tableVaddr, v), l2);
    StoreEntry(s1, s2, MiddlePlace(l2, v), l1);
    StoreEntry(s2, s3, LeafPlace(l1, v), f * 0x1_0000 + sec);
    SamePlaces(tableVaddr, l2, l1, v, v');
    TranslateTree(s3, tableVaddr, securityVaddr, v', l2, l1, f * 0x1_0000 + sec);
  }

  /** All addresses of a page are walked through the same three places. */
  lemma SamePlaces(tableVaddr: nat, l2: nat, l1: nat, v: nat, v': nat)
    requires v' / 0x1_0000 == v / 0x1_0000
    ensures TopPlace(tableVaddr, v') == TopPlace(tableVaddr, v) && MiddlePlace(l2, v') == MiddlePlace(l2, v)
    ensures LeafPlace(l1, v') == LeafPlace(l1, v)
  {
    assert v / 0x1_0000_0000 == v / 0x1_0000 / 0x1_0000 && v' / 0x1_0000_0000 == v' / 0x1_0000 / 0x1_0000;
    assert v / 0x1_0000_0000_0000 == v / 0x1_0000 / 0x1_0000_0000;
    assert v' / 0x1_0000_0000_0000 == v' / 0x1_0000 / 0x1_0000_0000;
  }

  lemma PlacesFit(tableVaddr: nat, l2: nat, l1: nat, v: nat)
    ensures TopPlace(tableVaddr, v) < U64_SIZE && MiddlePlace(l2, v) < U64_SIZE && LeafPlace(l1, v) < U64_SIZE
  {
  }

  /** A stored leaf is local: a translation none of whose three entries it overlaps is as before. */
  lemma LeafStoreIsLocal(
    pages: Pages, pages': Pages, at: nat, pte: nat, tableVaddr: nat, securityVaddr: nat, v: nat)
    requires tableVaddr < U64_SIZE && securityVaddr < U64_SIZE && v < U64_SIZE && at < U64_SIZE && pte < U64_SIZE
    requires PagedStep(pages, Store(at, W64, pte), pages', Done)
    requires var l2 := Entry(pages, TopPlace(tableVaddr, v)); var l1 := Entry(pages, MiddlePlace(l2, v));
             && WindowApart(TopPlace(tableVaddr, v), 8, at, 8)
             && WindowApart(MiddlePlace(l2, v), 8, at, 8) && WindowApart(LeafPlace(l1, v), 8, at, 8)
    ensures Sound(TreeOver(pages, tableVaddr, securityVaddr)) && Sound(TreeOver(pages', tableVaddr, securityVaddr))
    ensures Translate(TreeOver(pages', tableVaddr, securityVaddr), v) ==
            Translate(TreeOver(pages, tableVaddr, securityVaddr), v)
  {
    hide Entry, EntryAddr, WindowApart, Translate, Sound, TreeOver, FlatStep, Holds, Pow2, PagedStep;
    hide TopPlace, MiddlePlace, LeafPlace;
    StoreEntry(pages, pages', at, pte);
    var l2 := Entry(pages, TopPlace(tableVaddr, v));
    var l1 := Entry(pages, MiddlePlace(l2, v));
    var pointer := Entry(pages, LeafPlace(l1, v));
    TranslateTree(pages, tableVaddr, securityVaddr, v, l2, l1, pointer);
    TranslateTree(pages', tableVaddr, securityVaddr, v, l2, l1, pointer);
  }
}
