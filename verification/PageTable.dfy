/** Shared page tables: the 2- and 3-level walks over a guest memory, as arithmetic on 64-bit words. */
module PageTable {
  import opened Results
  import opened Bytes
  import opened GuestMemory

  function Pow2(k: nat): (p: nat)
    ensures p > 0
  {
    if k == 0 then 1 else 2 * Pow2(k - 1)
  }

  /** The guest memory behind a table: any implementation of a read that respects widths. */
  type Reader = (nat, AccessWidth) -> Result<nat, GuestFault>

  ghost predicate RespectsWidths(read: Reader) {
    forall a: nat, w :: read(a, w).Success? && WidthBytes(w).Some? ==> read(a, w).value < Pow256(WidthBytes(w).value)
  }

  datatype SharedPageTable = SharedPageTable(
    read: Reader, tableVaddr: nat, securityVaddr: nat, pageSizeLog2: nat, levels: nat, pteBits: nat)

  /** The fields' widths, and a page size that a 64-bit shift can make. */
  ghost predicate Sound(t: SharedPageTable) {
    && RespectsWidths(t.read)
    && t.tableVaddr < U64_SIZE && t.securityVaddr < U64_SIZE
    && t.pageSizeLog2 < 64 && t.levels < 256 && t.pteBits < 256
  }

  /** `top << bits | low`, for a `low` that fits in `bits`: the two share no bit. */
  function Join(top: nat, low: nat, bits: nat): nat
    requires low < Pow2(bits)
  {
    top * Pow2(bits) + low
  }

  /** A 64-bit left shift: what leaves the word is lost. */
  function Shl(x: nat, bits: nat): nat {
    Wrap(x * Pow2(bits))
  }

  function EntrySize(t: SharedPageTable): nat {
    t.pteBits / 8
  }

  /** `read_pte`: one entry, 64 bits wide or else 32. */
  function ReadPte(t: SharedPageTable, addr: nat): (r: Result<nat, GuestFault>)
    requires RespectsWidths(t.read)
    ensures r.Success? ==> r.value < if t.pteBits == 64 then 0x1_0000_0000_0000_0000 else 0x1_0000_0000
  {
    Pow256Values();
    if t.pteBits == 64 then t.read(addr, W64) else t.read(addr, W32)
  }

  /** The security entry an index selects. */
  function ReadSecurity(t: SharedPageTable, index: nat): (r: Result<nat, GuestFault>)
    requires RespectsWidths(t.read)
    ensures r.Success? ==> r.value < 0x1_0000_0000
  {
    Pow256Values();
    t.read(Wrap(t.securityVaddr + index * 4), W32)
  }

  /** The physical page a page pointer and its security entry name. */
  function PhysicalPage(pteBits: nat, pointer: nat, security: nat): (page: nat)
    requires pointer < if pteBits == 64 then 0x1_0000_0000_0000_0000 else 0x1_0000_0000
  {
    if pteBits == 64 then
      Pow2Values();
      Join(security / 0x1_0000_0000_0000, pointer / 0x1_0000, 48)
    else
      Pow2Values();
      Join(security / 0x100_0000, pointer / 0x100, 24)
  }

  lemma Pow2Values()
    ensures Pow2(16) == 0x1_0000 && Pow2(24) == 0x100_0000 && Pow2(48) == 0x1_0000_0000_0000
  {
    hide Pow2;
    Pow2By4(0);
    Pow2By4(4);
    Pow2By4(8);
    Pow2By4(12);
    Pow2By4(16);
    Pow2By4(20);
    Pow2By4(24);
    Pow2By4(28);
    Pow2By4(32);
    Pow2By4(36);
    Pow2By4(40);
    Pow2By4(44);
  }

  lemma Pow2By4(k: nat)
    ensures Pow2(0) == 1 && Pow2(k + 4) == 16 * Pow2(k)
  {
    assert Pow2(k + 4) == 2 * Pow2(k + 3) == 4 * Pow2(k + 2) == 8 * Pow2(k + 1) == 16 * Pow2(k);
  }

  /** From the last-level entry's address on, both walks do the same. */
  function FromEntry(t: SharedPageTable, entryAddr: nat, pageOffset: nat): Result<nat, GuestFault>
    requires RespectsWidths(t.read)
  {
    var pointer :- ReadPte(t, entryAddr);
    var index := if t.pteBits == 64 then pointer % 0x1_0000 else pointer % 0x100;
    var security :- ReadSecurity(t, index);
    Success(Shl(PhysicalPage(t.pteBits, pointer, security), t.pageSizeLog2) + pageOffset)
  }

  /** Only the 2-level walk multiplies a whole page number by the entry size. */
  predicate OffsetFits(t: SharedPageTable, vaddr: nat) {
    t.levels == 2 ==> vaddr / Pow2(t.pageSizeLog2) * EntrySize(t) < U64_SIZE
  }

  /** `translate_2level`; the entry's offset from the table base must fit in 64 bits. */
  function Translate2(t: SharedPageTable, vaddr: nat): Result<nat, GuestFault>
    requires Sound(t) && vaddr / Pow2(t.pageSizeLog2) * EntrySize(t) < U64_SIZE
  {
    FromEntry(t, Wrap(t.tableVaddr + vaddr / Pow2(t.pageSizeLog2) * EntrySize(t)), vaddr % Pow2(t.pageSizeLog2))
  }

  /** The three 16-bit indices above the page offset. */
  function L3Index(vaddr: nat): nat {
    vaddr / 0x1_0000_0000_0000 % 0x1_0000
  }

  function L2Index(vaddr: nat): nat {
    vaddr / 0x1_0000_0000 % 0x1_0000
  }

  function L1Index(vaddr: nat): nat {
    vaddr / 0x1_0000 % 0x1_0000
  }

  /** The address of the last-level table that the two upper levels lead to. */
  function L1TableOf(t: SharedPageTable, vaddr: nat): Result<nat, GuestFault>
    requires Sound(t)
  {
    var l2Table :- ReadPte(t, Wrap(t.tableVaddr + L3Index(vaddr) * EntrySize(t)));
    ReadPte(t, Wrap(l2Table + L2Index(vaddr) * EntrySize(t)))
  }

  /** `translate_3level`. */
  function Translate3(t: SharedPageTable, vaddr: nat): Result<nat, GuestFault>
    requires Sound(t)
  {
    var l1Table :- L1TableOf(t, vaddr);
    FromEntry(t, Wrap(l1Table + L1Index(vaddr) * EntrySize(t)), vaddr % Pow2(t.pageSizeLog2))
  }

  function Translate(t: SharedPageTable, vaddr: nat): Result<nat, GuestFault>
    requires Sound(t) && OffsetFits(t, vaddr)
  {
    if t.levels == 2 then Translate2(t, vaddr)
    else if t.levels == 3 then Translate3(t, vaddr)
    else Failure(Unmapped)
  }

  // ---- the sum of page and offset stays in 64 bits

  lemma {:induction false} Pow2Splits(k: nat, m: nat)
    requires k <= m
    ensures Pow2(m) == Pow2(k) * Pow2(m - k)
  {
    if k > 0 {
      Pow2Splits(k - 1, m - 1);
      assert Pow2(k) * Pow2(m - k) == 2 * (Pow2(k - 1) * Pow2(m - k));
    }
  }

  lemma Pow2Of64()
    ensures Pow2(64) == 0x1_0000_0000_0000_0000
  {
    Pow2Values();
    Pow2Splits(48, 64);
  }

  /** A left shift keeps the low bits of the word, moved up. */
  lemma ShlValue(x: nat, k: nat)
    requires k < 64
    ensures Pow2(k) * Pow2(64 - k) == U64_SIZE
    ensures Shl(x, k) == Pow2(k) * (x % Pow2(64 - k))
  {
    hide Pow2;
    Pow2Of64();
    Pow2Splits(k, 64);
    var m := Pow2(64 - k);
    ShiftedRemainder(x, Pow2(k), m, x / m, x % m);
  }

  lemma TimesBelow(p: nat, m: nat, r: nat)
    requires r < m
    ensures p * r + p <= p * m
  {
    assert p * (m - 1) == p * m - p;
    assert p * r <= p * (m - 1);
  }

  /** A shifted word leaves its low bits clear, so adding an offset below them cannot overflow. */
  lemma ShiftedFits(x: nat, k: nat, offset: nat)
    requires k < 64 && offset < Pow2(k)
    ensures Shl(x, k) + offset < U64_SIZE
    ensures (Shl(x, k) + offset) % Pow2(k) == offset
  {
    hide Pow2, Shl;
    ShlValue(x, k);
    var p, m, r := Pow2(k), Pow2(64 - k), x % Pow2(64 - k);
    TimesBelow(p, m, r);
    DivUnique(Shl(x, k) + offset, p, r, offset);
  }

  lemma ShiftedRemainder(x: nat, p: nat, m: nat, q: nat, r: nat)
    requires p > 0 && m > 0 && q == x / m && r == x % m
    ensures p * m > 0 && (x * p) % (p * m) == p * r
  {
    assert x == m * q + r;
    assert x * p == (p * m) * q + p * r by {
      TimesOver(m, q, r, p);
    }
    assert p * r < p * m by {
      TimesBelow(p, m, r);
    }
    DivUnique(x * p, p * m, q, p * r);
  }

  lemma TimesOver(m: nat, q: nat, r: nat, p: nat)
    ensures (m * q + r) * p == (p * m) * q + p * r
  {
    assert (m * q + r) * p == m * q * p + r * p;
    assert m * q * p == (p * m) * q;
  }

  /** A translation that succeeds is a 64-bit address: the final addition never overflows. */
  lemma TranslationFits(t: SharedPageTable, vaddr: nat)
    requires Sound(t) && OffsetFits(t, vaddr)
    requires Translate(t, vaddr).Success?
    ensures Translate(t, vaddr).value < U64_SIZE
    ensures Translate(t, vaddr).value % Pow2(t.pageSizeLog2) == vaddr % Pow2(t.pageSizeLog2)
  {
    hide Shl, PhysicalPage, ReadPte, ReadSecurity, Pow2;
    forall x: nat
      ensures var y := Shl(x, t.pageSizeLog2) + vaddr % Pow2(t.pageSizeLog2);
              y < U64_SIZE && y % Pow2(t.pageSizeLog2) == vaddr % Pow2(t.pageSizeLog2)
    {
      ShiftedFits(x, t.pageSizeLog2, vaddr % Pow2(t.pageSizeLog2));
    }
  }

  // ---- the 3-level walk against the flat 2-level walk

  /** The page number is its three indices in order: the split loses nothing. */
  lemma IndexSplit(vaddr: nat)
    requires vaddr < 0x1_0000_0000_0000_0000
    ensures vaddr / 0x1_0000 == (L3Index(vaddr) * 0x1_0000 + L2Index(vaddr)) * 0x1_0000 + L1Index(vaddr)
  {
    var page := vaddr / 0x1_0000;
    assert vaddr / 0x1_0000_0000 == page / 0x1_0000;
    assert vaddr / 0x1_0000_0000_0000 == page / 0x1_0000 / 0x1_0000;
  }

  /** ... and is a bijection: an address is determined by the indices and the offset. */
  lemma IndexSplitInjective(v: nat, v': nat)
    requires v < 0x1_0000_0000_0000_0000 && v' < 0x1_0000_0000_0000_0000
    ensures v == v' <==>
            L3Index(v) == L3Index(v') && L2Index(v) == L2Index(v') && L1Index(v) == L1Index(v')
            && v % 0x1_0000 == v' % 0x1_0000
  {
    IndexSplit(v);
    IndexSplit(v');
  }

  /** Entry `index` of a table, as the memory under the table gives it. */
  function EntryRead(t: SharedPageTable, table: nat, index: nat): Result<nat, GuestFault> {
    t.read((table + index * (t.pteBits / 8)) % 0x1_0000_0000_0000_0000, if t.pteBits == 64 then W64 else W32)
  }

  /**
   The 3-level walk from the reads it makes: bits 48 to 63 of the address select in the table, bits
   32 to 47 in the table that entry names, bits 16 to 31 in the table that one names; the page
   comes from the last entry and, with 32-bit entries, from the top byte of its directory entry.
   */
  lemma ThreeLevelWalk(t: SharedPageTable, v: nat, l2: nat, l1: nat, pointer: nat, security: nat)
    requires Sound(t) && v < U64_SIZE
    requires EntryRead(t, t.tableVaddr, v / 0x1_0000_0000_0000 % 0x1_0000) == Success(l2)
    requires EntryRead(t, l2, v / 0x1_0000_0000 % 0x1_0000) == Success(l1)
    requires EntryRead(t, l1, v / 0x1_0000 % 0x1_0000) == Success(pointer)
    requires var index := if t.pteBits == 64 then pointer % 0x1_0000 else pointer % 0x100;
             t.read((t.securityVaddr + index * 4) % 0x1_0000_0000_0000_0000, W32) == Success(security)
    ensures var page := if t.pteBits == 64 then pointer / 0x1_0000
                        else security / 0x100_0000 * 0x100_0000 + pointer / 0x100;
            Translate3(t, v) ==
            Success(page * Pow2(t.pageSizeLog2) % 0x1_0000_0000_0000_0000 + v % Pow2(t.pageSizeLog2))
  {
    hide RespectsWidths, Pow2, FromEntry, L1TableOf, EntryRead, Wrap;
    WalkReads(t, v, l2, l1);
    LeafPage(t, l1, L1Index(v), v % Pow2(t.pageSizeLog2), pointer, security);
  }

  lemma WalkReads(t: SharedPageTable, v: nat, l2: nat, l1: nat)
    requires Sound(t) && v < U64_SIZE
    requires EntryRead(t, t.tableVaddr, v / 0x1_0000_0000_0000 % 0x1_0000) == Success(l2)
    requires EntryRead(t, l2, v / 0x1_0000_0000 % 0x1_0000) == Success(l1)
    ensures L1TableOf(t, v) == Success(l1)
  {
    hide RespectsWidths, Pow2;
  }

  /** What the last entry of a walk and its directory entry make of an offset. */
  lemma LeafPage(t: SharedPageTable, table: nat, index: nat, offset: nat, pointer: nat, security: nat)
    requires RespectsWidths(t.read) && EntryRead(t, table, index) == Success(pointer)
    requires var slot := if t.pteBits == 64 then pointer % 0x1_0000 else pointer % 0x100;
             t.read((t.securityVaddr + slot * 4) % 0x1_0000_0000_0000_0000, W32) == Success(security)
    ensures var page := if t.pteBits == 64 then pointer / 0x1_0000
                        else security / 0x100_0000 * 0x100_0000 + pointer / 0x100;
            FromEntry(t, Wrap(table + index * EntrySize(t)), offset) ==
            Success(page * Pow2(t.pageSizeLog2) % 0x1_0000_0000_0000_0000 + offset)
  {
    hide RespectsWidths, Pow2, PhysicalPage, ReadSecurity, ReadPte, Shl;
    PointerReads(t, table, index);
    SecurityReads(t, if t.pteBits == 64 then pointer % 0x1_0000 else pointer % 0x100, security);
    PageIs(t.pteBits, pointer, security);
    ShlIs(PhysicalPage(t.pteBits, pointer, security), t.pageSizeLog2);
  }

  lemma PointerReads(t: SharedPageTable, table: nat, index: nat)
    requires RespectsWidths(t.read)
    ensures ReadPte(t, Wrap(table + index * EntrySize(t))) == EntryRead(t, table, index)
  {
    hide RespectsWidths;
  }

  lemma SecurityReads(t: SharedPageTable, index: nat, security: nat)
    requires RespectsWidths(t.read)
    requires t.read((t.securityVaddr + index * 4) % 0x1_0000_0000_0000_0000, W32) == Success(security)
    ensures ReadSecurity(t, index) == Success(security)
  {
    hide RespectsWidths;
  }

  lemma PageIs(pteBits: nat, pointer: nat, security: nat)
    requires pointer < if pteBits == 64 then 0x1_0000_0000_0000_0000 else 0x1_0000_0000
    requires security < 0x1_0000_0000
    ensures PhysicalPage(pteBits, pointer, security) ==
            if pteBits == 64 then pointer / 0x1_0000 else security / 0x100_0000 * 0x100_0000 + pointer / 0x100
  {
    hide Pow2;
    Pow2Values();
    if pteBits == 64 {
      SecurityTopIsZero(pointer, security);
    }
  }

  lemma ShlIs(x: nat, bits: nat)
    ensures Shl(x, bits) == x * Pow2(bits) % 0x1_0000_0000_0000_0000
  {
  }

  /** The 2-level walk from its one read, at any page size. */
  lemma TwoLevelWalk(t: SharedPageTable, v: nat, pointer: nat, security: nat)
    requires Sound(t) && OffsetFits(t, v) && t.levels == 2
    requires EntryRead(t, t.tableVaddr, v / Pow2(t.pageSizeLog2)) == Success(pointer)
    requires var index := if t.pteBits == 64 then pointer % 0x1_0000 else pointer % 0x100;
             t.read((t.securityVaddr + index * 4) % 0x1_0000_0000_0000_0000, W32) == Success(security)
    ensures var page := if t.pteBits == 64 then pointer / 0x1_0000
                        else security / 0x100_0000 * 0x100_0000 + pointer / 0x100;
            Translate(t, v) ==
            Success(page * Pow2(t.pageSizeLog2) % 0x1_0000_0000_0000_0000 + v % Pow2(t.pageSizeLog2))
  {
    hide RespectsWidths, Pow2, FromEntry, EntryRead, Wrap;
    LeafPage(t, t.tableVaddr, v / Pow2(t.pageSizeLog2), v % Pow2(t.pageSizeLog2), pointer, security);
  }

  /** A walk of other than 2 or 3 levels is unmapped; otherwise the first read that faults decides. */
  lemma WalkFaults(t: SharedPageTable, v: nat)
    requires Sound(t) && OffsetFits(t, v)
    ensures t.levels !in {2, 3} ==> Translate(t, v) == Failure(Unmapped)
    ensures t.levels == 2 ==>
              var r := EntryRead(t, t.tableVaddr, v / Pow2(t.pageSizeLog2));
              r.Failure? ==> Translate(t, v) == Failure(r.error)
    ensures t.levels == 3 ==>
              var r3 := EntryRead(t, t.tableVaddr, v / 0x1_0000_0000_0000 % 0x1_0000);
              if r3.Failure? then Translate(t, v) == Failure(r3.error)
              else
                var r2 := EntryRead(t, r3.value, v / 0x1_0000_0000 % 0x1_0000);
                if r2.Failure? then Translate(t, v) == Failure(r2.error)
                else
                  var r1 := EntryRead(t, r2.value, v / 0x1_0000 % 0x1_0000);
                  r1.Failure? ==> Translate(t, v) == Failure(r1.error)
  {
    hide RespectsWidths, Pow2, PhysicalPage, Shl, ReadSecurity, ReadPte, EntryRead, Wrap;
    forall table: nat, index: nat
      ensures ReadPte(t, Wrap(table + index * EntrySize(t))) == EntryRead(t, table, index)
    {
      PointerReads(t, table, index);
    }
  }

  /**
   With 64 KiB pages, if the upper two reads of the walk lead to where a flat table at `base` would
   have the entries of this address, the 3-level walk gives what the flat 2-level walk gives,
   faults included, for both entry widths.
   */
  lemma ThreeLevelsRefineTwo(t: SharedPageTable, base: nat, vaddr: nat, l2: nat)
    requires Sound(t) && t.pageSizeLog2 == 16 && t.pteBits in {32, 64}
    requires vaddr < U64_SIZE && base < U64_SIZE
    requires EntryRead(t, t.tableVaddr, vaddr / 0x1_0000_0000_0000 % 0x1_0000) == Success(l2)
    requires EntryRead(t, l2, vaddr / 0x1_0000_0000 % 0x1_0000) ==
             Success((base + vaddr / 0x1_0000_0000 * 0x1_0000 * (t.pteBits / 8)) % 0x1_0000_0000_0000_0000)
    ensures Pow2(16) == 0x1_0000 && vaddr / Pow2(16) * EntrySize(t) < U64_SIZE
    ensures Translate3(t, vaddr) == Translate2(t.(tableVaddr := base), vaddr)
  {
    hide FromEntry, Pow2, RespectsWidths;
    Pow2Values();
    IndexSplit(vaddr);
    UpperIndices(vaddr);
    var l1Table := L1TableOf(t, vaddr).value;
    EntryPlaces(base, vaddr / 0x1_0000_0000, L1Index(vaddr), EntrySize(t), l1Table);
    FromEntryIgnoresBase(t, base, Wrap(l1Table + L1Index(vaddr) * EntrySize(t)), vaddr % 0x1_0000);
  }

  lemma UpperIndices(vaddr: nat)
    requires vaddr < 0x1_0000_0000_0000_0000
    ensures vaddr / 0x1_0000_0000 == L3Index(vaddr) * 0x1_0000 + L2Index(vaddr)
  {
    assert vaddr / 0x1_0000_0000_0000 == vaddr / 0x1_0000_0000 / 0x1_0000;
  }

  lemma EntryPlaces(base: nat, upper: nat, low: nat, size: nat, table: nat)
    requires size == 4 || size == 8
    requires table == Wrap(base + upper * 0x1_0000 * size)
    ensures Wrap(table + low * size) == Wrap(base + (upper * 0x1_0000 + low) * size)
  {
  }

  lemma FromEntryIgnoresBase(t: SharedPageTable, base: nat, addr: nat, offset: nat)
    requires RespectsWidths(t.read)
    ensures FromEntry(t, addr, offset) == FromEntry(t.(tableVaddr := base), addr, offset)
  {
    hide RespectsWidths, PhysicalPage, Shl, Wrap, Pow256;
  }

  // ---- the security directory

  /** With 64-bit entries the security entry is read as 32 bits and shifted right by 48: nothing is left. */
  lemma SecurityTopIsZero(pointer: nat, security: nat)
    requires pointer < 0x1_0000_0000_0000_0000 && security < 0x1_0000_0000
    ensures PhysicalPage(64, pointer, security) == pointer / 0x1_0000
  {
  }

  /** The page pointer that a walk ends on, before the directory comes in. */
  function PointerOf(t: SharedPageTable, vaddr: nat): Result<nat, GuestFault>
    requires Sound(t) && OffsetFits(t, vaddr)
  {
    if t.levels == 2 then ReadPte(t, Wrap(t.tableVaddr + vaddr / Pow2(t.pageSizeLog2) * EntrySize(t)))
    else if t.levels == 3 then
      var l1Table :- L1TableOf(t, vaddr);
      ReadPte(t, Wrap(l1Table + L1Index(vaddr) * EntrySize(t)))
    else Failure(Unmapped)
  }

  /**
   So with 64-bit entries no translation, of two levels or three, depends on what a readable
   directory holds or where it lies: it is the page pointer's upper 48 bits and the page offset.
   */
  lemma SecurityDirectoryUnobserved(t: SharedPageTable, vaddr: nat)
    requires Sound(t) && OffsetFits(t, vaddr) && t.pteBits == 64
    requires forall i: nat :: ReadSecurity(t, i).Success?
    ensures Translate(t, vaddr) ==
            match PointerOf(t, vaddr)
            case Failure(e) => Failure(e)
            case Success(p) => Success(Shl(p / 0x1_0000, t.pageSizeLog2) + vaddr % Pow2(t.pageSizeLog2))
  {
    hide PhysicalPage, ReadPte, ReadSecurity, RespectsWidths, FromEntry, L1TableOf, Pow2, Shl;
    var offset := vaddr % Pow2(t.pageSizeLog2);
    forall at: nat
      ensures FromEntry(t, at, offset) ==
              match ReadPte(t, at)
              case Failure(e) => Failure(e)
              case Success(p) => Success(Shl(p / 0x1_0000, t.pageSizeLog2) + offset)
    {
      EntryWithoutDirectory(t, at, offset);
    }
  }

  lemma EntryWithoutDirectory(t: SharedPageTable, at: nat, offset: nat)
    requires RespectsWidths(t.read) && t.pteBits == 64
    requires forall i: nat :: ReadSecurity(t, i).Success?
    ensures FromEntry(t, at, offset) ==
            match ReadPte(t, at)
            case Failure(e) => Failure(e)
            case Success(p) => Success(Shl(p / 0x1_0000, t.pageSizeLog2) + offset)
  {
    hide PhysicalPage, ReadPte, ReadSecurity, RespectsWidths, Shl;
    if ReadPte(t, at).Success? {
      var pointer := ReadPte(t, at).value;
      SecurityTopIsZero(pointer, ReadSecurity(t, pointer % 0x1_0000).value);
    }
  }
}
