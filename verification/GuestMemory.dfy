/**
 The guest-memory backends: sparse 64 KiB pages allocated on first write, and one linear buffer.
 Both are proved against a flat memory, a byte for each of the 2^64 addresses.
 */
module GuestMemory {
  import opened Results
  import opened Bytes

  const PAGE_SIZE := 65536

  datatype AccessWidth = W8 | W16 | W32 | W64 | W128

  datatype GuestFault = OutOfBounds | PermissionDenied | Unmapped

  /** Width in bytes, for the widths that fit in 64 bits. */
  function WidthBytes(w: AccessWidth): Option<nat> {
    match w
    case W8 => Some(1)
    case W16 => Some(2)
    case W32 => Some(4)
    case W64 => Some(8)
    case W128 => None
  }

  function Wrap(a: int): (w: nat)
    ensures w < U64_SIZE
  {
    a % U64_SIZE
  }

  /** The `i`-th address from `addr` on: `addr.wrapping_add(i)`. */
  function Nth(addr: nat, i: nat): (a: nat)
    ensures a < U64_SIZE
  {
    Wrap(addr + i)
  }

  // ---- flat memory

  /** One byte for every address. */
  type Flat = nat -> byte

  /** The `n` bytes from `addr` on, going round at 2^64. */
  function Window(f: Flat, addr: nat, n: nat): (s: seq<byte>)
    ensures |s| == n
  {
    seq<byte>(n, (i: nat) => f(Nth(addr, i)))
  }

  function FlatRead(f: Flat, addr: nat, n: nat): nat {
    LE(Window(f, addr, n))
  }

  /** The low `n` bytes of `v` stored from `addr` on, going round at 2^64. */
  function FlatWrite(f: Flat, addr: nat, n: nat, v: nat): Flat {
    (a: nat) => if Wrap(a - addr) < n then Digits(v, n)[Wrap(a - addr)] else f(a)
  }

  lemma WrapOffset(addr: nat, i: nat)
    requires addr < U64_SIZE && i < U64_SIZE
    ensures Wrap(Nth(addr, i) - addr) == i
  {
  }

  /** Reading back what was written gives the value cut to the width. */
  lemma ReadBack(f: Flat, addr: nat, n: nat, v: nat)
    requires addr < U64_SIZE && n <= 8
    ensures Window(FlatWrite(f, addr, n, v), addr, n) == Digits(v, n)
    ensures v < Pow256(n) ==> FlatRead(FlatWrite(f, addr, n, v), addr, n) == v
  {
    forall i | 0 <= i < n
      ensures Window(FlatWrite(f, addr, n, v), addr, n)[i] == Digits(v, n)[i]
    {
      WrapOffset(addr, i);
    }
    if v < Pow256(n) {
      LEOfDigits(v, n);
    }
  }

  /** An address that is none of the `n` addresses from `addr` on, going round. */
  predicate Outside(a: nat, addr: nat, n: nat) {
    Wrap(a - addr) >= n
  }

  /** A read that shares no byte with a write is unaffected, however either wraps. */
  lemma ReadApart(f: Flat, addr: nat, n: nat, v: nat, addr': nat, m: nat)
    requires forall i :: 0 <= i < m ==> Outside(Nth(addr', i), addr, n)
    ensures FlatRead(FlatWrite(f, addr, n, v), addr', m) == FlatRead(f, addr', m)
  {
    hide Wrap, LE, Digits, Nth;
    forall i | 0 <= i < m
      ensures Window(FlatWrite(f, addr, n, v), addr', m)[i] == Window(f, addr', m)[i]
    {
      assert Outside(Nth(addr', i), addr, n);
    }
    assert Window(FlatWrite(f, addr, n, v), addr', m) == Window(f, addr', m);
  }

  // ---- steps and what they answer

  datatype Op =
    | Load(addr: nat, width: AccessWidth)
    | Store(addr: nat, width: AccessWidth, value: nat)
    | Touch(page: nat) // allocate a page

  datatype Answer = Value(v: nat) | Done | Fault(fault: GuestFault)

  /** Addresses and values are 64-bit. */
  predicate OpFits(op: Op) {
    match op
    case Load(addr, _) => addr < U64_SIZE
    case Store(addr, _, value) => addr < U64_SIZE && value < U64_SIZE
    case Touch(_) => true
  }

  /** One step of the flat memory: the new contents and the answer. */
  function FlatStep(f: Flat, op: Op): (Flat, Answer) {
    match op
    case Load(addr, w) =>
      if WidthBytes(w).None? then (f, Fault(OutOfBounds)) else (f, Value(FlatRead(f, addr, WidthBytes(w).value)))
    case Store(addr, w, value) =>
      if WidthBytes(w).None? then (f, Fault(OutOfBounds))
      else (FlatWrite(f, addr, WidthBytes(w).value, value), Done)
    case Touch(_) => (f, Done)
  }

  // ---- each width, byte by byte

  /** The `i`-th byte from `addr` on. */
  function ByteOf(f: Flat, addr: nat, i: nat): byte {
    f((addr + i) % 0x1_0000_0000_0000_0000)
  }

  lemma LEOfTwo(w: seq<byte>)
    requires |w| >= 2
    ensures LE(w) == w[0] as int + 0x100 * w[1] as int + 0x1_0000 * LE(w[2..])
  {
    assert w[1..][1..] == w[2..];
    assert LE(w) == w[0] as int + 256 * LE(w[1..]);
    assert LE(w[1..]) == w[1] as int + 256 * LE(w[2..]);
  }

  lemma LEOfFour(w: seq<byte>)
    requires |w| >= 4
    ensures LE(w) == w[0] as int + 0x100 * w[1] as int + 0x1_0000 * w[2] as int + 0x100_0000 * w[3] as int
                     + 0x1_0000_0000 * LE(w[4..])
  {
    hide LE;
    assert w[2..][2..] == w[4..];
    LEOfTwo(w);
    LEOfTwo(w[2..]);
  }

  /** A load is one, two, four or eight bytes, least significant first, and no other width. */
  lemma LoadSpelledOut(f: Flat, addr: nat)
    requires addr < U64_SIZE
    ensures FlatStep(f, Load(addr, W8)) == (f, Value(ByteOf(f, addr, 0)))
    ensures FlatStep(f, Load(addr, W16)) == (f, Value(ByteOf(f, addr, 0) as int + 0x100 * ByteOf(f, addr, 1) as int))
    ensures FlatStep(f, Load(addr, W32)) ==
            (f, Value(ByteOf(f, addr, 0) as int + 0x100 * ByteOf(f, addr, 1) as int
                      + 0x1_0000 * ByteOf(f, addr, 2) as int + 0x100_0000 * ByteOf(f, addr, 3) as int))
    ensures FlatStep(f, Load(addr, W64)) ==
            (f, Value(ByteOf(f, addr, 0) as int + 0x100 * ByteOf(f, addr, 1) as int
                      + 0x1_0000 * ByteOf(f, addr, 2) as int + 0x100_0000 * ByteOf(f, addr, 3) as int
                      + 0x1_0000_0000 *
                        (ByteOf(f, addr, 4) as int + 0x100 * ByteOf(f, addr, 5) as int
                         + 0x1_0000 * ByteOf(f, addr, 6) as int + 0x100_0000 * ByteOf(f, addr, 7) as int)))
    ensures FlatStep(f, Load(addr, W128)) == (f, Fault(OutOfBounds))
  {
    hide LE, Window, ByteOf;
    WindowIs(f, addr, 1);
    WindowIs(f, addr, 2);
    WindowIs(f, addr, 4);
    WindowIs(f, addr, 8);
    LEOfZeros([]);
    var two, four, eight := Window(f, addr, 2), Window(f, addr, 4), Window(f, addr, 8);
    LEOfOne(Window(f, addr, 1));
    LEOfTwo(two);
    LEOfFour(four);
    LEOfFour(eight);
    LEOfFour(eight[4..]);
    assert two[2..] == [] && four[4..] == [] && eight[4..][4..] == [];
  }

  lemma WindowIs(f: Flat, addr: nat, n: nat)
    ensures forall i :: 0 <= i < n ==> Window(f, addr, n)[i] == ByteOf(f, addr, i)
  {
    forall i | 0 <= i < n
      ensures Window(f, addr, n)[i] == ByteOf(f, addr, i)
    {
      assert Nth(addr, i) == (addr + i) % 0x1_0000_0000_0000_0000;
    }
  }

  lemma LEOfOne(w: seq<byte>)
    requires |w| == 1
    ensures LE(w) == w[0]
  {
    assert LE(w) == w[0] as int + 256 * LE(w[1..]);
  }

  /** What byte `k` of a value is when `n` bytes are stored and the address is `k` places on. */
  function StoredByte(v: nat, n: nat, k: nat, before: byte): byte {
    if k < n then v / Pow256(k) % 256 else before
  }

  /** A store changes one, two, four or eight bytes, to the value's own, and no others. */
  lemma StoreSpelledOut(f: Flat, addr: nat, v: nat, a: nat)
    requires addr < U64_SIZE && a < U64_SIZE
    ensures var k := (a - addr) % 0x1_0000_0000_0000_0000;
            && FlatStep(f, Store(addr, W8, v)).0(a) == StoredByte(v, 1, k, f(a))
            && FlatStep(f, Store(addr, W16, v)).0(a) == StoredByte(v, 2, k, f(a))
            && FlatStep(f, Store(addr, W32, v)).0(a) == StoredByte(v, 4, k, f(a))
            && FlatStep(f, Store(addr, W64, v)).0(a) == StoredByte(v, 8, k, f(a))
            && FlatStep(f, Store(addr, W128, v)) == (f, Fault(OutOfBounds))
  {
    hide Digits, Pow256;
    StoreAt(f, addr, 1, v, a);
    StoreAt(f, addr, 2, v, a);
    StoreAt(f, addr, 4, v, a);
    StoreAt(f, addr, 8, v, a);
  }

  lemma StoreAt(f: Flat, addr: nat, n: nat, v: nat, a: nat)
    requires addr < U64_SIZE && a < U64_SIZE
    ensures FlatWrite(f, addr, n, v)(a) == StoredByte(v, n, (a - addr) % 0x1_0000_0000_0000_0000, f(a))
  {
    hide Digits, Pow256;
    if Wrap(a - addr) < n {
      DigitAt(v, n, Wrap(a - addr));
    }
  }

  // ---- sparse pages

  type Page = p: seq<byte> | |p| == PAGE_SIZE witness Zeros(PAGE_SIZE)

  type Pages = map<nat, Page>

  /** The byte the pages hold at an address: zero where there is no page. */
  function ByteAt(pages: Pages, a: nat): byte {
    if a / PAGE_SIZE in pages then pages[a / PAGE_SIZE][a % PAGE_SIZE] else 0
  }

  /** The flat memory a set of pages stands for. */
  function FlatOf(pages: Pages): Flat {
    (a: nat) => ByteAt(pages, a)
  }

  /** The pages now hold what the flat memory holds. */
  ghost predicate Holds(pages: Pages, f: Flat) {
    forall a: nat :: a < U64_SIZE ==> ByteAt(pages, a) == f(a)
  }

  /** One step of the paged memory: the answer and the bytes are those of the flat memory. */
  ghost predicate PagedStep(pages: Pages, op: Op, pages': Pages, answer: Answer) {
    answer == FlatStep(FlatOf(pages), op).1 && Holds(pages', FlatStep(FlatOf(pages), op).0)
  }

  /** `read_bytes_at`: the bytes are gathered lowest first; the ORed bits never overlap. */
  method ReadBytesAt(pages: Pages, addr: nat, n: nat) returns (value: nat)
    requires addr < U64_SIZE && n <= 8
    ensures value == FlatRead(FlatOf(pages), addr, n)
    ensures value < Pow256(n)
  {
    hide LE, Pow256, Nth, ByteAt;
    value := 0;
    ghost var w := Window(FlatOf(pages), addr, n);
    LEOfZeros([]);
    for i := 0 to n
      invariant value == LE(w[..i])
    {
      var byteAddr := Nth(addr, i);
      var b := ByteAt(pages, byteAddr);
      LEAppend(w[..i], b);
      assert w[..i + 1] == w[..i] + [b];
      value := value + b as int * Pow256(i);
    }
    assert w[..n] == w;
    LEBound(w);
  }

  /** The page at a number, allocated as zeros if there is none: `entry(..).or_insert_with(..)`. */
  function WithPage(pages: Pages, number: nat): (p: Pages)
    ensures number in p
    ensures forall a :: ByteAt(p, a) == ByteAt(pages, a)
  {
    if number in pages then pages else pages[number := Zeros(PAGE_SIZE)]
  }

  /** Storing one byte. */
  function PutByte(pages: Pages, a: nat, x: byte): (p: Pages)
    ensures forall a' :: ByteAt(p, a') == if a' == a then x else ByteAt(pages, a')
  {
    var number, q := a / PAGE_SIZE, WithPage(pages, a / PAGE_SIZE);
    var page: Page := q[number][a % PAGE_SIZE := x];
    assert forall a' :: ByteAt(q, a') == ByteAt(pages, a');
    assert forall a' :: a' / PAGE_SIZE == number && a' % PAGE_SIZE == a % PAGE_SIZE ==> a' == a;
    q[number := page]
  }

  /** Vane-compatible legacy memory: pages allocated on first write, zero where there is none. */
  class LegacyOnDemand {
    var pages: Pages

    constructor ()
      ensures pages == map[]
    {
      pages := map[];
    }

    /** Allocating a page is not observable; page `number` holds the 64 KiB from `number * 65536` on. */
    method GetPage(number: nat)
      modifies this
      ensures number in pages && |pages[number]| == 65536
      ensures forall k :: 0 <= k < 65536 ==> pages[number][k] == ByteAt(pages, 65536 * number + k)
      ensures pages.Keys == old(pages).Keys + {number}
      ensures PagedStep(old(pages), Touch(number), pages, Done)
    {
      pages := WithPage(pages, number);
    }

    /** `write_bytes_at`, byte by byte, each on its own page. */
    method WriteBytesAt(addr: nat, n: nat, value: nat)
      requires addr < U64_SIZE && n <= 8
      modifies this
      ensures Holds(pages, FlatWrite(FlatOf(old(pages)), addr, n, value))
    {
      hide Wrap, Digits, ByteAt, Pow256, Nth;
      for i := 0 to n
        invariant forall a: nat :: a < U64_SIZE ==>
                    ByteAt(pages, a) == if Wrap(a - addr) < i then Digits(value, n)[Wrap(a - addr)]
                                        else ByteAt(old(pages), a)
      {
        var byteAddr := Nth(addr, i);
        DigitAt(value, n, i);
        ghost var before := pages;
        pages := PutByte(pages, byteAddr, value / Pow256(i) % 256);
        forall a: nat | a < U64_SIZE
          ensures ByteAt(pages, a) == if Wrap(a - addr) == i then Digits(value, n)[i] else ByteAt(before, a)
        {
          OffsetIs(a, addr, i);
        }
      }
    }

    method Read(addr: nat, w: AccessWidth) returns (r: Result<nat, GuestFault>)
      requires addr < U64_SIZE
      ensures PagedStep(pages, Load(addr, w), pages, AnswerOf(r))
      ensures r == PagesRead(pages, addr, w)
      ensures r.Failure? <==> w == W128
    {
      if WidthBytes(w).None? {
        return Failure(OutOfBounds);
      }
      var v := ReadBytesAt(pages, addr, WidthBytes(w).value);
      return Success(v);
    }

    method Write(addr: nat, w: AccessWidth, value: nat) returns (r: Result<(), GuestFault>)
      requires addr < U64_SIZE && value < U64_SIZE
      modifies this
      ensures PagedStep(old(pages), Store(addr, w, value), pages, DoneOf(r))
      ensures r.Failure? <==> w == W128
      ensures r.Failure? ==> pages == old(pages)
    {
      if WidthBytes(w).None? {
        return Failure(OutOfBounds);
      }
      WriteBytesAt(addr, WidthBytes(w).value, value);
      return Success(());
    }
  }

  function AnswerOf(r: Result<nat, GuestFault>): Answer {
    match r
    case Success(v) => Value(v)
    case Failure(f) => Fault(f)
  }

  function DoneOf(r: Result<(), GuestFault>): Answer {
    match r
    case Success(_) => Done
    case Failure(f) => Fault(f)
  }

  /** A read of paged memory, as a value. */
  function PagesRead(pages: Pages, addr: nat, w: AccessWidth): Result<nat, GuestFault> {
    if WidthBytes(w).None? then Failure(OutOfBounds)
    else Success(FlatRead(FlatOf(pages), addr, WidthBytes(w).value))
  }

  lemma OffsetIs(a: nat, addr: nat, i: nat)
    requires a < U64_SIZE && addr < U64_SIZE && i < U64_SIZE
    ensures a == Nth(addr, i) <==> Wrap(a - addr) == i
  {
  }

  // ---- linear memory

  /** No slice is longer than this. */
  const MAX_LENGTH := 0x8000_0000_0000_0000

  function SaturatingAdd(x: nat, y: nat): nat {
    if x + y < U64_SIZE then x + y else U64_SIZE - 1
  }

  /** Linear host memory: one buffer standing for the addresses from `base` on. */
  class LinearHost {
    var memory: array<byte>
    const base: nat

    constructor (size: nat, base: nat)
      ensures this.base == base && fresh(memory) && memory.Length == size
      ensures forall i :: 0 <= i < size ==> memory[i] == 0
    {
      this.base := base;
      memory := new byte[size](_ => 0);
    }

    /** Where an access lands in the buffer, or why it faults. */
    function Offset(addr: nat): Result<nat, GuestFault> {
      if addr < base then Failure(OutOfBounds) else Success(addr - base)
    }

    method Read(addr: nat, w: AccessWidth) returns (r: Result<nat, GuestFault>)
      requires addr < U64_SIZE && memory.Length < MAX_LENGTH
      ensures r == LinearRead(memory[..], base, addr, w)
      ensures r.Success? <==>
              base <= addr && match w
                              case W8 => addr - base + 1 <= memory.Length
                              case W16 => addr - base + 2 <= memory.Length
                              case W32 => addr - base + 4 <= memory.Length
                              case W64 => addr - base + 8 <= memory.Length
                              case W128 => false
    {
      var off :- Offset(addr);
      if WidthBytes(w).None? {
        return Failure(OutOfBounds);
      }
      r := ReadBytesLinear(memory, off, WidthBytes(w).value);
    }

    method Write(addr: nat, w: AccessWidth, value: nat) returns (r: Result<(), GuestFault>)
      requires addr < U64_SIZE && memory.Length < MAX_LENGTH && value < U64_SIZE
      modifies memory
      ensures r.Success? <==>
              base <= addr && match w
                              case W8 => addr - base + 1 <= memory.Length
                              case W16 => addr - base + 2 <= memory.Length
                              case W32 => addr - base + 4 <= memory.Length
                              case W64 => addr - base + 8 <= memory.Length
                              case W128 => false
      ensures r.Failure? ==> r == Failure(OutOfBounds)
      ensures memory[..] == LinearWrite(old(memory[..]), base, addr, w, value)
    {
      if Offset(addr).Failure? {
        return Failure(OutOfBounds);
      }
      var off := Offset(addr).value;
      if WidthBytes(w).None? {
        return Failure(OutOfBounds);
      }
      r := WriteBytesLinear(memory, off, WidthBytes(w).value, value);
    }
  }

  /** An access that does not fault: a supported width, wholly inside the buffer. */
  predicate InBounds(size: nat, base: nat, addr: nat, w: AccessWidth) {
    WidthBytes(w).Some? && base <= addr && addr - base + WidthBytes(w).value <= size
  }

  function LinearRead(mem: seq<byte>, base: nat, addr: nat, w: AccessWidth): Result<nat, GuestFault> {
    if InBounds(|mem|, base, addr, w) then Success(LE(mem[addr - base..addr - base + WidthBytes(w).value]))
    else Failure(OutOfBounds)
  }

  function LinearWrite(mem: seq<byte>, base: nat, addr: nat, w: AccessWidth, v: nat): (m: seq<byte>)
    ensures |m| == |mem|
  {
    if InBounds(|mem|, base, addr, w) then Overlay(mem, addr - base, Digits(v, WidthBytes(w).value)) else mem
  }

  /** Linear memory byte by byte: what each width reads where it is in bounds. */
  lemma LinearLoadSpelledOut(mem: seq<byte>, base: nat, addr: nat)
    requires base <= addr
    ensures var o := addr - base;
            && LinearRead(mem, base, addr, W8) ==
               (if o + 1 <= |mem| then Success(mem[o] as int) else Failure(OutOfBounds))
            && LinearRead(mem, base, addr, W16) ==
               (if o + 2 <= |mem| then Success(mem[o] as int + 0x100 * mem[o + 1] as int) else Failure(OutOfBounds))
            && LinearRead(mem, base, addr, W32) ==
               (if o + 4 <= |mem| then Success(FourBytes(mem, o)) else Failure(OutOfBounds))
            && LinearRead(mem, base, addr, W64) ==
               (if o + 8 <= |mem| then Success(FourBytes(mem, o) + 0x1_0000_0000 * FourBytes(mem, o + 4))
                else Failure(OutOfBounds))
  {
    hide LE;
    var o := addr - base;
    LEOfZeros([]);
    if o + 1 <= |mem| {
      LEOfOne(mem[o..o + 1]);
    }
    if o + 2 <= |mem| {
      LEOfTwo(mem[o..o + 2]);
      assert mem[o..o + 2][2..] == [];
    }
    if o + 4 <= |mem| {
      LE4(mem, o);
    }
    if o + 8 <= |mem| {
      LEOfFour(mem[o..o + 8]);
      assert mem[o..o + 8][4..] == mem[o + 4..o + 8];
      LE4(mem, o + 4);
    }
  }

  function FourBytes(mem: seq<byte>, o: nat): nat
    requires o + 4 <= |mem|
  {
    mem[o] as int + 0x100 * mem[o + 1] as int + 0x1_0000 * mem[o + 2] as int + 0x100_0000 * mem[o + 3] as int
  }

  /** ... and what byte `j` of the buffer is after each store in bounds. */
  lemma LinearStoreSpelledOut(mem: seq<byte>, base: nat, addr: nat, v: nat, j: nat)
    requires base <= addr && j < |mem|
    ensures var o := addr - base; var k := if j < o then 8 else j - o;
            && (o + 1 <= |mem| ==> LinearWrite(mem, base, addr, W8, v)[j] == StoredByte(v, 1, k, mem[j]))
            && (o + 2 <= |mem| ==> LinearWrite(mem, base, addr, W16, v)[j] == StoredByte(v, 2, k, mem[j]))
            && (o + 4 <= |mem| ==> LinearWrite(mem, base, addr, W32, v)[j] == StoredByte(v, 4, k, mem[j]))
            && (o + 8 <= |mem| ==> LinearWrite(mem, base, addr, W64, v)[j] == StoredByte(v, 8, k, mem[j]))
  {
    hide Digits, Pow256;
    var o := addr - base;
    forall n: nat | o <= j < o + n
      ensures Digits(v, n)[j - o] == v / Pow256(j - o) % 256
    {
      DigitAt(v, n, j - o);
    }
  }

  method ReadBytesLinear(mem: array<byte>, addr: nat, n: nat) returns (r: Result<nat, GuestFault>)
    requires addr < U64_SIZE && mem.Length < MAX_LENGTH && n <= 8
    ensures r == if addr + n <= mem.Length then Success(LE(mem[addr..addr + n])) else Failure(OutOfBounds)
  {
    hide LE, Pow256;
    var end := SaturatingAdd(addr, n);
    if end > mem.Length || end < addr {
      return Failure(OutOfBounds);
    }
    var value := 0;
    assert mem[addr..addr] == [];
    LEOfZeros([]);
    for i := 0 to n
      invariant value == LE(mem[addr..addr + i])
    {
      LEAppend(mem[addr..addr + i], mem[addr + i]);
      assert mem[addr..addr + i + 1] == mem[addr..addr + i] + [mem[addr + i]];
      value := value + mem[addr + i] as int * Pow256(i);
    }
    return Success(value);
  }

  method WriteBytesLinear(mem: array<byte>, addr: nat, n: nat, value: nat) returns (r: Result<(), GuestFault>)
    requires addr < U64_SIZE && mem.Length < MAX_LENGTH && n <= 8
    modifies mem
    ensures r == if addr + n <= mem.Length then Success(()) else Failure(OutOfBounds)
    ensures mem[..] == if addr + n <= mem.Length then Overlay(old(mem[..]), addr, Digits(value, n)) else old(mem[..])
  {
    hide Digits, Pow256;
    var end := SaturatingAdd(addr, n);
    if end > mem.Length || end < addr {
      return Failure(OutOfBounds);
    }
    for i := 0 to n
      invariant forall k :: 0 <= k < addr || addr + i <= k < mem.Length ==> mem[k] == old(mem[k])
      invariant forall k :: addr <= k < addr + i ==> mem[k] == Digits(value, n)[k - addr]
    {
      DigitAt(value, n, i);
      mem[addr + i] := value / Pow256(i) % 256;
    }
    return Success(());
  }
}
