/**
 * Memory protection unit programming on the RT1060 board: the region table, the size field found
 * by a shift loop, and the attribute every address ends up with under PMSAv7 (section B3.5 of the
 * ARMv7-M Architecture Reference Manual).
 */
module Mpu {
  import opened Bytes

  type uint32 = x: int | 0 <= x < 0x1_0000_0000

  function Pow2(n: nat): (p: nat)
    ensures p >= 1
  {
    if n == 0 then 1 else 2 * Pow2(n - 1)
  }

  datatype Access = NoAccess | ReadOnly | FullAccess

  /** TEX, S, C and B bits with access permission and execute-never. */
  datatype Attributes = Attributes(xn: bool, access: Access, tex: nat, s: bool, c: bool, b: bool)

  /** A programmed region; `sizeField` is the SIZE field of RASR. */
  datatype Region = Region(base: uint32, attr: Attributes, sizeField: nat) {
    function Size(): nat { Pow2(sizeField + 1) }

    /** The comparator ignores the address bits below the region size. */
    predicate Matches(a: uint32) { a / Size() == base / Size() }
  }

  datatype MemoryType =
    | StronglyOrdered | DeviceShared | Device
    | WriteThrough(shared: bool) | WriteBack(shared: bool) | WriteBackAllocate(shared: bool) | NonCacheable(shared: bool)
    | OtherType

  /** The meaning of the TEX, S, C and B bits. */
  function TypeOf(t: Attributes): MemoryType {
    if t.tex == 0 && !t.c then (if t.b then DeviceShared else StronglyOrdered)
    else if t.tex == 0 then (if t.b then WriteBack(t.s) else WriteThrough(t.s))
    else if t.tex == 1 && !t.c && !t.b then NonCacheable(t.s)
    else if t.tex == 1 && t.c && t.b then WriteBackAllocate(t.s)
    else if t.tex == 2 && !t.c && !t.b then Device
    else OtherType
  }

  // ----- Which region decides

  type Regions = s: seq<Option<Region>> | |s| == 16 witness seq(16, _ => None)

  predicate Hits(regs: Regions, i: nat, a: uint32) {
    i < 16 && regs[i].Some? && regs[i].value.Matches(a)
  }

  /** The private peripheral bus is never looked up in the regions. */
  predicate PrivatePeripheral(a: uint32) { 0xE000_0000 <= a <= 0xE00F_FFFF }

  datatype Resolution = Background | ByRegion(number: nat, attr: Attributes)

  function Highest(regs: Regions, n: nat, a: uint32): Resolution
    requires n <= 16
  {
    if n == 0 then Background
    else if Hits(regs, n - 1, a) then ByRegion(n - 1, regs[n - 1].value.attr)
    else Highest(regs, n - 1, a)
  }

  function Effective(regs: Regions, a: uint32): Resolution {
    if PrivatePeripheral(a) then Background else Highest(regs, 16, a)
  }

  lemma {:induction false} HighestIs(regs: Regions, n: nat, i: nat, a: uint32)
    requires i < n <= 16 && Hits(regs, i, a)
    requires forall j: nat :: i < j < n ==> !Hits(regs, j, a)
    ensures Highest(regs, n, a) == ByRegion(i, regs[i].value.attr)
  {
    if i == n - 1 {
    } else {
      HighestIs(regs, n - 1, i, a);
    }
  }

  // ----- The table

  const NO_ACCESS := Attributes(true, NoAccess, 2, false, false, false)
  const DEVICE := Attributes(false, FullAccess, 2, false, false, false)
  const WRITE_BACK := Attributes(false, FullAccess, 0, false, true, true)
  const FLASH := Attributes(false, ReadOnly, 0, false, true, true)
  const NON_CACHEABLE := Attributes(false, FullAccess, 1, false, false, false)

  /** Regions whose place does not depend on the linker; region 3 only when executing from flash. */
  function Fixed(i: nat, xip: bool): Option<Region> {
    match i
    case 0 => Some(Region(0x0000_0000, NO_ACCESS, 0x1F))
    case 1 => Some(Region(0x8000_0000, DEVICE, 0x1C))
    case 2 => Some(Region(0x6000_0000, DEVICE, 0x1C))
    case 3 => if xip then Some(Region(0x6000_0000, FLASH, 0x16)) else None
    case 4 => Some(Region(0x0000_0000, DEVICE, 0x1D))
    case 5 => Some(Region(0x0000_0000, WRITE_BACK, 0x10))
    case 6 => Some(Region(0x2000_0000, WRITE_BACK, 0x10))
    case 7 => Some(Region(0x2020_0000, WRITE_BACK, 0x12))
    case 8 => Some(Region(0x2028_0000, WRITE_BACK, 0x11))
    case 9 => Some(Region(0x8000_0000, WRITE_BACK, 0x18))
    case 11 => Some(Region(0x4000_0000, DEVICE, 0x15))
    case 12 => Some(Region(0x4200_0000, DEVICE, 0x13))
    case _ => None
  }

  /** The table over a set of disabled regions; `ncache` is region 10. */
  function Table(xip: bool, ncache: Option<Region>): Regions {
    seq(16, i requires 0 <= i < 16 => if i == 10 then ncache else Fixed(i, xip))
  }

  // ----- Size encoding

  lemma Pow2Values()
    ensures Pow2(17) == 0x2_0000 && Pow2(18) == 0x4_0000 && Pow2(19) == 0x8_0000 && Pow2(20) == 0x10_0000
    ensures Pow2(22) == 0x40_0000 && Pow2(23) == 0x80_0000 && Pow2(25) == 0x200_0000
    ensures Pow2(29) == 0x2000_0000 && Pow2(30) == 0x4000_0000 && Pow2(32) == 0x1_0000_0000
  {
    assert Pow2(4) == 16;
    assert Pow2(8) == 16 * Pow2(4);
    assert Pow2(12) == 16 * Pow2(8);
    assert Pow2(16) == 16 * Pow2(12);
    assert Pow2(20) == 16 * Pow2(16);
    assert Pow2(24) == 16 * Pow2(20);
    assert Pow2(28) == 16 * Pow2(24);
    assert Pow2(32) == 16 * Pow2(28);
  }

  lemma {:induction false} Pow2Grows(m: nat, n: nat)
    requires m < n
    ensures Pow2(m) < Pow2(n)
  {
    if m == n - 1 {
    } else {
      Pow2Grows(m, n - 1);
    }
  }

  /** A non-cacheable section the unit can express: a power of two from 32 bytes up, on a multiple of itself. */
  ghost predicate Legal(start: uint32, size: uint32) {
    (exists n: nat :: 5 <= n < 32 && size == Pow2(n)) && size > 0 && start % size == 0
  }

  lemma QuotientBound(x: nat, p: nat)
    requires p >= 1
    ensures x / p > 1 <==> x >= 2 * p
  {}

  lemma ShiftMeaning(size: uint32, i: nat)
    ensures size / Pow2(i) > 1 <==> Pow2(i + 1) <= size
    ensures Pow2(i + 1) <= size ==> i + 1 < 32
  {
    QuotientBound(size, Pow2(i));
    if i + 1 >= 32 {
      Pow2Values();
      if i + 1 > 32 { Pow2Grows(32, i + 1); }
    }
  }

  /** The shift loop: it stops at floor(log2 size), without ever shifting by 32 or more. */
  method Log2(size: uint32) returns (i: nat)
    ensures i < 32
    ensures size >= 1 ==> Pow2(i) <= size < Pow2(i + 1)
    ensures size <= 1 <==> i == 0
  {
    i := 0;
    ShiftMeaning(size, i);
    while size / Pow2(i) > 1
      invariant i < 32 && (i > 0 ==> Pow2(i) <= size && size > 1)
      invariant size / Pow2(i) > 1 <==> Pow2(i + 1) <= size
      decreases 32 - i
    {
      ShiftMeaning(size, i);
      i := i + 1;
      ShiftMeaning(size, i);
    }
  }

  lemma LegalIsExact(start: uint32, size: uint32, i: nat)
    requires size >= 2 && Pow2(i) <= size < Pow2(i + 1) && i < 32
    ensures Legal(start, size) <==> start % size == 0 && size == Pow2(i) && i >= 5
  {
    if Legal(start, size) {
      var n: nat :| 5 <= n < 32 && size == Pow2(n);
      if n < i { Pow2Grows(n, i); } else if n > i + 1 { Pow2Grows(i + 1, n); }
    }
  }

  /** A region 10 as the configuration leaves it: absent, or non-cacheable on an aligned base. */
  ghost predicate Section(ncache: Option<Region>) {
    ncache.Some? ==> ncache.value.attr == NON_CACHEABLE && ncache.value.base % ncache.value.Size() == 0
  }

  // ----- Programming

  class Unit {
    const regs: array<Option<Region>>
    var enabled: bool

    ghost predicate Valid() reads this { regs.Length == 16 }

    constructor ()
      ensures Valid() && !enabled && fresh(regs) && forall i :: 0 <= i < 16 ==> regs[i] == None
    {
      regs := new Option<Region>[16](_ => None);
      enabled := false;
    }

    method Program(number: nat, base: uint32, attr: Attributes, sizeField: nat)
      requires Valid() && number < 16
      modifies regs
      ensures regs[..] == old(regs[..])[number := Some(Region(base, attr, sizeField))]
    {
      regs[number] := Some(Region(base, attr, sizeField));
    }

    method ProgramLow(xip: bool)
      requires Valid()
      modifies regs
      ensures forall i :: 0 <= i < 10 && (i == 3 ==> xip) ==> regs[i] == Fixed(i, xip)
      ensures !xip ==> regs[3] == old(regs[3])
      ensures forall i :: 10 <= i < 16 ==> regs[i] == old(regs[i])
    {
      Program(0, 0x0000_0000, NO_ACCESS, 0x1F);
      Program(1, 0x8000_0000, DEVICE, 0x1C);
      Program(2, 0x6000_0000, DEVICE, 0x1C);
      if xip {
        Program(3, 0x6000_0000, FLASH, 0x16);
      }
      Program(4, 0x0000_0000, DEVICE, 0x1D);
      Program(5, 0x0000_0000, WRITE_BACK, 0x10);
      Program(6, 0x2000_0000, WRITE_BACK, 0x10);
      Program(7, 0x2020_0000, WRITE_BACK, 0x12);
      Program(8, 0x2028_0000, WRITE_BACK, 0x11);
      Program(9, 0x8000_0000, WRITE_BACK, 0x18);
    }

    /**
     * `BOARD_ConfigMPU`. `halted` is a failed assertion, which stops the board with the unit off;
     * a build without assertions programs the section rounded down to a power of two instead.
     * The section is dropped when its size is 0 or 1.
     */
    method ConfigMpu(xip: bool, asserting: bool, start: uint32, size: uint32) returns (halted: bool)
      requires Valid()
      modifies this, regs
      ensures Valid()
      ensures halted <==> asserting && size > 1 && !Legal(start, size)
      ensures enabled == !halted
      ensures !halted && size > 1 ==>
        exists field: nat :: field < 31 && regs[10] == Some(Region(start, NON_CACHEABLE, field)) &&
                             Pow2(field + 1) <= size < Pow2(field + 2) &&
                             (Legal(start, size) ==> Pow2(field + 1) == size && start % size == 0)
      ensures !halted && size <= 1 ==> regs[10] == old(regs[10])
      ensures !halted ==> forall i :: 0 <= i < 16 && i != 10 ==>
        regs[i] == if Fixed(i, xip).Some? then Fixed(i, xip) else old(regs[i])
      ensures !halted && (size <= 1 || Legal(start, size)) && (forall i :: 0 <= i < 16 ==> old(regs[i]) == None) ==>
        Section(regs[10]) && regs[..] == Table(xip, regs[10])
    {
      enabled := false;
      ProgramLow(xip);
      var i := Log2(size);
      if i != 0 {
        LegalIsExact(start, size, i);
        if asserting && (start % size != 0 || size != Pow2(i) || i < 5) {
          return true;
        }
        Program(10, start, NON_CACHEABLE, i - 1);
      }
      Program(11, 0x4000_0000, DEVICE, 0x15);
      Program(12, 0x4200_0000, DEVICE, 0x13);
      enabled := true;
      return false;
    }
  }

  // ----- The resulting memory map

  lemma Ordered(p: nat, x: nat, y: nat)
    requires x <= y
    ensures p * x <= p * y
  {}

  lemma {:induction false} AlignedCovers(r: Region, a: uint32)
    requires r.base % r.Size() == 0
    ensures r.Matches(a) <==> r.base <= a < r.base + r.Size()
  {
    hide Pow2;
    var p := r.Size();
    var x, y := a / p, r.base / p;
    assert a == p * x + a % p && r.base == p * y;
    if x > y { Ordered(p, y + 1, x); } else if x < y { Ordered(p, x + 1, y); }
  }

  lemma Scaled(p: nat, n: nat)
    requires n >= 1
    ensures p * n >= p
  {}

  lemma {:induction false} MultipleQuotient(y: nat, p: nat)
    requires p >= 1
    ensures p * y / p == y
  {
    var q := p * y / p;
    assert p * (y - q) == p * y % p;
    if y > q { Scaled(p, y - q); }
  }

  lemma {:induction false} RoundDown(x: nat, p: nat)
    requires p >= 1
    ensures 0 <= x - x % p && (x - x % p) / p == x / p
  {
    var y := x / p;
    assert x - x % p == p * y;
    assert p * y / p == y by { MultipleQuotient(y, p); }
  }

  lemma MisalignedCoversLess(r: Region)
    requires r.base % r.Size() != 0
    ensures var a := r.base - r.base % r.Size(); 0 <= a < r.base && r.Matches(a)
  {
    RoundDown(r.base, r.Size());
  }

  /** A region covers exactly `[base, base + size)` if and only if its base is a multiple of its size. */
  lemma {:induction false} CoversExactly(r: Region)
    ensures (forall a: uint32 :: r.Matches(a) <==> r.base <= a < r.base + r.Size()) <==> r.base % r.Size() == 0
  {
    if r.base % r.Size() == 0 {
      forall a: uint32 ensures r.Matches(a) <==> r.base <= a < r.base + r.Size() { AlignedCovers(r, a); }
    } else {
      MisalignedCoversLess(r);
    }
  }

  predicate In(a: uint32, base: nat, size: nat) { base <= a < base + size }

  /** Is the address in a region above the non-cacheable one? */
  predicate InPeripherals(a: uint32) { In(a, 0x4000_0000, 0x40_0000) || In(a, 0x4200_0000, 0x10_0000) }

  /** The memory map the configuration is for, by address interval. */
  function MemoryMap(xip: bool, a: uint32): Attributes {
    if In(a, 0x0000_0000, 0x2_0000) || In(a, 0x2000_0000, 0x2_0000) ||
       In(a, 0x2020_0000, 0xC_0000) || In(a, 0x8000_0000, 0x200_0000) then WRITE_BACK
    else if xip && In(a, 0x6000_0000, 0x80_0000) then FLASH
    else if In(a, 0x0000_0000, 0x4000_0000) || In(a, 0x6000_0000, 0x4000_0000) || InPeripherals(a) then DEVICE
    else NO_ACCESS
  }

  /** Size in bytes of a fixed region. */
  function FixedBytes(i: nat): nat {
    match i
    case 0 => 0x1_0000_0000
    case 1 => 0x2000_0000
    case 2 => 0x2000_0000
    case 3 => 0x80_0000
    case 4 => 0x4000_0000
    case 5 => 0x2_0000
    case 6 => 0x2_0000
    case 7 => 0x8_0000
    case 8 => 0x4_0000
    case 9 => 0x200_0000
    case 11 => 0x40_0000
    case 12 => 0x10_0000
    case _ => 0
  }

  lemma {:induction false} FixedIntervals(xip: bool, i: nat, a: uint32)
    requires i < 16 && Fixed(i, xip).Some?
    ensures var r := Fixed(i, xip).value; r.Matches(a) <==> In(a, r.base, FixedBytes(i))
  {
    hide Pow2;
    var r := Fixed(i, xip).value;
    Pow2Values();
    assert r.Size() == FixedBytes(i) && r.base % FixedBytes(i) == 0;
    AlignedCovers(r, a);
  }

  predicate InSection(ncache: Option<Region>, a: uint32) {
    ncache.Some? && In(a, ncache.value.base, ncache.value.Size())
  }

  lemma {:induction false} TableHits(xip: bool, ncache: Option<Region>, i: nat, a: uint32)
    requires Section(ncache) && i < 16
    ensures Hits(Table(xip, ncache), i, a) <==>
      if i == 10 then InSection(ncache, a)
      else Fixed(i, xip).Some? && In(a, Fixed(i, xip).value.base, FixedBytes(i))
  {
    if i == 10 {
      if ncache.Some? { AlignedCovers(ncache.value, a); }
    } else if Fixed(i, xip).Some? {
      FixedIntervals(xip, i, a);
    }
  }

  /** The number of the region that decides an address. */
  function Decider(xip: bool, ncache: Option<Region>, a: uint32): nat {
    if In(a, 0x4200_0000, 0x10_0000) then 12
    else if In(a, 0x4000_0000, 0x40_0000) then 11
    else if InSection(ncache, a) then 10
    else if In(a, 0x8000_0000, 0x200_0000) then 9
    else if In(a, 0x2028_0000, 0x4_0000) then 8
    else if In(a, 0x2020_0000, 0x8_0000) then 7
    else if In(a, 0x2000_0000, 0x2_0000) then 6
    else if In(a, 0x0000_0000, 0x2_0000) then 5
    else if In(a, 0x0000_0000, 0x4000_0000) then 4
    else if xip && In(a, 0x6000_0000, 0x80_0000) then 3
    else if In(a, 0x6000_0000, 0x2000_0000) then 2
    else if In(a, 0x8000_0000, 0x2000_0000) then 1
    else 0
  }

  lemma DeciderDecides(xip: bool, ncache: Option<Region>, a: uint32)
    requires Section(ncache)
    ensures var regs, i := Table(xip, ncache), Decider(xip, ncache, a);
      Highest(regs, 16, a) == ByRegion(i, regs[i].value.attr)
  {
    var regs, i := Table(xip, ncache), Decider(xip, ncache, a);
    forall j: nat | i <= j < 16 ensures Hits(regs, j, a) <==> j == i {
      TableHits(xip, ncache, j, a);
    }
    HighestIs(regs, 16, i, a);
  }

  /**
   * The effective map, for every address outside the private peripheral bus and every legal
   * section: some region always decides, the section is normal non-cacheable memory outside the
   * two peripheral windows above it, and no address outside the section is affected by it.
   */
  lemma EffectiveMap(xip: bool, ncache: Option<Region>, a: uint32)
    requires Section(ncache) && !PrivatePeripheral(a)
    ensures var e := Effective(Table(xip, ncache), a);
      && e.ByRegion?
      && e.attr == (if InSection(ncache, a) && !InPeripherals(a) then NON_CACHEABLE else MemoryMap(xip, a))
      && (InSection(ncache, a) && !InPeripherals(a) ==> TypeOf(e.attr) == NonCacheable(false))
      && (!InSection(ncache, a) ==> e == Effective(Table(xip, None), a))
  {
    DeciderDecides(xip, ncache, a);
    DeciderDecides(xip, None, a);
  }

  // ----- The map spelled out

  /** The section lies at `[start, start + size)`. */
  predicate Covers(ncache: Option<Region>, a: uint32) {
    ncache.Some? && ncache.value.base <= a < ncache.value.base + Pow2(ncache.value.sizeField + 1)
  }

  predicate IsPeripheral(a: uint32) { 0x4000_0000 <= a < 0x4040_0000 || 0x4200_0000 <= a < 0x4210_0000 }

  predicate IsRam(a: uint32) {
    || 0x0000_0000 <= a < 0x0002_0000 || 0x2000_0000 <= a < 0x2002_0000
    || 0x2020_0000 <= a < 0x202C_0000 || 0x8000_0000 <= a < 0x8200_0000
  }

  predicate IsFlash(a: uint32) { 0x6000_0000 <= a < 0x6080_0000 }

  predicate IsDevice(a: uint32) { a < 0x4000_0000 || 0x6000_0000 <= a < 0xA000_0000 }

  /**
   * What the program may do at each address, in the register bits and in what they mean: the two
   * peripheral windows and the rest of the device space are full-access device memory, the section
   * is full-access non-cacheable memory, the four RAM windows are full-access write-back memory,
   * the flash is read-only write-back memory when executing from it, and everything else is neither
   * readable, writable nor executable.
   */
  lemma AttributesByAddress(xip: bool, ncache: Option<Region>, a: uint32)
    requires Section(ncache) && !(0xE000_0000 <= a <= 0xE00F_FFFF)
    ensures Effective(Table(xip, ncache), a).ByRegion?
    ensures var t := Effective(Table(xip, ncache), a).attr;
      if IsPeripheral(a) then
        t == Attributes(false, FullAccess, 2, false, false, false) && TypeOf(t) == Device
      else if Covers(ncache, a) then
        t == Attributes(false, FullAccess, 1, false, false, false) && TypeOf(t) == NonCacheable(false)
      else if IsRam(a) then
        t == Attributes(false, FullAccess, 0, false, true, true) && TypeOf(t) == WriteBack(false)
      else if xip && IsFlash(a) then
        t == Attributes(false, ReadOnly, 0, false, true, true) && TypeOf(t) == WriteBack(false)
      else if IsDevice(a) then
        t == Attributes(false, FullAccess, 2, false, false, false) && TypeOf(t) == Device
      else
        t == Attributes(true, NoAccess, 2, false, false, false)
  {
    hide Pow2;
    EffectiveMap(xip, ncache, a);
  }

  /** The private peripheral bus keeps the default map, whatever the regions say. */
  lemma PrivateBusIsBackground(regs: Regions, a: uint32)
    ensures Effective(regs, a) == Background || !(0xE000_0000 <= a <= 0xE00F_FFFF)
  {}
}
