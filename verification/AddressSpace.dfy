/** The memory bus: routes accesses to RAM or to MMIO handlers, whose calls it records.
    A handler's own `fill` is the default one, a write per unit. */
module AddressSpace {
  import opened Machine
  import opened StableOrder
  import opened MmioBus
  import GuestMemory

  const ADDRESS_LIMIT: nat := 0x1_0000_0000_0000_0000

  function Narrow(value: u64, size: nat): u64 {
    if size == 1 then value & 0xFF
    else if size == 2 then value & 0xFFFF
    else if size == 4 then value & 0xFFFF_FFFF
    else value
  }

  /** The value fits the width. */
  predicate Fits(value: u64, size: nat) {
    && (size == 1 ==> value < 0x100)
    && (size == 2 ==> value < 0x1_0000)
    && (size == 4 ==> value < 0x1_0000_0000)
  }

  /** Cutting a value to a width takes it modulo the width's range. */
  lemma NarrowIsRemainder(value: u64)
    ensures Narrow(value, 1) == value % 0x100
    ensures Narrow(value, 2) == value % 0x1_0000
    ensures Narrow(value, 4) == value % 0x1_0000_0000
    ensures Narrow(value, 8) == value
  {
  }

  lemma ByteKept(value: u64)
    ensures value & 0xFF == value <==> value < 0x100
  {
  }

  lemma HalfKept(value: u64)
    ensures value & 0xFFFF == value <==> value < 0x1_0000
  {
  }

  lemma WordKept(value: u64)
    ensures value & 0xFFFF_FFFF == value <==> value < 0x1_0000_0000
  {
  }

  /** So it changes exactly the values that do not fit. */
  lemma NarrowKeepsIff(value: u64, size: nat)
    requires IsWidth(size)
    ensures Narrow(value, size) == value <==> Fits(value, size)
  {
    if size == 1 {
      ByteKept(value);
    } else if size == 2 {
      HalfKept(value);
    } else if size == 4 {
      WordKept(value);
    }
  }

  /** What a RAM write of the width stores; other widths store nothing. */
  function UnitBytes(value: u64, size: nat): seq<u8> {
    if size == 1 then [Low8(value)]
    else if size == 2 then Le16((value & 0xFFFF) as u16)
    else if size == 4 then Le32(Low32(value))
    else if size == 8 then Le64(value)
    else []
  }

  /** The fast path of a fill stores the low bytes of the value, for widths up to 8. */
  function UnitOf(value: u64, size: nat): Unit<u64, u8> {
    Unit(size, value, Narrow(value, size), UnitBytes(value, size), LowBytes(value, size))
  }

  lemma BulkStoresUnits(value: u64, size: nat)
    requires IsWidth(size)
    ensures |UnitBytes(value, size)| == size && LowBytes(value, size) == UnitBytes(value, size)
  {
  }

  /** What the fill of a handler reports, for a target, a count and a unit size; the default
      fill reports the count. */
  type Reports = (Target, nat, nat) -> nat

  class AddressSpace {
    const ram: GuestMemory.PhysicalMemory
    const reports: Reports
    var regions: seq<Region>
    var calls: seq<Call<u64>>

    constructor (ram: GuestMemory.PhysicalMemory, reports: Reports)
      ensures this.ram == ram && this.reports == reports && regions == AfterPushes([], ByStart()) && calls == []
    {
      this.ram := ram;
      this.reports := reports;
      regions := [];
      calls := [];
    }

    ghost function State(): Bus<u64, u8>
      reads this, ram.ram
    {
      Bus(ram.ram[..], calls)
    }

    method RegisterMmio(start: nat, size: nat, handler: Handler)
      modifies this`regions
      ensures regions == Sort(old(regions) + [Region(start, size, handler)], ByStart())
    {
      regions := regions + [Region(start, size, handler)];
      regions := Sort(regions, ByStart());
    }

    method Find(addr: nat) returns (target: Option<Target>)
      ensures target == FindMmio(regions, addr)
    {
      for i := 0 to |regions|
        invariant FindMmio(regions, addr) == FindMmio(regions[i..], addr)
      {
        assert regions[i..][1..] == regions[i + 1..];
        if Contains(regions[i], addr) {
          return Some(Target(regions[i].handler, addr - regions[i].start));
        }
      }
      return None;
    }

    /** A RAM write of the width; other widths do nothing. */
    method StoreInRam(addr: nat, value: u64, size: nat)
      requires IsWidth(size) ==> addr + size <= ram.ram.Length
      modifies ram.ram
      ensures IsWidth(size) ==> |UnitBytes(value, size)| == size
      ensures ram.ram[..] ==
        if IsWidth(size) then Patch(old(ram.ram[..]), addr, UnitBytes(value, size)) else old(ram.ram[..])
    {
      if size == 1 {
        ram.WriteU8(addr, Low8(value));
      } else if size == 2 {
        ram.WriteU16(addr, (value & 0xFFFF) as u16);
      } else if size == 4 {
        ram.WriteU32(addr, Low32(value));
      } else if size == 8 {
        ram.WriteU64(addr, value);
      }
    }

    /** `write_u8`, `write_u16`, `write_u32` and `write_u64`: the value is cut to the width first. */
    method Write(addr: nat, value: u64, size: nat)
      requires IsWidth(size)
      requires FindMmio(regions, addr).None? ==> addr + size <= ram.ram.Length
      modifies this`calls, ram.ram
      ensures |UnitBytes(value, size)| == size
      ensures State() ==
        RouteTo(old(State()), FindMmio(regions, addr), addr, size, Narrow(value, size), UnitBytes(value, size))
    {
      BulkStoresUnits(value, size);
      var target := Find(addr);
      if target.Some? {
        calls := calls + [Call(target.value.handler, target.value.offset, size, Narrow(value, size))];
      } else {
        StoreInRam(addr, value, size);
      }
    }

    method Fill(start: nat, value: u64, count: nat, size: nat) returns (written: nat)
      requires At(start, count, size) < ADDRESS_LIMIT
      requires count > 0 && FindMmio(regions, start).None? ==> size <= 8
      requires FillDefined(regions, ram.ram.Length, start, UnitOf(value, size), count)
      modifies this`calls, ram.ram
      ensures written ==
        if count > 0 && SameHandlerAtEnd(regions, start, count, size)
        then reports(FindMmio(regions, start).value, count, size) else count
      ensures State() == MmioBus.Fill(regions, old(State()), start, UnitOf(value, size), count)
    {
      if count == 0 {
        return 0;
      }
      var end := start + count * size;
      var first := Find(start);
      if first.Some? {
        var last := Find(if end == 0 then 0 else end - 1);
        if last.Some? && first.value.handler == last.value.handler {
          written := FillHandler(first.value, value, count, size);
          return;
        } else {
          FillUnits(start, value, count, size);
        }
      } else {
        FillRam(start, value, count, size);
      }
      return count;
    }

    /** The default `fill` of a handler. */
    method FillHandler(t: Target, value: u64, count: nat, size: nat) returns (written: nat)
      modifies this`calls
      ensures written == reports(t, count, size)
      ensures calls == old(calls) + HandlerFill(t, size, value, count)
    {
      for i := 0 to count
        invariant calls == old(calls) + HandlerFill(t, size, value, i)
      {
        calls := calls + [Call(t.handler, t.offset + i * size, size, value)];
      }
      written := reports(t, count, size);
    }

    /** The path for a range that crosses regions: handlers get the value as given. */
    method FillUnits(start: nat, value: u64, count: nat, size: nat)
      requires InRam(regions, ram.ram.Length, start, count, UnitOf(value, size))
      modifies this`calls, ram.ram
      ensures State() == Writes(regions, old(State()), start, UnitOf(value, size), value, count)
    {
      for i := 0 to count
        invariant State() == Writes(regions, old(State()), start, UnitOf(value, size), value, i)
      {
        var addr := start + i * size;
        assert addr == At(start, i, size);
        var target := Find(addr);
        if target.Some? {
          calls := calls + [Call(target.value.handler, target.value.offset, size, value)];
        } else {
          StoreInRam(addr, value, size);
        }
      }
    }

    /** The RAM fast path: one copy of the unit's bytes per chunk of the slice. */
    method FillRam(start: nat, value: u64, count: nat, size: nat)
      requires size <= 8 && At(start, count, size) <= ram.ram.Length
      modifies ram.ram
      ensures At(start, count, |LowBytes(value, size)|) <= ram.ram.Length
      ensures ram.ram[..] == Patch(old(ram.ram[..]), start, Repeat(LowBytes(value, size), count))
    {
      ghost var before := ram.ram[..];
      var bytes := LowBytes(value, size);
      for i := 0 to count
        invariant i <= count && |Repeat(bytes, i)| <= |Repeat(bytes, count)|
        invariant ram.ram[..] == Patch(before, start, Repeat(bytes, i))
      {
        UnitFits(start, i, count, size);
        StoreAt(ram.ram, start + i * size, bytes);
        PatchAdjacent(before, start, Repeat(bytes, i), bytes);
      }
    }
  }

  /** For the four access widths and regions that share no address and no handler: a fill has
      the effect of single writes exactly when it starts in MMIO with a value that fits the
      width, or none of its units is in MMIO. */
  lemma FillMeansSingleWrites(regions: seq<Region>, bus: Bus<u64, u8>, start: nat, value: u64, count: nat, size: nat)
    requires Separate(regions) && IsWidth(size)
    requires InRam(regions, |bus.ram|, start, count, UnitOf(value, size))
    ensures
      var u := UnitOf(value, size);
      FillDefined(regions, |bus.ram|, start, u, count) &&
      MmioBus.Fill(regions, bus, start, u, count) == Singles(regions, bus, start, u, count) <==>
      count == 0 ||
      (if FindMmio(regions, start).Some? then Fits(value, size) else AllRam(regions, start, size, count))
  {
    NarrowKeepsIff(value, size);
    BulkStoresUnits(value, size);
    FillOnSeparateRegions(regions, bus, start, UnitOf(value, size), count);
  }

  // ---- Each part of that condition is needed ----

  /** Single byte writes of the value would all succeed, and the fill panics or differs from them. */
  ghost predicate FillFails(regions: seq<Region>, bus: Bus<u64, u8>, start: nat, value: u64, count: nat) {
    var u := UnitOf(value, 1);
    && InRam(regions, |bus.ram|, start, count, u)
    && !(FillDefined(regions, |bus.ram|, start, u, count) &&
         MmioBus.Fill(regions, bus, start, u, count) == Singles(regions, bus, start, u, count))
  }

  lemma FailsUnlessExact(regions: seq<Region>, bus: Bus<u64, u8>, start: nat, value: u64, count: nat)
    requires InRam(regions, |bus.ram|, start, count, UnitOf(value, 1))
    requires !FillIsExact(regions, |bus.ram|, start, UnitOf(value, 1), count)
    ensures FillFails(regions, bus, start, value, count)
  {
    BulkStoresUnits(value, 1);
    FillEqualsSinglesIff(regions, bus, start, UnitOf(value, 1), count);
  }

  lemma FiveFits()
    ensures Narrow(5, 1) == 5 && UnitBytes(5, 1) == [5]
  {
  }

  lemma SecondByteInMmio(regions: seq<Region>, bus: Bus<u64, u8>, start: nat, value: u64, t: Target)
    requires start + 2 <= |bus.ram| && FindMmio(regions, start) == None && FindMmio(regions, start + 1) == Some(t)
    ensures FillFails(regions, bus, start, value, 2) && FillDefined(regions, |bus.ram|, start, UnitOf(value, 1), 2)
    ensures MmioBus.Fill(regions, bus, start, UnitOf(value, 1), 2).calls == bus.calls
    ensures Singles(regions, bus, start, UnitOf(value, 1), 2).calls ==
            bus.calls + [Call(t.handler, t.offset, 1, Narrow(value, 1))]
  {
    var u := UnitOf(value, 1);
    BulkStoresUnits(value, 1);
    AtByte(start, 0, 1);
    AtByte(start, 1, 1);
    AtByte(start, 2, 1);
    assert FindMmio(regions, At(start, 1, 1)).Some?;
    FailsUnlessExact(regions, bus, start, value, 2);
    WritesOfTwo(regions, bus, start, u, u.narrow, t);
  }

  /** Two bytes of RAM with a region over the second: the fill runs over it and calls no
      handler, where single writes make one call. */
  lemma FillSkipsHandler() returns (regions: seq<Region>, bus: Bus<u64, u8>)
    ensures Separate(regions) && FillDefined(regions, |bus.ram|, 0, UnitOf(5, 1), 2)
    ensures FillFails(regions, bus, 0, 5, 2)
    ensures MmioBus.Fill(regions, bus, 0, UnitOf(5, 1), 2).calls == []
    ensures Singles(regions, bus, 0, UnitOf(5, 1), 2).calls == [Call(7, 0, 1, 5)]
  {
    regions, bus := [Region(1, 1, 7)], Bus([0, 0], []);
    FiveFits();
    SecondByteInMmio(regions, bus, 0, 5, Target(7, 0));
  }

  /** The same with the region past the end of RAM: single writes succeed and the fill panics. */
  lemma FillPanicsPastRam() returns (regions: seq<Region>, bus: Bus<u64, u8>)
    ensures Separate(regions) && !FillDefined(regions, |bus.ram|, 0, UnitOf(5, 1), 2)
    ensures FillFails(regions, bus, 0, 5, 2)
  {
    regions, bus := [Region(1, 1, 7)], Bus([0], []);
    BulkStoresUnits(5, 1);
    assert FindMmio(regions, At(0, 1, 1)).Some?;
    FailsUnlessExact(regions, bus, 0, 5, 2);
  }

  lemma NarrowingLoses()
    ensures Narrow(0x100, 1) == 0
  {
  }

  lemma WideByteInMmio(regions: seq<Region>, bus: Bus<u64, u8>, start: nat, value: u64, t: Target)
    requires FindMmio(regions, start) == Some(t) && Narrow(value, 1) != value
    ensures FillFails(regions, bus, start, value, 1) && FillDefined(regions, |bus.ram|, start, UnitOf(value, 1), 1)
    ensures MmioBus.Fill(regions, bus, start, UnitOf(value, 1), 1).calls ==
            bus.calls + [Call(t.handler, t.offset, 1, value)]
    ensures Singles(regions, bus, start, UnitOf(value, 1), 1).calls ==
            bus.calls + [Call(t.handler, t.offset, 1, Narrow(value, 1))]
  {
    var u := UnitOf(value, 1);
    AtByte(start, 0, 1);
    FailsUnlessExact(regions, bus, start, value, 1);
    FillByHandler(regions, bus, start, u, t, 1);
    ByteCall(t, value, 1, 0);
    WritesOfOne(regions, bus, start, u, u.narrow, t);
  }

  /** A value wider than the unit reaches a handler whole from a fill, and cut from a write. */
  lemma FillKeepsWideValue() returns (regions: seq<Region>, bus: Bus<u64, u8>)
    ensures Separate(regions) && FillDefined(regions, |bus.ram|, 0, UnitOf(0x100, 1), 1)
    ensures FillFails(regions, bus, 0, 0x100, 1)
    ensures MmioBus.Fill(regions, bus, 0, UnitOf(0x100, 1), 1).calls == [Call(7, 0, 1, 0x100)]
    ensures Singles(regions, bus, 0, UnitOf(0x100, 1), 1).calls == [Call(7, 0, 1, 0)]
  {
    regions, bus := [Region(0, 1, 7)], Bus([], []);
    NarrowingLoses();
    WideByteInMmio(regions, bus, 0, 0x100, Target(7, 0));
  }

  lemma RamBetweenMmio(regions: seq<Region>, bus: Bus<u64, u8>, value: u64, t: Target)
    requires FindMmio(regions, 0) == Some(t) && FindMmio(regions, 1) == None && FindMmio(regions, 2) == Some(t)
    requires |bus.ram| >= 2
    ensures FillFails(regions, bus, 0, value, 3) && FillDefined(regions, |bus.ram|, 0, UnitOf(value, 1), 3)
    ensures |UnitBytes(value, 1)| == 1
    ensures MmioBus.Fill(regions, bus, 0, UnitOf(value, 1), 3) == bus.(calls := bus.calls +
      [Call(t.handler, t.offset, 1, value),
       Call(t.handler, t.offset + 1, 1, value),
       Call(t.handler, t.offset + 2, 1, value)])
    ensures
      var call := Call(t.handler, t.offset, 1, Narrow(value, 1));
      Singles(regions, bus, 0, UnitOf(value, 1), 3) ==
      Bus(Patch(bus.ram, 1, UnitBytes(value, 1)), bus.calls + [call, call])
  {
    var u := UnitOf(value, 1);
    BulkStoresUnits(value, 1);
    SplitIsNotExact(regions, |bus.ram|, u, t);
    FailsUnlessExact(regions, bus, 0, value, 3);
    FillByHandler(regions, bus, 0, u, t, 3);
    ThreeByteCalls(t, value);
    WritesOfSplit(regions, bus, 0, u, u.narrow, t);
  }

  /** What goes wrong for regions that have RAM between two places of one handler. */
  ghost predicate SwallowsMiddle(regions: seq<Region>, bus: Bus<u64, u8>) {
    var u := UnitOf(5, 1);
    && FillFails(regions, bus, 0, 5, 3) && FillDefined(regions, |bus.ram|, 0, u, 3)
    && MmioBus.Fill(regions, bus, 0, u, 3) ==
         Bus([0, 0, 0], [Call(7, 0, 1, 5), Call(7, 1, 1, 5), Call(7, 2, 1, 5)])
    && Singles(regions, bus, 0, u, 3) == Bus([0, 5, 0], [Call(7, 0, 1, 5), Call(7, 0, 1, 5)])
  }

  lemma MiddleIsSwallowed(regions: seq<Region>, bus: Bus<u64, u8>)
    requires FindMmio(regions, 0) == Some(Target(7, 0)) && FindMmio(regions, 1) == None
    requires FindMmio(regions, 2) == Some(Target(7, 0)) && bus == Bus([0, 0, 0], [])
    ensures SwallowsMiddle(regions, bus)
  {
    FiveFits();
    RamBetweenMmio(regions, bus, 5, Target(7, 0));
    var five: seq<u8> := [5];
    assert Patch(bus.ram, 1, five) == [0, 5, 0];
  }

  /** One handler at both ends and RAM in between: the fill gives the handler the middle byte
      too, at offsets past its first region, where single writes store that byte in RAM. */
  lemma FillSwallowsMiddle() returns (bus: Bus<u64, u8>)
    ensures SwallowsMiddle(Straddled(), bus)
  {
    bus := Bus([0, 0, 0], []);
    StraddledLookups();
    MiddleIsSwallowed(Straddled(), bus);
  }
}
