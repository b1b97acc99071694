/** The memory bus as a value: RAM bytes of type `B`, and the calls made to MMIO handlers
    with values of type `V`. A bulk fill is compared here with single writes. */
module MmioBus {
  import opened Machine
  import opened StableOrder

  type Handler = nat

  datatype Region = Region(start: nat, size: nat, handler: Handler)

  datatype Call<V> = Call(handler: Handler, offset: nat, size: nat, value: V)

  datatype Bus<V, B> = Bus(ram: seq<B>, calls: seq<Call<V>>)

  /** What storing one unit hands on: `whole` is the value as given, `narrow` the value cut
      to the unit, `bytes` what a RAM write of the unit stores, and `bulk` what the RAM
      fast path of a fill stores. */
  datatype Unit<V, B> = Unit(size: nat, whole: V, narrow: V, bytes: seq<B>, bulk: seq<B>)

  /** The access widths of the bus. */
  predicate IsWidth(size: nat) {
    size == 1 || size == 2 || size == 4 || size == 8
  }

  predicate Contains(r: Region, addr: nat) {
    r.start <= addr < r.start + r.size
  }

  function Containing(addr: nat): Region -> bool {
    (r: Region) => Contains(r, addr)
  }

  datatype Target = Target(handler: Handler, offset: nat)

  /** The first region of the list that contains the address, with the offset in it. */
  function FindMmio(regions: seq<Region>, addr: nat): Option<Target> {
    var m := FirstMatch(regions, Containing(addr));
    if m.None? then None else Some(Target(m.value.handler, addr - m.value.start))
  }

  /** The address of unit `i`. */
  function At(start: nat, i: nat, size: nat): nat {
    start + i * size
  }

  lemma UnitFits(start: nat, i: nat, count: nat, size: nat)
    requires i < count
    ensures At(start, i, size) + size == At(start, i + 1, size) <= At(start, count, size)
  {
    assert (i + 1) * size <= count * size;
  }

  // ---- Registration ----

  function ByStart(): Region -> int {
    (r: Region) => r.start
  }

  /** Registration `i` of a history serves the address: it contains it, no other that does
      starts lower, and none with the same start was registered earlier. */
  ghost predicate Serves(history: seq<Region>, i: nat, addr: nat) {
    && i < |history| && history[i].start <= addr < history[i].start + history[i].size
    && forall j :: 0 <= j < |history| && history[j].start <= addr < history[j].start + history[j].size ==>
         history[i].start < history[j].start || (history[i].start == history[j].start && i <= j)
  }

  /** After any registrations, overlapping or not, the lookup answers for the one that serves. */
  lemma LookupAfterRegistrations(history: seq<Region>, addr: nat)
    ensures
      var found := FindMmio(AfterPushes(history, ByStart()), addr);
      if found.None? then
        forall i :: 0 <= i < |history| ==> !(history[i].start <= addr < history[i].start + history[i].size)
      else exists i: nat :: Serves(history, i, addr) &&
             found.value == Target(history[i].handler, addr - history[i].start)
  {
    var p, key := Containing(addr), ByStart();
    FirstMatchIsBest(history, p, key);
    var m := FirstMatch(AfterPushes(history, key), p);
    if m.Some? {
      var i: nat :| IsBest(history, p, key, i) && history[i] == m.value;
      forall j | 0 <= j < |history| && Contains(history[j], addr)
        ensures history[i].start < history[j].start || (history[i].start == history[j].start && i <= j)
      {
        assert p(history[j]);
      }
      assert Serves(history, i, addr);
    } else {
      assert forall i :: 0 <= i < |history| ==> !p(history[i]);
    }
  }

  // ---- Single writes ----

  function RouteTo<V, B>(bus: Bus<V, B>, target: Option<Target>, addr: nat, size: nat, value: V,
                         bytes: seq<B>): Bus<V, B>
    requires target.None? && bytes != [] ==> addr + |bytes| <= |bus.ram|
  {
    match target
    case Some(t) => bus.(calls := bus.calls + [Call(t.handler, t.offset, size, value)])
    case None => if bytes == [] then bus else bus.(ram := Patch(bus.ram, addr, bytes))
  }

  /** Every unit that is stored in RAM lies in RAM. */
  ghost predicate InRam(regions: seq<Region>, ramSize: nat, start: nat, count: nat, u: Unit) {
    forall i :: 0 <= i < count && u.bytes != [] && FindMmio(regions, At(start, i, u.size)).None? ==>
      At(start, i, u.size) + |u.bytes| <= ramSize
  }

  /** `count` successive unit writes that hand `value` to the handlers. */
  function Writes<V, B>(regions: seq<Region>, bus: Bus<V, B>, start: nat, u: Unit<V, B>, value: V,
                        count: nat): (r: Bus<V, B>)
    requires InRam(regions, |bus.ram|, start, count, u)
    ensures |r.ram| == |bus.ram|
  {
    if count == 0 then bus
    else
      var before := Writes(regions, bus, start, u, value, count - 1);
      var addr := At(start, count - 1, u.size);
      RouteTo(before, FindMmio(regions, addr), addr, u.size, value, u.bytes)
  }

  /** Single writes cut the value to the unit before they route it. */
  function Singles<V, B>(regions: seq<Region>, bus: Bus<V, B>, start: nat, u: Unit<V, B>, count: nat): Bus<V, B>
    requires InRam(regions, |bus.ram|, start, count, u)
  {
    Writes(regions, bus, start, u, u.narrow, count)
  }

  // ---- Bulk fill ----

  function Repeat<B>(bytes: seq<B>, count: nat): (r: seq<B>)
    ensures |r| == count * |bytes|
  {
    if count == 0 then [] else Repeat(bytes, count - 1) + bytes
  }

  /** The default handler `fill`: one write per unit. */
  function HandlerFill<V>(t: Target, size: nat, value: V, count: nat): (r: seq<Call<V>>)
    ensures |r| == count
    ensures forall i :: 0 <= i < count ==> r[i] == Call(t.handler, At(t.offset, i, size), size, value)
  {
    if count == 0 then []
    else HandlerFill(t, size, value, count - 1) + [Call(t.handler, At(t.offset, count - 1, size), size, value)]
  }

  /** The byte whose handler is compared with that of the first byte. */
  function LastByte(start: nat, count: nat, size: nat): nat {
    var end := At(start, count, size);
    if end == 0 then 0 else end - 1
  }

  predicate SameHandlerAtEnd(regions: seq<Region>, start: nat, count: nat, size: nat) {
    var first, last := FindMmio(regions, start), FindMmio(regions, LastByte(start, count, size));
    first.Some? && last.Some? && first.value.handler == last.value.handler
  }

  /** The fill does not panic: its RAM fast path asks for the whole range, the other paths
      only for the units that go to RAM. */
  ghost predicate FillDefined(regions: seq<Region>, ramSize: nat, start: nat, u: Unit, count: nat) {
    count > 0 ==>
      if FindMmio(regions, start).None? then At(start, count, |u.bulk|) <= ramSize
      else SameHandlerAtEnd(regions, start, count, u.size) || InRam(regions, ramSize, start, count, u)
  }

  function Fill<V, B>(regions: seq<Region>, bus: Bus<V, B>, start: nat, u: Unit<V, B>, count: nat): Bus<V, B>
    requires FillDefined(regions, |bus.ram|, start, u, count)
  {
    if count == 0 then bus
    else
      var first := FindMmio(regions, start);
      if first.None? then bus.(ram := Patch(bus.ram, start, Repeat(u.bulk, count)))
      else if SameHandlerAtEnd(regions, start, count, u.size) then
        bus.(calls := bus.calls + HandlerFill(first.value, u.size, u.whole, count))
      else Writes(regions, bus, start, u, u.whole, count)
  }

  // ---- When a fill is the same as single writes ----

  /** The calls that a series of unit writes makes. */
  function Log<V>(regions: seq<Region>, start: nat, size: nat, value: V, count: nat): seq<Call<V>> {
    if count == 0 then []
    else
      var t := FindMmio(regions, At(start, count - 1, size));
      Log(regions, start, size, value, count - 1) +
      if t.Some? then [Call(t.value.handler, t.value.offset, size, value)] else []
  }

  lemma {:induction false} WritesLog<V, B>(regions: seq<Region>, bus: Bus<V, B>, start: nat, u: Unit<V, B>,
                                           value: V, count: nat)
    requires InRam(regions, |bus.ram|, start, count, u)
    ensures Writes(regions, bus, start, u, value, count).calls == bus.calls + Log(regions, start, u.size, value, count)
  {
    if count > 0 {
      WritesLog(regions, bus, start, u, value, count - 1);
    }
  }

  /** The units below `count` all go to RAM. */
  ghost predicate AllRam(regions: seq<Region>, start: nat, size: nat, count: nat) {
    forall i :: 0 <= i < count ==> FindMmio(regions, At(start, i, size)).None?
  }

  /** Unit `i` goes to the handler of `t`, at the offset that lies `i` units further. */
  ghost predicate AllAt(regions: seq<Region>, start: nat, size: nat, t: Target, count: nat) {
    forall i :: 0 <= i < count ==>
      FindMmio(regions, At(start, i, size)) == Some(Target(t.handler, At(t.offset, i, size)))
  }

  lemma {:induction false} LogEmptyIff<V>(regions: seq<Region>, start: nat, size: nat, value: V, count: nat)
    ensures Log(regions, start, size, value, count) == [] <==> AllRam(regions, start, size, count)
    ensures |Log(regions, start, size, value, count)| <= count
  {
    if count > 0 {
      LogEmptyIff(regions, start, size, value, count - 1);
    }
  }

  lemma {:induction false} LogOfConsecutive<V>(regions: seq<Region>, start: nat, size: nat, t: Target,
                                               value: V, count: nat)
    requires AllAt(regions, start, size, t, count)
    ensures Log(regions, start, size, value, count) == HandlerFill(t, size, value, count)
  {
    if count > 0 {
      LogOfConsecutive(regions, start, size, t, value, count - 1);
    }
  }

  lemma {:induction false} FillLogIsConsecutive<V>(regions: seq<Region>, start: nat, size: nat, t: Target,
                                                   narrow: V, whole: V, count: nat)
    requires Log(regions, start, size, narrow, count) == HandlerFill(t, size, whole, count)
    ensures AllAt(regions, start, size, t, count) && (count > 0 ==> narrow == whole)
  {
    if count > 0 {
      var log, fill := Log(regions, start, size, narrow, count), HandlerFill(t, size, whole, count);
      var init, at := Log(regions, start, size, narrow, count - 1), FindMmio(regions, At(start, count - 1, size));
      LogEmptyIff(regions, start, size, narrow, count - 1);
      assert at.Some? && |init| == count - 1;
      assert log[count - 1] == fill[count - 1];
      assert init == log[..count - 1] == fill[..count - 1] == HandlerFill(t, size, whole, count - 1);
      FillLogIsConsecutive(regions, start, size, t, narrow, whole, count - 1);
    }
  }

  lemma {:induction false} LogStartsWith<V>(regions: seq<Region>, start: nat, size: nat, value: V, count: nat)
    requires count > 0 && FindMmio(regions, start).Some?
    ensures var log := Log(regions, start, size, value, count); log != [] && log[0].value == value
  {
    if count > 1 {
      LogStartsWith(regions, start, size, value, count - 1);
    }
  }

  lemma {:induction false} WritesInRam<V, B>(regions: seq<Region>, bus: Bus<V, B>, start: nat, u: Unit<V, B>,
                                             value: V, count: nat)
    requires |u.bytes| == u.size && AllRam(regions, start, u.size, count)
    requires At(start, count, u.size) <= |bus.ram|
    requires InRam(regions, |bus.ram|, start, count, u)
    ensures Writes(regions, bus, start, u, value, count) ==
            bus.(ram := Patch(bus.ram, start, Repeat(u.bytes, count)))
  {
    if count > 0 {
      assert At(start, count - 1, u.size) + u.size == At(start, count, u.size);
      WritesInRam(regions, bus, start, u, value, count - 1);
    }
  }

  lemma {:induction false} WritesToHandlers<V, B>(regions: seq<Region>, bus: Bus<V, B>, start: nat,
                                                  u: Unit<V, B>, value: V, count: nat)
    requires InRam(regions, |bus.ram|, start, count, u)
    requires forall i :: 0 <= i < count ==> FindMmio(regions, At(start, i, u.size)).Some?
    ensures Writes(regions, bus, start, u, value, count).ram == bus.ram
  {
    if count > 0 {
      WritesToHandlers(regions, bus, start, u, value, count - 1);
    }
  }

  /** What a caller can check before a fill: a range that starts in RAM has no unit in MMIO;
      one that starts in MMIO has a value that fits, and, when its last byte has the same
      handler, all its units at consecutive offsets of that handler. */
  ghost predicate FillIsExact<V, B>(regions: seq<Region>, ramSize: nat, start: nat, u: Unit<V, B>, count: nat) {
    count > 0 ==>
      var first := FindMmio(regions, start);
      if first.None? then start <= ramSize && AllRam(regions, start, u.size, count)
      else
        && u.narrow == u.whole
        && (SameHandlerAtEnd(regions, start, count, u.size) ==> AllAt(regions, start, u.size, first.value, count))
  }

  lemma SameSuffix<T>(a: seq<T>, b: seq<T>, c: seq<T>)
    requires a + b == a + c
    ensures b == c
  {
    assert b == (a + b)[|a|..] && c == (a + c)[|a|..];
  }

  lemma RamFillIff<V, B>(regions: seq<Region>, bus: Bus<V, B>, start: nat, u: Unit<V, B>, count: nat)
    requires |u.bytes| == u.size && At(start, count, u.size) <= |bus.ram|
    requires InRam(regions, |bus.ram|, start, count, u)
    ensures bus.(ram := Patch(bus.ram, start, Repeat(u.bytes, count))) == Singles(regions, bus, start, u, count) <==>
            AllRam(regions, start, u.size, count)
  {
    WritesLog(regions, bus, start, u, u.narrow, count);
    LogEmptyIff(regions, start, u.size, u.narrow, count);
    if AllRam(regions, start, u.size, count) {
      WritesInRam(regions, bus, start, u, u.narrow, count);
    } else {
      assert |Singles(regions, bus, start, u, count).calls| > |bus.calls|;
    }
  }

  lemma HandlerFillIff<V, B>(regions: seq<Region>, bus: Bus<V, B>, start: nat, u: Unit<V, B>, t: Target, count: nat)
    requires count > 0 && InRam(regions, |bus.ram|, start, count, u)
    ensures bus.(calls := bus.calls + HandlerFill(t, u.size, u.whole, count)) ==
            Singles(regions, bus, start, u, count) <==>
            u.narrow == u.whole && AllAt(regions, start, u.size, t, count)
  {
    var log, fill := Log(regions, start, u.size, u.narrow, count), HandlerFill(t, u.size, u.whole, count);
    WritesLog(regions, bus, start, u, u.narrow, count);
    if bus.calls + fill == bus.calls + log {
      SameSuffix(bus.calls, fill, log);
      FillLogIsConsecutive(regions, start, u.size, t, u.narrow, u.whole, count);
    }
    if AllAt(regions, start, u.size, t, count) {
      LogOfConsecutive(regions, start, u.size, t, u.narrow, count);
      WritesToHandlers(regions, bus, start, u, u.narrow, count);
    }
  }

  lemma CrossingFillIff<V, B>(regions: seq<Region>, bus: Bus<V, B>, start: nat, u: Unit<V, B>, count: nat)
    requires count > 0 && FindMmio(regions, start).Some? && InRam(regions, |bus.ram|, start, count, u)
    ensures Writes(regions, bus, start, u, u.whole, count) == Singles(regions, bus, start, u, count) <==>
            u.narrow == u.whole
  {
    var a, b := Log(regions, start, u.size, u.whole, count), Log(regions, start, u.size, u.narrow, count);
    WritesLog(regions, bus, start, u, u.whole, count);
    WritesLog(regions, bus, start, u, u.narrow, count);
    LogStartsWith(regions, start, u.size, u.whole, count);
    LogStartsWith(regions, start, u.size, u.narrow, count);
    if bus.calls + a == bus.calls + b {
      SameSuffix(bus.calls, a, b);
    }
  }

  lemma RamRangeFits(regions: seq<Region>, ramSize: nat, start: nat, u: Unit, count: nat)
    requires |u.bytes| == u.size && InRam(regions, ramSize, start, count, u)
    requires start <= ramSize && AllRam(regions, start, u.size, count)
    ensures At(start, count, u.size) <= ramSize
  {
    if count > 0 && u.size > 0 {
      assert FindMmio(regions, At(start, count - 1, u.size)).None?;
      assert At(start, count, u.size) == At(start, count - 1, u.size) + u.size;
    }
  }

  /** Wherever the single writes succeed: a fill succeeds too, and with the same effect on RAM
      and on the calls of all handlers, exactly when that condition holds. */
  lemma FillEqualsSinglesIff<V, B>(regions: seq<Region>, bus: Bus<V, B>, start: nat, u: Unit<V, B>, count: nat)
    requires |u.bytes| == u.size && u.bulk == u.bytes
    requires InRam(regions, |bus.ram|, start, count, u)
    ensures FillDefined(regions, |bus.ram|, start, u, count) &&
            Fill(regions, bus, start, u, count) == Singles(regions, bus, start, u, count) <==>
            FillIsExact(regions, |bus.ram|, start, u, count)
  {
    if count > 0 {
      var first := FindMmio(regions, start);
      if first.None? {
        if FillDefined(regions, |bus.ram|, start, u, count) {
          RamFillIff(regions, bus, start, u, count);
        } else if FillIsExact(regions, |bus.ram|, start, u, count) {
          RamRangeFits(regions, |bus.ram|, start, u, count);
        }
      } else if SameHandlerAtEnd(regions, start, count, u.size) {
        HandlerFillIff(regions, bus, start, u, first.value, count);
      } else {
        CrossingFillIff(regions, bus, start, u, count);
      }
    }
  }

  // ---- Regions that do not overlap ----

  /** Regions that share no address and no handler. */
  ghost predicate Separate(regions: seq<Region>) {
    forall i, j :: 0 <= i < j < |regions| ==>
      && regions[i].handler != regions[j].handler
      && (|| regions[i].start + regions[i].size <= regions[j].start
          || regions[j].start + regions[j].size <= regions[i].start)
  }

  lemma {:induction false} FindInSeparate(regions: seq<Region>, i: nat, addr: nat)
    requires Separate(regions) && i < |regions| && Contains(regions[i], addr)
    ensures FindMmio(regions, addr) == Some(Target(regions[i].handler, addr - regions[i].start))
  {
    var m := FirstMatch(regions, Containing(addr));
    assert Containing(addr)(regions[i]);
    assert m.Some?;
    var j :| 0 <= j < |regions| && regions[j] == m.value;
    assert j == i;
  }

  lemma FoundRegion(regions: seq<Region>, addr: nat) returns (i: nat)
    requires FindMmio(regions, addr).Some?
    ensures i < |regions| && Contains(regions[i], addr) && FindMmio(regions, addr).value.handler == regions[i].handler
    ensures FindMmio(regions, addr).value.offset == addr - regions[i].start
  {
    var m := FirstMatch(regions, Containing(addr));
    i :| 0 <= i < |regions| && regions[i] == m.value;
  }

  lemma UnitInside(start: nat, i: nat, count: nat, size: nat)
    requires i < count && size > 0
    ensures start <= At(start, i, size) < At(start, count, size)
  {
    assert i * size + size == (i + 1) * size <= count * size;
  }

  /** With separate regions, a range whose first and last bytes have one handler lies in
      its region, so the offsets are consecutive. */
  lemma SeparateIsConsecutive(regions: seq<Region>, start: nat, count: nat, size: nat)
    requires Separate(regions) && count > 0 && size > 0 && SameHandlerAtEnd(regions, start, count, size)
    ensures AllAt(regions, start, size, FindMmio(regions, start).value, count)
  {
    var i := FoundRegion(regions, start);
    UnitInside(start, 0, count, size);
    var j := FoundRegion(regions, LastByte(start, count, size));
    assert i == j;
    forall k | 0 <= k < count
      ensures FindMmio(regions, At(start, k, size)) ==
        Some(Target(regions[i].handler, At(start - regions[i].start, k, size)))
    {
      UnitInside(start, k, count, size);
      FindInSeparate(regions, i, At(start, k, size));
    }
  }

  /** On separate regions a fill equals single writes exactly when it starts in MMIO with a
      value that fits its unit, or has no unit in MMIO. */
  lemma FillOnSeparateRegions<V, B>(regions: seq<Region>, bus: Bus<V, B>, start: nat, u: Unit<V, B>, count: nat)
    requires Separate(regions) && u.size > 0
    requires |u.bytes| == u.size && u.bulk == u.bytes
    requires InRam(regions, |bus.ram|, start, count, u)
    ensures FillDefined(regions, |bus.ram|, start, u, count) &&
            Fill(regions, bus, start, u, count) == Singles(regions, bus, start, u, count) <==>
            count == 0 ||
            (if FindMmio(regions, start).Some? then u.narrow == u.whole else AllRam(regions, start, u.size, count))
  {
    FillEqualsSinglesIff(regions, bus, start, u, count);
    assert count > 0 && FindMmio(regions, start).None? ==> At(start, 0, u.size) + u.size <= |bus.ram|;
    if count > 0 && SameHandlerAtEnd(regions, start, count, u.size) {
      SeparateIsConsecutive(regions, start, count, u.size);
    }
  }

  /** Two regions of one handler, with a byte of RAM between them. */
  function Straddled(): seq<Region> {
    [Region(0, 1, 7), Region(2, 1, 7)]
  }

  lemma StraddledLookups()
    ensures FindMmio(Straddled(), 0) == Some(Target(7, 0))
    ensures FindMmio(Straddled(), 1) == None
    ensures FindMmio(Straddled(), 2) == Some(Target(7, 0))
  {
    var r := Straddled();
    assert r[1..] == [Region(2, 1, 7)];
  }

  lemma SplitIsNotExact<V, B>(regions: seq<Region>, ramSize: nat, u: Unit<V, B>, t: Target)
    requires FindMmio(regions, 0) == Some(t) && FindMmio(regions, 1) == None && FindMmio(regions, 2) == Some(t)
    requires u.size == |u.bytes| == 1 && ramSize >= 2
    ensures !FillIsExact(regions, ramSize, 0, u, 3) && InRam(regions, ramSize, 0, 3, u)
  {
    assert LastByte(0, 3, 1) == 2;
    assert FindMmio(regions, At(0, 1, 1)).None?;
    forall i | 0 <= i < 3 && FindMmio(regions, At(0, i, 1)).None?
      ensures At(0, i, 1) + 1 <= ramSize
    {
      assert At(0, i, 1) == i != 2;
    }
  }

  // ---- Short runs, for examples ----

  lemma WritesNext<V, B>(regions: seq<Region>, bus: Bus<V, B>, start: nat, u: Unit<V, B>, value: V, n: nat,
                         addr: nat, target: Option<Target>)
    requires InRam(regions, |bus.ram|, start, n + 1, u)
    requires addr == At(start, n, u.size) && FindMmio(regions, addr) == target
    ensures target.None? && u.bytes != [] ==> addr + |u.bytes| <= |bus.ram|
    ensures Writes(regions, bus, start, u, value, n + 1) ==
            RouteTo(Writes(regions, bus, start, u, value, n), target, addr, u.size, value, u.bytes)
  {
  }

  lemma AtByte(start: nat, i: nat, size: nat)
    requires size == 1
    ensures At(start, i, size) == start + i
  {
  }

  /** One unit in MMIO. */
  lemma WritesOfOne<V, B>(regions: seq<Region>, bus: Bus<V, B>, start: nat, u: Unit<V, B>, value: V, t: Target)
    requires u.size == 1 && InRam(regions, |bus.ram|, start, 1, u) && FindMmio(regions, start) == Some(t)
    ensures Writes(regions, bus, start, u, value, 1) ==
            bus.(calls := bus.calls + [Call(t.handler, t.offset, 1, value)])
  {
    AtByte(start, 0, u.size);
    WritesNext(regions, bus, start, u, value, 0, start, Some(t));
  }

  /** Two units, of which only the second is in MMIO. */
  lemma WritesOfTwo<V, B>(regions: seq<Region>, bus: Bus<V, B>, start: nat, u: Unit<V, B>, value: V, t: Target)
    requires u.size == |u.bytes| == 1 && InRam(regions, |bus.ram|, start, 2, u) && start < |bus.ram|
    requires FindMmio(regions, start) == None && FindMmio(regions, start + 1) == Some(t)
    ensures Writes(regions, bus, start, u, value, 2) ==
            Bus(Patch(bus.ram, start, u.bytes), bus.calls + [Call(t.handler, t.offset, 1, value)])
  {
    AtByte(start, 0, u.size);
    WritesNext(regions, bus, start, u, value, 0, start, None);
    AtByte(start, 1, u.size);
    WritesNext(regions, bus, start, u, value, 1, start + 1, Some(t));
  }

  /** Three units, the outer ones in MMIO and the middle one in RAM. */
  lemma WritesOfSplit<V, B>(regions: seq<Region>, bus: Bus<V, B>, start: nat, u: Unit<V, B>, value: V, t: Target)
    requires u.size == |u.bytes| == 1 && InRam(regions, |bus.ram|, start, 3, u) && start + 1 < |bus.ram|
    requires FindMmio(regions, start) == Some(t) && FindMmio(regions, start + 1) == None
    requires FindMmio(regions, start + 2) == Some(t)
    ensures
      var call := Call(t.handler, t.offset, 1, value);
      Writes(regions, bus, start, u, value, 3) == Bus(Patch(bus.ram, start + 1, u.bytes), bus.calls + [call, call])
  {
    var call := Call(t.handler, t.offset, 1, value);
    WritesOfOne(regions, bus, start, u, value, t);
    AtByte(start, 1, u.size);
    WritesNext(regions, bus, start, u, value, 1, start + 1, None);
    AtByte(start, 2, u.size);
    WritesNext(regions, bus, start, u, value, 2, start + 2, Some(t));
    assert bus.calls + [call] + [call] == bus.calls + [call, call];
  }

  lemma ByteCall<V>(t: Target, value: V, count: nat, i: nat)
    requires i < count
    ensures HandlerFill(t, 1, value, count)[i] == Call(t.handler, t.offset + i, 1, value)
  {
    AtByte(t.offset, i, 1);
  }

  lemma ThreeByteCalls<V>(t: Target, value: V)
    ensures HandlerFill(t, 1, value, 3) ==
      [Call(t.handler, t.offset, 1, value),
       Call(t.handler, t.offset + 1, 1, value),
       Call(t.handler, t.offset + 2, 1, value)]
  {
    ByteCall(t, value, 3, 0);
    ByteCall(t, value, 3, 1);
    ByteCall(t, value, 3, 2);
  }

  lemma FillByHandler<V, B>(regions: seq<Region>, bus: Bus<V, B>, start: nat, u: Unit<V, B>, t: Target, count: nat)
    requires u.size == 1 && count > 0 && FindMmio(regions, start) == Some(t)
    requires FindMmio(regions, start + count - 1).Some?
    requires FindMmio(regions, start + count - 1).value.handler == t.handler
    ensures FillDefined(regions, |bus.ram|, start, u, count)
    ensures Fill(regions, bus, start, u, count) == bus.(calls := bus.calls + HandlerFill(t, 1, u.whole, count))
  {
    AtByte(start, count, u.size);
  }
}
