/** PCI configuration mechanism #1: an address register at ports 0xCF8..0xCFB and a data
    window at 0xCFC..0xCFF. Byte and word writes are read-modify-writes of whole registers;
    they are compared here with a byte-addressed window. */
module PciPorts {
  import opened Machine
  import opened PciLanes
  import opened PciWindow

  const PCI_CONFIG_SIZE: nat := 256

  datatype Location = Location(bus: u8, device: u8, fn: u8)

  function ConfigAddress(location: Location, offset: u8): u32 {
    0x8000_0000
    | (location.bus as u32 << 16)
    | ((location.device as u32 & 0x1F) << 11)
    | ((location.fn as u32 & 0x07) << 8)
    | (offset as u32 & 0xFC)
  }

  predicate IsEnabled(addr: u32) {
    addr & 0x8000_0000 != 0
  }

  function LocationIn(addr: u32): Location {
    Location(((addr >> 16) & 0xFF) as u8, ((addr >> 11) & 0x1F) as u8, ((addr >> 8) & 0x07) as u8)
  }

  function ParseAddress(addr: u32): (r: Option<Selection<Location>>)
    ensures r.Some? ==> r.value.offset <= 252
  {
    if !IsEnabled(addr) then None else Some(Selection(LocationIn(addr), (addr & 0xFC) as nat))
  }

  /** A location as the address format can express it. */
  function Canonical(location: Location): Location {
    Location(location.bus, location.device & 0x1F, location.fn & 0x07)
  }

  /** Parsing undoes address construction, up to the bits that the format has no room for. */
  lemma ParseInvertsConfigAddress(location: Location, offset: u8)
    ensures ParseAddress(ConfigAddress(location, offset)) ==
      Some(Selection(Canonical(location), (offset & 0xFC) as nat))
  {
  }

  lemma FieldsRebuild(addr: u32)
    requires addr & 0x8000_0000 != 0
    ensures 0x8000_0000 | (((addr >> 16) & 0xFF) as u8 as u32 << 16)
            | ((((addr >> 11) & 0x1F) as u8 as u32 & 0x1F) << 11)
            | ((((addr >> 8) & 0x07) as u8 as u32 & 0x07) << 8)
            | ((addr & 0xFC) as u8 as u32 & 0xFC) == addr & 0x80FF_FFFC
  {
  }

  /** And construction undoes parsing, up to the bits that the parser skips: every enabled
      address is that of its location and offset, and the location fits the format. */
  lemma ConfigAddressInvertsParse(addr: u32)
    requires IsEnabled(addr)
    ensures ConfigAddress(LocationIn(addr), (addr & 0xFC) as u8) == addr & 0x80FF_FFFC
    ensures Canonical(LocationIn(addr)) == LocationIn(addr)
  {
    FieldsRebuild(addr);
    LocationFits(addr);
  }

  lemma LocationFits(addr: u32)
    ensures Canonical(LocationIn(addr)) == LocationIn(addr)
  {
  }

  // ---- One function's configuration space ----

  function Read8(config: seq<u8>, offset: nat): u8 {
    if offset < |config| then config[offset] else 0xFF
  }

  function Read16(config: seq<u8>, offset: nat): u16 {
    Read8(config, offset) as u16 | (Read8(config, offset + 1) as u16 << 8)
  }

  function Read32(config: seq<u8>, offset: nat): u32 {
    Read16(config, offset) as u32 | (Read16(config, offset + 2) as u32 << 16)
  }

  function Write8(config: seq<u8>, offset: nat, value: u8): seq<u8> {
    if offset < |config| then config[offset := value] else config
  }

  function Write16(config: seq<u8>, offset: nat, value: u16): seq<u8> {
    Write8(Write8(config, offset, (value & 0xFF) as u8), offset + 1, (value >> 8) as u8)
  }

  function Write32(config: seq<u8>, offset: nat, value: u32): seq<u8> {
    Write16(Write16(config, offset, (value & 0xFFFF) as u16), offset + 2, (value >> 16) as u16)
  }

  lemma JoinHalves(b0: u8, b1: u8, b2: u8, b3: u8)
    ensures (b0 as u16 | (b1 as u16 << 8)) as u32 | ((b2 as u16 | (b3 as u16 << 8)) as u32 << 16) ==
            Join32(b0, b1, b2, b3)
  {
  }

  lemma Read32IsFourBytes(config: seq<u8>, offset: nat)
    requires offset + 4 <= |config|
    ensures Le32(Read32(config, offset)) == config[offset..offset + 4]
  {
    var b := config[offset..offset + 4];
    JoinHalves(b[0], b[1], b[2], b[3]);
    Le32OfBytes(b);
  }

  lemma FourWrites(config: seq<u8>, offset: nat, b: seq<u8>)
    requires |b| == 4 && offset + 4 <= |config|
    ensures Write8(Write8(Write8(Write8(config, offset, b[0]), offset + 1, b[1]), offset + 2, b[2]), offset + 3, b[3])
            == Patch(config, offset, b)
  {
  }

  lemma Write32IsFourBytes(config: seq<u8>, offset: nat, value: u32)
    requires offset + 4 <= |config|
    ensures Write32(config, offset, value) == Patch(config, offset, Le32(value))
  {
    SplitHalves(value);
    FourWrites(config, offset, Le32(value));
  }

  lemma BitThirtyOne(addr: u32)
    ensures addr & 0x8000_0000 == 0 <==> addr < 0x8000_0000
  {
  }

  /** An address selects nothing exactly when its highest bit is clear. */
  lemma ParseNeedsEnable(addr: u32)
    ensures ParseAddress(addr).None? <==> addr < 0x8000_0000
  {
    BitThirtyOne(addr);
  }

  // ---- The register pair ----

  type Spaces = map<Location, seq<u8>>

  datatype Pci = Pci(address: u32, spaces: Spaces)

  ghost predicate Valid(spaces: Spaces) {
    forall l :: l in spaces ==> |spaces[l]| == PCI_CONFIG_SIZE
  }

  /** The function and dword that the address register selects, if there is a device. */
  function Selected(address: u32, spaces: Spaces): (r: Option<Selection<Location>>)
    ensures r.Some? ==> r.value.location in spaces && r.value.offset <= 252
  {
    var parsed := ParseAddress(address);
    if parsed.Some? && parsed.value.location in spaces then parsed else None
  }

  function ReadData(p: Pci): u32 {
    var sel := Selected(p.address, p.spaces);
    if sel.Some? then Read32(p.spaces[sel.value.location], sel.value.offset) else 0xFFFF_FFFF
  }

  function WriteData(p: Pci, value: u32): Pci {
    var sel := Selected(p.address, p.spaces);
    if sel.Some? then
      var config := p.spaces[sel.value.location];
      p.(spaces := p.spaces[sel.value.location := Write32(config, sel.value.offset, value)])
    else p
  }

  // ---- Port accesses as the source performs them; port 0xCF8 + lane ----

  /** The register behind a lane. */
  function Register(p: Pci, lane: nat): u32 {
    if lane < 4 then p.address else ReadData(p)
  }

  function SetRegister(p: Pci, lane: nat, value: u32): Pci {
    if lane < 4 then p.(address := value) else WriteData(p, value)
  }

  function InB(p: Pci, lane: nat): u8
    requires lane < 8
  {
    ByteAt(Register(p, lane), lane % 4)
  }

  function InW(p: Pci, lane: nat): u16
    requires Routed(lane, 2)
  {
    HalfAt(Register(p, lane), lane % 4)
  }

  function InL(p: Pci, lane: nat): u32 {
    Register(p, lane)
  }

  function OutB(p: Pci, lane: nat, value: u8): Pci
    requires lane < 8
  {
    SetRegister(p, lane, PutByte(Register(p, lane), lane % 4, value))
  }

  function OutW(p: Pci, lane: nat, value: u16): Pci
    requires Routed(lane, 2)
  {
    SetRegister(p, lane, PutHalf(Register(p, lane), lane % 4, value))
  }

  function OutL(p: Pci, lane: nat, value: u32): Pci {
    SetRegister(p, lane, value)
  }

  // ---- The byte-addressed window that the ports should be ----

  function View(p: Pci): (w: Window<Location, u8>)
    ensures |w.address| == 4
  {
    Window(Le32(p.address), p.spaces)
  }

  ghost predicate IsWindow(w: Window<Location, u8>) {
    |w.address| == 4 && Valid(w.spaces)
  }

  /** What four address bytes name, written out byte by byte: the highest bit of the last
      enables, the third is the bus, the second holds device and function, and the first the
      dword's offset. */
  function NamedByBytes(b0: u8, b1: u8, b2: u8, b3: u8): (r: Option<Selection<Location>>)
    ensures r.Some? ==> r.value.offset <= 252
  {
    if b3 >= 0x80 then Some(Selection(Location(b2, b1 / 8, b1 % 8), (b0 / 4 * 4) as nat)) else None
  }

  /** A selection needs a device at the named location. */
  function SelectedIn(w: Window<Location, u8>): (sel: Option<Selection<Location>>)
    requires IsWindow(w)
    ensures Selects(w, sel)
  {
    var named := NamedByBytes(w.address[0], w.address[1], w.address[2], w.address[3]);
    if named.Some? && named.value.location in w.spaces then named else None
  }

  const Ones: seq<u8> := [0xFF, 0xFF, 0xFF, 0xFF]

  /** Reads of a window in which no present device is selected give all ones. */
  function ReadWindow(w: Window<Location, u8>, lane: nat, width: nat): seq<u8>
    requires IsWindow(w) && Routed(lane, width)
  {
    Peek(w, SelectedIn(w), Ones, lane, width)
  }

  function WriteWindow(w: Window<Location, u8>, lane: nat, bytes: seq<u8>): Window<Location, u8>
    requires IsWindow(w) && Routed(lane, |bytes|)
  {
    Poke(w, SelectedIn(w), lane, bytes)
  }

  lemma EnableByte(b0: u8, b1: u8, b2: u8, b3: u8)
    ensures IsEnabled(Join32(b0, b1, b2, b3)) <==> b3 >= 0x80
  {
  }

  lemma BusByte(b0: u8, b1: u8, b2: u8, b3: u8)
    ensures ((Join32(b0, b1, b2, b3) >> 16) & 0xFF) as u8 == b2
  {
  }

  lemma DeviceByte(b0: u8, b1: u8, b2: u8, b3: u8)
    ensures ((Join32(b0, b1, b2, b3) >> 11) & 0x1F) as u8 == b1 / 8
  {
  }

  lemma FunctionByte(b0: u8, b1: u8, b2: u8, b3: u8)
    ensures ((Join32(b0, b1, b2, b3) >> 8) & 0x07) as u8 == b1 % 8
  {
  }

  lemma LocationBytes(b0: u8, b1: u8, b2: u8, b3: u8)
    ensures LocationIn(Join32(b0, b1, b2, b3)) == Location(b2, b1 / 8, b1 % 8)
  {
    BusByte(b0, b1, b2, b3);
    DeviceByte(b0, b1, b2, b3);
    FunctionByte(b0, b1, b2, b3);
  }

  lemma OffsetBits(b0: u8, b1: u8, b2: u8, b3: u8)
    ensures Join32(b0, b1, b2, b3) & 0xFC == (b0 / 4 * 4) as u32
  {
  }

  lemma SameNumber(b: u8, w: u32)
    requires w == b as u32
    ensures w as nat == b as nat
  {
  }

  lemma OffsetByte(b0: u8, b1: u8, b2: u8, b3: u8)
    ensures (Join32(b0, b1, b2, b3) & 0xFC) as nat == (b0 / 4 * 4) as nat
  {
    OffsetBits(b0, b1, b2, b3);
    SameNumber(b0 / 4 * 4, Join32(b0, b1, b2, b3) & 0xFC);
  }

  lemma ParseBytes(b0: u8, b1: u8, b2: u8, b3: u8)
    ensures ParseAddress(Join32(b0, b1, b2, b3)) == NamedByBytes(b0, b1, b2, b3)
  {
    EnableByte(b0, b1, b2, b3);
    LocationBytes(b0, b1, b2, b3);
    OffsetByte(b0, b1, b2, b3);
  }

  /** While the enable bit is clear, data reads give ones and data writes change nothing. */
  lemma DisabledWindow(w: Window<Location, u8>, lane: nat, bytes: seq<u8>)
    requires IsWindow(w) && w.address[3] < 0x80 && lane >= 4 && Routed(lane, |bytes|)
    ensures forall i :: 0 <= i < |ReadWindow(w, lane, |bytes|)| ==> ReadWindow(w, lane, |bytes|)[i] == 0xFF
    ensures WriteWindow(w, lane, bytes) == w
  {
  }

  lemma LowConfigBytes(bus: u32, device: u32, fn: u32, offset: u32)
    requires bus < 0x100 && device < 0x100 && fn < 0x100 && offset < 0x100
    ensures
      var c := 0x8000_0000 | (bus << 16) | ((device & 0x1F) << 11) | ((fn & 0x07) << 8) | (offset & 0xFC);
      c % 0x100 == offset / 4 * 4 && c / 0x100 % 0x100 == device % 32 * 8 + fn % 8
  {
  }

  lemma HighConfigBytes(bus: u32, device: u32, fn: u32, offset: u32)
    requires bus < 0x100 && device < 0x100 && fn < 0x100 && offset < 0x100
    ensures
      var c := 0x8000_0000 | (bus << 16) | ((device & 0x1F) << 11) | ((fn & 0x07) << 8) | (offset & 0xFC);
      c / 0x1_0000 % 0x100 == bus && c / 0x100_0000 == 0x80
  {
  }

  /** A constructed address in numbers, byte by byte: the dword's offset, device and function,
      the bus, and the enable bit. */
  lemma ConfigAddressBytes(location: Location, offset: u8)
    ensures
      var c := ConfigAddress(location, offset);
      && c % 0x100 == offset as u32 / 4 * 4
      && c / 0x100 % 0x100 == location.device as u32 % 32 * 8 + location.fn as u32 % 8
      && c / 0x1_0000 % 0x100 == location.bus as u32
      && c / 0x100_0000 == 0x80
  {
    LowConfigBytes(location.bus as u32, location.device as u32, location.fn as u32, offset as u32);
    HighConfigBytes(location.bus as u32, location.device as u32, location.fn as u32, offset as u32);
  }

  lemma AllOnes()
    ensures Le32(0xFFFF_FFFF) == Ones
  {
  }

  lemma ViewSelects(p: Pci)
    requires Valid(p.spaces)
    ensures SelectedIn(View(p)) == Selected(p.address, p.spaces)
  {
    var a := Le32(p.address);
    assert Join32(a[0], a[1], a[2], a[3]) == p.address by { Le32RoundTrip(p.address); }
    ParseBytes(a[0], a[1], a[2], a[3]);
  }

  lemma RegisterView(p: Pci, lane: nat)
    requires Valid(p.spaces)
    ensures Le32(Register(p, lane)) == RegisterBytes(View(p), SelectedIn(View(p)), Ones, lane)
  {
    ViewSelects(p);
    AllOnes();
    var sel := Selected(p.address, p.spaces);
    if sel.Some? {
      Read32IsFourBytes(p.spaces[sel.value.location], sel.value.offset);
    }
  }

  lemma SetRegisterView(p: Pci, lane: nat, value: u32)
    requires Valid(p.spaces)
    ensures View(SetRegister(p, lane, value)) == SetRegisterBytes(View(p), SelectedIn(View(p)), lane, Le32(value))
  {
    ViewSelects(p);
    var sel := Selected(p.address, p.spaces);
    if sel.Some? {
      Write32IsFourBytes(p.spaces[sel.value.location], sel.value.offset, value);
    }
  }

  lemma SetRegisterKeepsSizes(p: Pci, lane: nat, value: u32)
    requires Valid(p.spaces)
    ensures Valid(SetRegister(p, lane, value).spaces)
  {
  }

  // ---- Refinement, access by access and over whole runs ----

  function HalfValue(bytes: seq<u8>): u16
    requires |bytes| == 2
  {
    bytes[0] as u16 | (bytes[1] as u16 << 8)
  }

  lemma Le16OfBytes(bytes: seq<u8>)
    requires |bytes| == 2
    ensures Le16(HalfValue(bytes)) == bytes
  {
  }

  /** The bytes that an `in` of the width returns, lowest first. */
  function InBytes(p: Pci, lane: nat, width: nat): seq<u8>
    requires Routed(lane, width)
  {
    if width == 1 then [InB(p, lane)] else if width == 2 then Le16(InW(p, lane)) else Le32(InL(p, lane))
  }

  /** The new value of a register whose lanes from `lane` on an `out` of the bytes' width replaces. */
  function Merged(reg: u32, lane: nat, bytes: seq<u8>): u32
    requires Routed(lane, |bytes|) && lane < 4
  {
    if |bytes| == 1 then PutByte(reg, lane, bytes[0])
    else if |bytes| == 2 then PutHalf(reg, lane, HalfValue(bytes))
    else FromLe32(bytes)
  }

  /** An `out` of the width that the bytes have. */
  function OutBytes(p: Pci, lane: nat, bytes: seq<u8>): Pci
    requires Routed(lane, |bytes|)
  {
    if |bytes| == 1 then OutB(p, lane, bytes[0])
    else if |bytes| == 2 then OutW(p, lane, HalfValue(bytes))
    else OutL(p, lane, FromLe32(bytes))
  }

  lemma SlicesOfRegister(reg: u32, lane: nat, width: nat)
    requires Routed(lane, width) && lane < 4
    ensures Le32(reg)[lane..lane + width] ==
      if width == 1 then [ByteAt(reg, lane)] else if width == 2 then Le16(HalfAt(reg, lane)) else Le32(reg)
  {
    if width == 1 {
      ByteAtIsLane(reg, lane);
    } else if width == 2 {
      HalfAtIsLanes(reg, lane);
    }
  }

  lemma MergePatches(reg: u32, lane: nat, bytes: seq<u8>)
    requires Routed(lane, |bytes|) && lane < 4
    ensures Le32(Merged(reg, lane, bytes)) == Patch(Le32(reg), lane, bytes)
  {
    if |bytes| == 1 {
      PutByteIsLane(reg, lane, bytes[0]);
    } else if |bytes| == 2 {
      PutHalfIsLanes(reg, lane, HalfValue(bytes));
      Le16OfBytes(bytes);
    } else {
      Le32OfBytes(bytes);
    }
  }

  lemma OutIsMerge(p: Pci, lane: nat, bytes: seq<u8>)
    requires Routed(lane, |bytes|)
    ensures OutBytes(p, lane, bytes) == SetRegister(p, lane, Merged(Register(p, lane), lane % 4, bytes))
  {
  }

  /** Every routed `in` reads the bytes of the window at its port. */
  lemma InRefines(p: Pci, lane: nat, width: nat)
    requires Valid(p.spaces) && Routed(lane, width)
    ensures InBytes(p, lane, width) == ReadWindow(View(p), lane, width)
  {
    PeekIsRegister(View(p), SelectedIn(View(p)), Ones, lane, width);
    RegisterView(p, lane);
    SlicesOfRegister(Register(p, lane), lane % 4, width);
  }

  /** Every routed `out` replaces exactly the bytes of the window at its port. */
  lemma OutRefines(p: Pci, lane: nat, bytes: seq<u8>)
    requires Valid(p.spaces) && Routed(lane, |bytes|)
    ensures View(OutBytes(p, lane, bytes)) == WriteWindow(View(p), lane, bytes)
    ensures Valid(OutBytes(p, lane, bytes).spaces)
  {
    var reg := Register(p, lane);
    OutIsMerge(p, lane, bytes);
    SetRegisterKeepsSizes(p, lane, Merged(reg, lane % 4, bytes));
    SetRegisterView(p, lane, Merged(reg, lane % 4, bytes));
    MergePatches(reg, lane % 4, bytes);
    RegisterView(p, lane);
    ReadModifyWriteIsPoke(View(p), SelectedIn(View(p)), Ones, lane, bytes);
  }

  // ---- The direct 32-bit accessors ----

  function ConfigRead32(p: Pci, location: Location, offset: u8): (Pci, u32) {
    var q := p.(address := ConfigAddress(location, offset));
    (q, ReadData(q))
  }

  function ConfigWrite32(p: Pci, location: Location, offset: u8, value: u32): Pci {
    WriteData(p.(address := ConfigAddress(location, offset)), value)
  }

  lemma ReadIsDword(p: Pci, location: Location, offset: u8)
    requires Valid(p.spaces)
    ensures
      var at, l := (offset & 0xFC) as nat, Canonical(location);
      && at <= 252
      && Le32(ConfigRead32(p, location, offset).1) ==
           if l in p.spaces then p.spaces[l][at..at + 4] else [0xFF, 0xFF, 0xFF, 0xFF]
  {
    ParseInvertsConfigAddress(location, offset);
    AllOnes();
    if Canonical(location) in p.spaces {
      Read32IsFourBytes(p.spaces[Canonical(location)], (offset & 0xFC) as nat);
    }
  }

  lemma WriteIsDword(p: Pci, location: Location, offset: u8, value: u32)
    requires Valid(p.spaces)
    ensures
      var at, l := (offset & 0xFC) as nat, Canonical(location);
      && at <= 252
      && ConfigWrite32(p, location, offset, value).spaces ==
           if l in p.spaces then p.spaces[l := Patch(p.spaces[l], at, Le32(value))] else p.spaces
  {
    var at, l := (offset & 0xFC) as nat, Canonical(location);
    var q := p.(address := ConfigAddress(location, offset));
    assert ParseAddress(q.address) == Some(Selection(l, at)) by {
      ParseInvertsConfigAddress(location, offset);
    }
    if l in p.spaces {
      assert Selected(q.address, q.spaces) == Some(Selection(l, at));
      Write32IsFourBytes(p.spaces[l], at, value);
    }
  }

  // ---- Whole runs ----

  /** Port accesses, and the direct accessors, which go through the same two registers. */
  datatype Access =
    | In(lane: nat, width: nat)
    | Out(lane: nat, bytes: seq<u8>)
    | ReadConfig(location: Location, offset: u8)
    | WriteConfig(location: Location, offset: u8, value: u32)

  predicate IsRouted(a: Access) {
    match a
    case In(lane, width) => Routed(lane, width)
    case Out(lane, bytes) => Routed(lane, |bytes|)
    case _ => true
  }

  predicate AllRouted(run: seq<Access>) {
    forall i :: 0 <= i < |run| ==> IsRouted(run[i])
  }

  function Perform(p: Pci, a: Access): Pci
    requires IsRouted(a)
  {
    match a
    case In(_, _) => p
    case Out(lane, bytes) => OutBytes(p, lane, bytes)
    case ReadConfig(location, offset) => ConfigRead32(p, location, offset).0
    case WriteConfig(location, offset, value) => ConfigWrite32(p, location, offset, value)
  }

  /** The window with the address bytes of a dword written to it. */
  function Select(w: Window<Location, u8>, location: Location, offset: u8): (r: Window<Location, u8>)
    requires IsWindow(w)
    ensures IsWindow(r)
  {
    WriteWindow(w, 0, Le32(ConfigAddress(location, offset)))
  }

  ghost function PerformOnWindow(w: Window<Location, u8>, a: Access): (r: Window<Location, u8>)
    requires IsWindow(w) && IsRouted(a)
    ensures IsWindow(r)
  {
    match a
    case In(_, _) => w
    case Out(lane, bytes) => WriteWindow(w, lane, bytes)
    case ReadConfig(location, offset) => Select(w, location, offset)
    case WriteConfig(location, offset, value) => WriteWindow(Select(w, location, offset), 4, Le32(value))
  }

  lemma OutDword(p: Pci, lane: nat, value: u32)
    requires Valid(p.spaces) && Routed(lane, 4)
    ensures View(SetRegister(p, lane, value)) == WriteWindow(View(p), lane, Le32(value))
    ensures Valid(SetRegister(p, lane, value).spaces)
  {
    Le32RoundTrip(value);
    OutRefines(p, lane, Le32(value));
  }

  lemma PerformRefines(p: Pci, a: Access)
    requires Valid(p.spaces) && IsRouted(a)
    ensures View(Perform(p, a)) == PerformOnWindow(View(p), a) && Valid(Perform(p, a).spaces)
  {
    match a {
      case In(_, _) =>
      case Out(lane, bytes) => OutRefines(p, lane, bytes);
      case ReadConfig(location, offset) => OutDword(p, 0, ConfigAddress(location, offset));
      case WriteConfig(location, offset, value) =>
        var address := ConfigAddress(location, offset);
        OutDword(p, 0, address);
        OutDword(SetRegister(p, 0, address), 4, value);
    }
  }

  function After(p: Pci, run: seq<Access>): Pci
    requires AllRouted(run)
  {
    if run == [] then p else Perform(After(p, run[..|run| - 1]), run[|run| - 1])
  }

  ghost function WindowAfter(w: Window<Location, u8>, run: seq<Access>): (r: Window<Location, u8>)
    requires IsWindow(w) && AllRouted(run)
    ensures IsWindow(r)
  {
    if run == [] then w else PerformOnWindow(WindowAfter(w, run[..|run| - 1]), run[|run| - 1])
  }

  /** Over any run of routed port accesses of all widths and of direct accesses, the registers
      stay the image of the byte-addressed window. */
  lemma {:induction false} RunRefines(p: Pci, run: seq<Access>)
    requires Valid(p.spaces) && AllRouted(run)
    ensures Valid(After(p, run).spaces)
    ensures View(After(p, run)) == WindowAfter(View(p), run)
  {
    if run != [] {
      RunRefines(p, run[..|run| - 1]);
      PerformRefines(After(p, run[..|run| - 1]), run[|run| - 1]);
    }
  }

  /** So what an `in` returns after any run is what the window then holds. */
  lemma InAfterRun(p: Pci, run: seq<Access>, lane: nat, width: nat)
    requires Valid(p.spaces) && AllRouted(run) && Routed(lane, width)
    ensures InBytes(After(p, run), lane, width) == ReadWindow(WindowAfter(View(p), run), lane, width)
  {
    RunRefines(p, run);
    InRefines(After(p, run), lane, width);
  }

  // ---- The bus as an object ----

  class PciBus {
    var devices: Spaces
    var configAddress: u32

    constructor ()
      ensures State() == Pci(0, map[])
    {
      devices := map[];
      configAddress := 0;
    }

    ghost function State(): Pci
      reads this
    {
      Pci(configAddress, devices)
    }

    method AddDevice(location: Location, config: seq<u8>)
      requires Valid(devices) && |config| == PCI_CONFIG_SIZE
      modifies this
      ensures Valid(devices) && State() == Pci(old(configAddress), old(devices)[location := config])
    {
      devices := devices[location := config];
    }

    method LoadData() returns (value: u32)
      ensures value == ReadData(State())
    {
      var parsed := ParseAddress(configAddress);
      if parsed.Some? && parsed.value.location in devices {
        value := Read32(devices[parsed.value.location], parsed.value.offset);
      } else {
        value := 0xFFFF_FFFF;
      }
    }

    method StoreData(value: u32)
      modifies this
      ensures State() == WriteData(old(State()), value)
    {
      var parsed := ParseAddress(configAddress);
      if parsed.Some? && parsed.value.location in devices {
        var config := Write32(devices[parsed.value.location], parsed.value.offset, value);
        devices := devices[parsed.value.location := config];
      }
    }

    /** The register behind a lane. */
    method Load(lane: nat) returns (value: u32)
      ensures value == Register(State(), lane)
    {
      if lane < 4 {
        value := configAddress;
      } else {
        value := LoadData();
      }
    }

    method Store(lane: nat, value: u32)
      modifies this
      ensures State() == SetRegister(old(State()), lane, value)
    {
      if lane < 4 {
        configAddress := value;
      } else {
        StoreData(value);
      }
    }

    method Inb(lane: nat) returns (value: u8)
      requires lane < 8
      ensures value == InB(State(), lane)
    {
      var reg := Load(lane);
      value := ByteAt(reg, lane % 4);
    }

    method Inw(lane: nat) returns (value: u16)
      requires Routed(lane, 2)
      ensures value == InW(State(), lane)
    {
      var reg := Load(lane);
      value := HalfAt(reg, lane % 4);
    }

    method Inl(lane: nat) returns (value: u32)
      requires Routed(lane, 4)
      ensures value == InL(State(), lane)
    {
      value := Load(lane);
    }

    method Outb(lane: nat, value: u8)
      requires lane < 8
      modifies this
      ensures State() == OutB(old(State()), lane, value)
    {
      var reg := Load(lane);
      Store(lane, PutByte(reg, lane % 4, value));
    }

    method Outw(lane: nat, value: u16)
      requires Routed(lane, 2)
      modifies this
      ensures State() == OutW(old(State()), lane, value)
    {
      var reg := Load(lane);
      Store(lane, PutHalf(reg, lane % 4, value));
    }

    method Outl(lane: nat, value: u32)
      requires Routed(lane, 4)
      modifies this
      ensures State() == OutL(old(State()), lane, value)
    {
      Store(lane, value);
    }

    method ReadConfig32(location: Location, offset: u8) returns (value: u32)
      modifies this
      ensures (State(), value) == ConfigRead32(old(State()), location, offset)
    {
      Store(0, ConfigAddress(location, offset));
      value := LoadData();
    }

    method WriteConfig32(location: Location, offset: u8, value: u32)
      modifies this
      ensures State() == ConfigWrite32(old(State()), location, offset, value)
    {
      Store(0, ConfigAddress(location, offset));
      StoreData(value);
    }
  }
}
