/** Guest RAM with little-endian accessors. Accesses outside RAM panic in the source;
    here they are excluded by preconditions. */
module GuestMemory {
  import opened Machine

  function Load32(ram: seq<u8>, addr: nat): u32
    requires addr + 4 <= |ram|
  {
    FromLe32(ram[addr..addr + 4])
  }

  function Load64(ram: seq<u8>, addr: nat): u64
    requires addr + 8 <= |ram|
  {
    FromLe64(ram[addr..addr + 8])
  }

  const MEGABYTE: nat := 0x100000

  datatype MemoryType = Ram | Reserved

  datatype MemoryRegion = MemoryRegion(start: nat, size: nat, kind: MemoryType)

  predicate Covers(r: MemoryRegion, addr: nat) {
    r.start <= addr < r.start + r.size
  }

  /** The memory map of a machine: low memory, the hole for video memory and ROM, the rest. */
  function MemoryMap(total: nat): seq<MemoryRegion>
    requires MEGABYTE <= total
  {
    [MemoryRegion(0, 0xA0000, Ram),
     MemoryRegion(0xA0000, 0x60000, Reserved),
     MemoryRegion(MEGABYTE, total - MEGABYTE, Ram)]
  }

  /** The map covers every address of RAM once and nothing else; the hole ends at 1 MB. */
  lemma MapPartitions(total: nat, addr: nat)
    requires MEGABYTE <= total
    ensures addr < total <==> exists i :: 0 <= i < 3 && Covers(MemoryMap(total)[i], addr)
    ensures forall i, j :: 0 <= i < j < 3 && Covers(MemoryMap(total)[i], addr) ==> !Covers(MemoryMap(total)[j], addr)
    ensures forall i :: 0 <= i < 3 && Covers(MemoryMap(total)[i], addr) ==>
      (MemoryMap(total)[i].kind == Reserved <==> 0xA0000 <= addr < MEGABYTE)
  {
    var i := if addr < 0xA0000 then 0 else if addr < MEGABYTE then 1 else 2;
    assert addr < total ==> Covers(MemoryMap(total)[i], addr);
  }

  class PhysicalMemory {
    const ram: array<u8>
    const regions: seq<MemoryRegion>

    /** Zeroed RAM of a number of megabytes; with none the source panics. */
    constructor (megabytes: nat)
      requires megabytes >= 1
      ensures fresh(ram) && ram.Length == megabytes * MEGABYTE && forall i :: 0 <= i < ram.Length ==> ram[i] == 0
      ensures regions == MemoryMap(ram.Length)
    {
      var total := megabytes * MEGABYTE;
      ram := new u8[total](_ => 0);
      regions := MemoryMap(total);
    }

    method ReadU8(addr: nat) returns (value: u8)
      requires addr < ram.Length
      ensures value == ram[addr]
    {
      value := ram[addr];
    }

    method WriteU8(addr: nat, value: u8)
      requires addr < ram.Length
      modifies ram
      ensures ram[..] == old(ram[..])[addr := value] == Patch(old(ram[..]), addr, [value])
    {
      ram[addr] := value;
    }

    method ReadU32(addr: nat) returns (value: u32)
      requires addr + 4 <= ram.Length
      ensures value == Load32(ram[..], addr)
    {
      var b0 := ReadU8(addr);
      var b1 := ReadU8(addr + 1);
      var b2 := ReadU8(addr + 2);
      var b3 := ReadU8(addr + 3);
      value := Join32(b0, b1, b2, b3);
    }

    method WriteU16(addr: nat, value: u16)
      requires addr + 2 <= ram.Length
      modifies ram
      ensures ram[..] == Patch(old(ram[..]), addr, Le16(value))
    {
      WriteU8(addr, (value & 0xFF) as u8);
      WriteU8(addr + 1, (value >> 8) as u8);
    }

    method WriteU32(addr: nat, value: u32)
      requires addr + 4 <= ram.Length
      modifies ram
      ensures ram[..] == Patch(old(ram[..]), addr, Le32(value))
    {
      WriteU8(addr, Low8Of32(value));
      WriteU8(addr + 1, Low8Of32(value >> 8));
      WriteU8(addr + 2, Low8Of32(value >> 16));
      WriteU8(addr + 3, Low8Of32(value >> 24));
    }

    method ReadU64(addr: nat) returns (value: u64)
      requires addr + 8 <= ram.Length
      ensures value == Load64(ram[..], addr)
    {
      var lo := ReadU32(addr);
      var hi := ReadU32(addr + 4);
      assert ram[..][addr..addr + 8][..4] == ram[..][addr..addr + 4];
      assert ram[..][addr..addr + 8][4..] == ram[..][addr + 4..addr + 8];
      value := Join64(lo, hi);
    }

    method WriteU64(addr: nat, value: u64)
      requires addr + 8 <= ram.Length
      modifies ram
      ensures ram[..] == Patch(old(ram[..]), addr, Le64(value))
    {
      WriteU32(addr, Low32(value));
      WriteU32(addr + 4, Low32(value >> 32));
    }
  }

  /** A stored 64-bit value is read back whole. */
  lemma LoadAfterStore(ram: seq<u8>, addr: nat, value: u64)
    requires addr + 8 <= |ram|
    ensures Load64(Patch(ram, addr, Le64(value)), addr) == value
  {
    assert Patch(ram, addr, Le64(value))[addr..addr + 8] == Le64(value);
    Le64RoundTrip(value);
  }

  /** Bytes outside the eight that are loaded do not matter. */
  lemma LoadFrame(ram: seq<u8>, at: nat, value: u8, addr: nat)
    requires at < |ram| && addr + 8 <= |ram| && !(addr <= at < addr + 8)
    ensures Load64(ram[at := value], addr) == Load64(ram, addr)
  {
    assert ram[at := value][addr..addr + 8] == ram[addr..addr + 8];
  }
}
