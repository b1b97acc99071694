/** Fixed-width machine words, their little-endian bytes, and patching of byte strings. */
module Machine {

  type u8 = bv8
  type u16 = bv16
  type u32 = bv32
  type u64 = bv64

  datatype Option<+T> = None | Some(value: T)

  function Min(a: nat, b: nat): nat {
    if a <= b then a else b
  }

  function Low8(v: u64): u8 {
    (v & 0xFF) as u8
  }

  function Low32(v: u64): u32 {
    (v & 0xFFFF_FFFF) as u32
  }

  function Low8Of32(v: u32): u8 {
    (v & 0xFF) as u8
  }

  function Le16(v: u16): seq<u8> {
    [(v & 0xFF) as u8, (v >> 8) as u8]
  }

  function Le32(v: u32): seq<u8> {
    [Low8Of32(v), Low8Of32(v >> 8), Low8Of32(v >> 16), Low8Of32(v >> 24)]
  }

  function Le64(v: u64): seq<u8> {
    Le32(Low32(v)) + Le32(Low32(v >> 32))
  }

  /** The low bytes of a value, at most eight. */
  function LowBytes(value: u64, size: nat): seq<u8> {
    Le64(value)[..Min(size, 8)]
  }

  function Join32(b0: u8, b1: u8, b2: u8, b3: u8): u32 {
    b0 as u32 | (b1 as u32 << 8) | (b2 as u32 << 16) | (b3 as u32 << 24)
  }

  function Join64(lo: u32, hi: u32): u64 {
    lo as u64 | (hi as u64 << 32)
  }

  function FromLe32(b: seq<u8>): u32
    requires |b| == 4
  {
    Join32(b[0], b[1], b[2], b[3])
  }

  function FromLe64(b: seq<u8>): u64
    requires |b| == 8
  {
    Join64(FromLe32(b[..4]), FromLe32(b[4..]))
  }

  // ---- Byte order, in arithmetic ----

  lemma Le16Digits(v: u16)
    ensures Le16(v) == [(v % 0x100) as u8, (v / 0x100) as u8]
  {
  }

  /** The bytes are the base-256 digits, lowest first. */
  lemma Le32Digits(v: u32)
    ensures Le32(v)[0] == (v % 0x100) as u8 && Le32(v)[1] == (v / 0x100 % 0x100) as u8
    ensures Le32(v)[2] == (v / 0x1_0000 % 0x100) as u8 && Le32(v)[3] == (v / 0x100_0000) as u8
  {
  }

  /** And a 64-bit value is its low half, then its high half. */
  lemma Le64Halves(v: u64)
    ensures Le64(v) == Le32((v % 0x1_0000_0000) as u32) + Le32((v / 0x1_0000_0000) as u32)
  {
    HalvesAreDigits(v);
  }

  lemma HalvesAreDigits(v: u64)
    ensures Low32(v) == (v % 0x1_0000_0000) as u32 && Low32(v >> 32) == (v / 0x1_0000_0000) as u32
  {
  }

  lemma Le32RoundTrip(v: u32)
    ensures FromLe32(Le32(v)) == v
  {
  }

  lemma Le64RoundTrip(v: u64)
    ensures FromLe64(Le64(v)) == v
  {
    var b := Le64(v);
    assert b[..4] == Le32(Low32(v)) && b[4..] == Le32(Low32(v >> 32));
    Le32RoundTrip(Low32(v));
    Le32RoundTrip(Low32(v >> 32));
    Halves(v);
  }

  lemma Halves(v: u64)
    ensures Join64(Low32(v), Low32(v >> 32)) == v
  {
  }

  /** The bytes of the halves of a word are those of the word. */
  lemma SplitHalves(value: u32)
    ensures ((value & 0xFFFF) as u16 & 0xFF) as u8 == Low8Of32(value)
    ensures ((value & 0xFFFF) as u16 >> 8) as u8 == Low8Of32(value >> 8)
    ensures ((value >> 16) as u16 & 0xFF) as u8 == Low8Of32(value >> 16)
    ensures ((value >> 16) as u16 >> 8) as u8 == Low8Of32(value >> 24)
  {
  }

  /** `s` with the bytes from index `at` replaced by `bytes`. */
  function Patch<T>(s: seq<T>, at: nat, bytes: seq<T>): (r: seq<T>)
    requires at + |bytes| <= |s|
    ensures |r| == |s|
    ensures forall i :: 0 <= i < |s| ==> r[i] == if at <= i < at + |bytes| then bytes[i - at] else s[i]
  {
    s[..at] + bytes + s[at + |bytes|..]
  }

  /** Patches of adjacent stretches join. */
  lemma PatchAdjacent<T>(s: seq<T>, at: nat, a: seq<T>, b: seq<T>)
    requires at + |a| + |b| <= |s|
    ensures Patch(Patch(s, at, a), at + |a|, b) == Patch(s, at, a + b)
  {
  }

  lemma SliceOfPrefix<T>(s: seq<T>, n: nat, i: nat, j: nat)
    requires i <= j <= n <= |s|
    ensures s[..n][i..j] == s[i..j]
  {
  }

  lemma SliceOfConcat<T>(a: seq<T>, b: seq<T>, i: nat, j: nat)
    requires i <= j <= |a| + |b|
    ensures j <= |a| ==> (a + b)[i..j] == a[i..j]
    ensures i >= |a| ==> (a + b)[i..j] == b[i - |a|..j - |a|]
  {
  }

  /** `copy_from_slice` into a stretch of an array. */
  method StoreAt<T>(a: array<T>, at: nat, elements: seq<T>)
    requires at + |elements| <= a.Length
    modifies a
    ensures a[..] == Patch(old(a[..]), at, elements)
  {
    forall k | 0 <= k < |elements| {
      a[at + k] := elements[k];
    }
  }
}
