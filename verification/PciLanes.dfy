/** Byte lanes of 32-bit registers: what masked read-modify-writes do to single bytes. */
module PciLanes {
  import opened Machine

  /** `(word >> shift) & 0xFF` with shift eight times the lane. */
  function ByteAt(word: u32, lane: nat): u8
    requires lane < 4
  {
    if lane == 0 then (word & 0xFF) as u8
    else if lane == 1 then ((word >> 8) & 0xFF) as u8
    else if lane == 2 then ((word >> 16) & 0xFF) as u8
    else ((word >> 24) & 0xFF) as u8
  }

  /** `(word >> shift) & 0xFFFF`, for the two aligned halves. */
  function HalfAt(word: u32, lane: nat): u16
    requires lane == 0 || lane == 2
  {
    if lane == 0 then (word & 0xFFFF) as u16 else ((word >> 16) & 0xFFFF) as u16
  }

  /** `(word & !(0xFF << shift)) | (value << shift)`, lane by lane. */
  function Put0(word: u32, value: u8): u32 {
    (word & !(0xFF << 0)) | (value as u32 << 0)
  }

  function Put1(word: u32, value: u8): u32 {
    (word & !(0xFF << 8)) | (value as u32 << 8)
  }

  function Put2(word: u32, value: u8): u32 {
    (word & !(0xFF << 16)) | (value as u32 << 16)
  }

  function Put3(word: u32, value: u8): u32 {
    (word & !(0xFF << 24)) | (value as u32 << 24)
  }

  function PutByte(word: u32, lane: nat, value: u8): u32
    requires lane < 4
  {
    if lane == 0 then Put0(word, value)
    else if lane == 1 then Put1(word, value)
    else if lane == 2 then Put2(word, value)
    else Put3(word, value)
  }

  /** `(word & !(0xFFFF << shift)) | (value << shift)`. */
  function PutHalf(word: u32, lane: nat, value: u16): u32
    requires lane == 0 || lane == 2
  {
    if lane == 0 then (word & !(0xFFFF << 0)) | (value as u32 << 0) else (word & !(0xFFFF << 16)) | (value as u32 << 16)
  }

  lemma ByteAtIsLane(word: u32, lane: nat)
    requires lane < 4
    ensures ByteAt(word, lane) == Le32(word)[lane]
  {
  }

  lemma HighHalf(w: u32)
    ensures ((w >> 16) & 0xFFFF) as u16 == (w >> 16) as u16
  {
  }

  lemma PutLane0(w: u32, value: u8)
    ensures Low8Of32(((w & !(0xFF << 0)) | (value as u32 << 0))) == value
    ensures Low8Of32(((w & !(0xFF << 0)) | (value as u32 << 0)) >> 8) == Low8Of32(w >> 8)
    ensures Low8Of32(((w & !(0xFF << 0)) | (value as u32 << 0)) >> 16) == Low8Of32(w >> 16)
    ensures Low8Of32(((w & !(0xFF << 0)) | (value as u32 << 0)) >> 24) == Low8Of32(w >> 24)
  {
  }

  lemma PutLane1(w: u32, value: u8)
    ensures Low8Of32(((w & !(0xFF << 8)) | (value as u32 << 8))) == Low8Of32(w)
    ensures Low8Of32(((w & !(0xFF << 8)) | (value as u32 << 8)) >> 8) == value
    ensures Low8Of32(((w & !(0xFF << 8)) | (value as u32 << 8)) >> 16) == Low8Of32(w >> 16)
    ensures Low8Of32(((w & !(0xFF << 8)) | (value as u32 << 8)) >> 24) == Low8Of32(w >> 24)
  {
  }

  lemma PutLane2(w: u32, value: u8)
    ensures Low8Of32(((w & !(0xFF << 16)) | (value as u32 << 16))) == Low8Of32(w)
    ensures Low8Of32(((w & !(0xFF << 16)) | (value as u32 << 16)) >> 8) == Low8Of32(w >> 8)
    ensures Low8Of32(((w & !(0xFF << 16)) | (value as u32 << 16)) >> 16) == value
    ensures Low8Of32(((w & !(0xFF << 16)) | (value as u32 << 16)) >> 24) == Low8Of32(w >> 24)
  {
  }

  lemma PutLane3(w: u32, value: u8)
    ensures Low8Of32(((w & !(0xFF << 24)) | (value as u32 << 24))) == Low8Of32(w)
    ensures Low8Of32(((w & !(0xFF << 24)) | (value as u32 << 24)) >> 8) == Low8Of32(w >> 8)
    ensures Low8Of32(((w & !(0xFF << 24)) | (value as u32 << 24)) >> 16) == Low8Of32(w >> 16)
    ensures Low8Of32(((w & !(0xFF << 24)) | (value as u32 << 24)) >> 24) == value
  {
  }

  lemma SameFour<T>(p: seq<T>, q: seq<T>)
    requires |p| == |q| == 4 && p[0] == q[0] && p[1] == q[1] && p[2] == q[2] && p[3] == q[3]
    ensures p == q
  {
  }

  lemma PutHalf0(w: u32, value: u16)
    ensures
      var x := (w & !(0xFFFF << 0)) | (value as u32 << 0);
      && Low8Of32(x) == (value & 0xFF) as u8
      && Low8Of32(x >> 8) == (value >> 8) as u8
      && Low8Of32(x >> 16) == Low8Of32(w >> 16)
      && Low8Of32(x >> 24) == Low8Of32(w >> 24)
  {
  }

  lemma PutHalf2(w: u32, value: u16)
    ensures
      var x := (w & !(0xFFFF << 16)) | (value as u32 << 16);
      && Low8Of32(x) == Low8Of32(w)
      && Low8Of32(x >> 8) == Low8Of32(w >> 8)
      && Low8Of32(x >> 16) == (value & 0xFF) as u8
      && Low8Of32(x >> 24) == (value >> 8) as u8
  {
  }

  lemma HalfAtIsLanes(word: u32, lane: nat)
    requires lane == 0 || lane == 2
    ensures Le16(HalfAt(word, lane)) == Le32(word)[lane..lane + 2]
  {
    if lane == 0 {
      SplitHalves(word);
    } else {
      HighHalf(word);
      SplitHalves(word);
    }
  }

  lemma Put0IsLane(word: u32, value: u8)
    ensures Le32(Put0(word, value)) == Le32(word)[0 := value]
  {
    PutLane0(word, value);
    SameFour(Le32(Put0(word, value)), Le32(word)[0 := value]);
  }

  lemma Put1IsLane(word: u32, value: u8)
    ensures Le32(Put1(word, value)) == Le32(word)[1 := value]
  {
    PutLane1(word, value);
    SameFour(Le32(Put1(word, value)), Le32(word)[1 := value]);
  }

  lemma Put2IsLane(word: u32, value: u8)
    ensures Le32(Put2(word, value)) == Le32(word)[2 := value]
  {
    PutLane2(word, value);
    SameFour(Le32(Put2(word, value)), Le32(word)[2 := value]);
  }

  lemma Put3IsLane(word: u32, value: u8)
    ensures Le32(Put3(word, value)) == Le32(word)[3 := value]
  {
    PutLane3(word, value);
    SameFour(Le32(Put3(word, value)), Le32(word)[3 := value]);
  }

  lemma PutByteIsLane(word: u32, lane: nat, value: u8)
    requires lane < 4
    ensures Le32(PutByte(word, lane, value)) == Le32(word)[lane := value]
  {
    if lane == 0 {
      Put0IsLane(word, value);
    } else if lane == 1 {
      Put1IsLane(word, value);
    } else if lane == 2 {
      Put2IsLane(word, value);
    } else {
      Put3IsLane(word, value);
    }
  }

  lemma PutHalfIsLanes(word: u32, lane: nat, value: u16)
    requires lane == 0 || lane == 2
    ensures Le32(PutHalf(word, lane, value)) == Patch(Le32(word), lane, Le16(value))
  {
    if lane == 0 {
      PutHalf0(word, value);
    } else {
      PutHalf2(word, value);
    }
  }

  lemma Le32OfBytes(b: seq<u8>)
    requires |b| == 4
    ensures Le32(FromLe32(b)) == b
  {
  }
}
