/** The VGA device's text buffer as its MMIO handler writes it. */
module Vga {
  import opened Machine
  import opened MmioBus
  import opened TextScreen

  const TEXT_BUFFER_SIZE: nat := 4000

  /** Word `i` of a value. */
  function Word(value: u64, i: nat): u16
    requires i < 4
  {
    if i == 0 then (value & 0xFFFF) as u16
    else if i == 1 then ((value >> 16) & 0xFFFF) as u16
    else if i == 2 then ((value >> 32) & 0xFFFF) as u16
    else (value >> 48) as u16
  }

  lemma HalvesOf32(x: u32)
    ensures Le16((x & 0xFFFF) as u16) + Le16((x >> 16) as u16) == Le32(x)
  {
    SplitHalves(x);
  }

  lemma LowWords(value: u64)
    ensures (value & 0xFFFF) as u16 == (Low32(value) & 0xFFFF) as u16
    ensures ((value >> 16) & 0xFFFF) as u16 == (Low32(value) >> 16) as u16
  {
  }

  lemma HighWords(value: u64)
    ensures ((value >> 32) & 0xFFFF) as u16 == (Low32(value >> 32) & 0xFFFF) as u16
    ensures (value >> 48) as u16 == (Low32(value >> 32) >> 16) as u16
  {
  }

  lemma LowWordBytes(value: u64)
    ensures Le16(Word(value, 0)) + Le16(Word(value, 1)) == Le32(Low32(value))
  {
    LowWords(value);
    HalvesOf32(Low32(value));
  }

  lemma HighWordBytes(value: u64)
    ensures Le16(Word(value, 2)) + Le16(Word(value, 3)) == Le32(Low32(value >> 32))
  {
    HighWords(value);
    HalvesOf32(Low32(value >> 32));
  }

  lemma FourPairs<B>(all: seq<B>, a: seq<B>, b: seq<B>, c: seq<B>, d: seq<B>)
    requires all == (a + b) + (c + d) && |a| == |b| == |c| == |d| == 2
    ensures all[0..2] == a && all[2..4] == b && all[4..6] == c && all[6..8] == d
  {
  }

  lemma WordIsBytes(value: u64, i: nat)
    requires i < 4
    ensures Le16(Word(value, i)) == Le64(value)[2 * i..2 * i + 2]
  {
    LowWordBytes(value);
    HighWordBytes(value);
    FourPairs(Le64(value), Le16(Word(value, 0)), Le16(Word(value, 1)), Le16(Word(value, 2)), Le16(Word(value, 3)));
  }

  lemma PairInPrefix<B>(all: seq<B>, i: nat, n: nat, pair: seq<B>)
    requires i + 2 <= n <= |all| && pair == all[i..i + 2]
    ensures all[..n][i] == pair[0] && all[..n][i + 1] == pair[1]
  {
  }

  /** Word `i` of the unit holds the bytes of `word`. */
  predicate HoldsWord(u: seq<u8>, i: nat, word: u16) {
    2 * i + 1 < |u| && u[2 * i] == Le16(word)[0] && u[2 * i + 1] == Le16(word)[1]
  }

  lemma WordInUnit(value: u64, i: nat, n: nat)
    requires i < n <= 4
    ensures HoldsWord(LowBytes(value, 2 * n), i, Word(value, i))
  {
    WordIsBytes(value, i);
    PairInPrefix(Le64(value), 2 * i, 2 * n, Le16(Word(value, i)));
  }

  lemma Quotient(x: nat, q: nat, size: nat)
    requires size > 0 && q * size <= x < (q + 1) * size
    ensures x / size == q
  {
    var r := x / size;
    assert r * size <= x < r * size + size;
    MultiplesGrow(r + 1, q, size);
    MultiplesGrow(q + 1, r, size);
  }

  /** What a unit of the size holds: the low bytes of the value, and for sizes that are none
      or too many just the lowest. */
  function UnitOf(value: u64, size: nat): (u: seq<u8>)
    ensures u != [] && u[0] == Low8Of32(Low32(value))
    ensures if 1 <= size <= 8 then |u| == size && u == LowBytes(value, size) else |u| == 1
  {
    LowBytes(value, if 1 <= size <= 8 then size else 1)
  }

  lemma UnitHoldsWords(value: u64, n: nat, u: seq<u8>)
    requires n <= 4 && u == LowBytes(value, 2 * n)
    ensures forall i :: 0 <= i < n ==> HoldsWord(u, i, Word(value, i))
  {
    forall i | 0 <= i < n
      ensures HoldsWord(u, i, Word(value, i))
    {
      WordInUnit(value, i, n);
    }
  }

  lemma MultiplesGrow(a: nat, b: nat, size: nat)
    ensures a <= b ==> a * size <= b * size
  {
  }

  /** Clamping the bytes and dividing is clamping the units. */
  lemma ClampedCount(count: nat, room: nat, size: nat)
    requires size > 0
    ensures Min(count * size, room) / size == Min(count, Fitting(room, size))
  {
    if count <= Fitting(room, size) {
      FittingFits(room, size, count);
      Quotient(count * size, count, size);
    } else {
      RoomIsLess(count, room, size);
    }
  }

  lemma RoomIsLess(count: nat, room: nat, size: nat)
    requires size > 0 && count > Fitting(room, size)
    ensures room < count * size
  {
    var q := Fitting(room, size);
    assert room < q * size + size;
    assert (q + 1) * size == q * size + size;
    MultiplesGrow(q + 1, count, size);
  }

  class Vga {
    const text: array<u8>
    var dirty: bool

    ghost function State(): Screen<u8>
      reads this, text
    {
      Screen(text[..], dirty)
    }

    /** A blank screen: light gray spaces on black. */
    constructor ()
      ensures fresh(text) && text.Length == TEXT_BUFFER_SIZE && dirty
      ensures forall i :: 0 <= i < TEXT_BUFFER_SIZE ==> text[i] == if i % 2 == 0 then 0x20 else 0x07
    {
      text := new u8[TEXT_BUFFER_SIZE](i => if i % 2 == 0 then 0x20 else 0x07);
      dirty := true;
    }

    method WriteVramByte(at: nat, value: u8)
      modifies this, text
      ensures State() == WriteByte(old(State()), at, value)
    {
      if at < text.Length {
        text[at] := value;
        dirty := true;
      }
    }

    method WriteVramWord(at: nat, value: u16)
      modifies this, text
      ensures State() == WriteWord(old(State()), at, Le16(value)[0], Le16(value)[1])
    {
      if at + 1 < text.Length {
        text[at] := (value & 0xFF) as u8;
        text[at + 1] := (value >> 8) as u8;
        dirty := true;
      }
    }

    /** The words of a unit, one after the other. */
    method WriteTextWords(at: nat, value: u64, n: nat, ghost u: seq<u8>)
      requires n <= 4 && |u| == 2 * n
      requires forall i :: 0 <= i < n ==> HoldsWord(u, i, Word(value, i))
      modifies this, text
      ensures State() == WriteWords(old(State()), at, u, n)
    {
      for i := 0 to n
        invariant State() == WriteWords(old(State()), at, u, i)
      {
        assert HoldsWord(u, i, Word(value, i));
        WriteVramWord(at + 2 * i, Word(value, i));
      }
    }

    method WriteText(at: nat, size: nat, value: u64)
      requires at < text.Length
      modifies this, text
      ensures State() == WriteUnit(old(State()), at, UnitOf(value, size))
    {
      if size == 2 || size == 4 || size == 8 {
        UnitHoldsWords(value, size / 2, UnitOf(value, size));
        WriteTextWords(at, value, size / 2, UnitOf(value, size));
      } else {
        WriteVramByte(at, Low8Of32(Low32(value)));
      }
    }

    method Write(offset: nat, size: nat, value: u64)
      modifies this, text
      ensures State() == TextScreen.Write(old(State()), offset, UnitOf(value, size))
    {
      if TEXT_START <= offset < TEXT_START + text.Length {
        WriteText(offset - TEXT_START, size, value);
      }
    }

    /** The handler's own fill, in place of the default write per unit. */
    method Fill(offset: nat, value: u64, count: nat, size: nat) returns (written: nat)
      requires FillReturns(State(), offset, size, UnitOf(value, size), count)
      modifies this, text
      ensures (State(), written) == TextScreen.Fill(old(State()), offset, size, UnitOf(value, size), count)
    {
      if offset < TEXT_START || offset >= TEXT_START + text.Length {
        WriteEach(offset, value, count, size);
        return count;
      }
      written := FillInText(offset - TEXT_START, value, count, size);
    }

    /** The part of the fill that starts in the text. */
    method FillInText(at: nat, value: u64, count: nat, size: nat) returns (written: nat)
      requires at < text.Length && FillReturns(State(), TEXT_START + at, size, UnitOf(value, size), count)
      modifies this, text
      ensures (State(), written) == TextScreen.Fill(old(State()), TEXT_START + at, size, UnitOf(value, size), count)
    {
      TextFill(State(), at, size, UnitOf(value, size), count);
      var total := count * size;
      var available := text.Length - at;
      written := Min(total, available) / size;
      ClampedCount(count, available, size);
      if written == 0 {
        return 0;
      }
      FillText(at, value, written, size);
    }

    method WriteEach(offset: nat, value: u64, count: nat, size: nat)
      modifies this, text
      ensures State() == EachWritten(old(State()), offset, size, UnitOf(value, size), count)
    {
      ghost var u := UnitOf(value, size);
      for i := 0 to count
        invariant EachWritten(old(State()), offset, size, u, count) ==
                  EachWritten(State(), At(offset, i, size), size, u, count - i)
      {
        assert At(offset, i + 1, size) == At(offset, i, size) + size;
        Write(offset + i * size, size, value);
      }
    }

    /** Copies the unit into each chunk of the range. */
    method FillText(at: nat, value: u64, n: nat, size: nat)
      requires 1 <= size <= 8 && n > 0 && at + n * size <= text.Length
      modifies this, text
      ensures State() == Stored(old(State()), at, Repeat(UnitOf(value, size), n))
    {
      ghost var before := text[..];
      var bytes := UnitOf(value, size);
      for i := 0 to n
        invariant at + |Repeat(bytes, i)| <= text.Length
        invariant text[..] == Patch(before, at, Repeat(bytes, i))
      {
        UnitFits(at, i, n, size);
        StoreAt(text, at + i * size, bytes);
        PatchAdjacent(before, at, Repeat(bytes, i), bytes);
      }
      dirty := true;
    }
  }

  /** On the text buffer, a fill whose start is a multiple of the unit is the default fill. */
  lemma AlignedFillIsDefault(s: Screen<u8>, at: nat, value: u64, count: nat, size: nat)
    requires |s.text| == TEXT_BUFFER_SIZE && IsWidth(size) && at % size == 0
    ensures TextScreen.Fill(s, TEXT_START + at, size, UnitOf(value, size), count).0 ==
            EachWritten(s, TEXT_START + at, size, UnitOf(value, size), count)
  {
    AlignedFillIsWrites(s, at, UnitOf(value, size), count);
  }

  // ---- The handler on the bus ----

  /** With the handler's region at 0xA0000, the text lies at 0xB8000: a unit written at place
      `k` of it is stored there if it fits. */
  lemma TextIsAtB8000(s: Screen<u8>, k: nat, value: u64, size: nat)
    requires IsWidth(size) && k + size <= |s.text|
    ensures TextScreen.Write(s, 0xB8000 - 0xA0000 + k, UnitOf(value, size)) == Stored(s, k, LowBytes(value, size))
  {
    FittingUnitStores(s, k, UnitOf(value, size));
  }

  /** The screen after the calls that the bus made to the handler, one write each. */
  function AfterCalls(s: Screen<u8>, calls: seq<Call<u64>>): Screen<u8> {
    if calls == [] then s
    else
      var last := calls[|calls| - 1];
      TextScreen.Write(AfterCalls(s, calls[..|calls| - 1]), last.offset, UnitOf(last.value, last.size))
  }

  lemma {:induction false} DefaultFillOnScreen(s: Screen<u8>, t: Target, size: nat, value: u64, count: nat)
    ensures AfterCalls(s, HandlerFill(t, size, value, count)) ==
            EachWritten(s, t.offset, size, UnitOf(value, size), count)
  {
    if count > 0 {
      var calls := HandlerFill(t, size, value, count);
      assert calls[..count - 1] == HandlerFill(t, size, value, count - 1);
      DefaultFillOnScreen(s, t, size, value, count - 1);
      EachWrittenBack(s, t.offset, size, UnitOf(value, size), count);
    }
  }

  /** So the handler's own fill does to the screen what the calls of the default fill would do,
      exactly when it starts outside the text or its stray bytes add nothing. */
  lemma OwnFillMeansDefaultIff(s: Screen<u8>, t: Target, size: nat, value: u64, count: nat)
    requires IsWidth(size)
    ensures
      var u := UnitOf(value, size);
      TextScreen.Fill(s, t.offset, size, u, count).0 == AfterCalls(s, HandlerFill(t, size, value, count)) <==>
      (InText(s, t.offset) ==> TextFillIsExact(s, t.offset - TEXT_START, u, count))
  {
    DefaultFillOnScreen(s, t, size, value, count);
    FillIsWritesIff(s, t.offset, UnitOf(value, size), count);
  }
}
