/** The VGA text buffer behind its MMIO handler, as bytes of type `B`: single writes of units,
    and the bulk fill that the handler puts in place of the default one. */
module TextScreen {
  import opened Machine
  import opened MmioBus

  /** Where the text buffer lies in the handler's region. */
  const TEXT_START: nat := 0x18000

  datatype Screen<B> = Screen(text: seq<B>, dirty: bool)

  predicate InText(s: Screen, offset: nat) {
    TEXT_START <= offset < TEXT_START + |s.text|
  }

  // ---- Single writes ----

  function WriteByte<B>(s: Screen<B>, at: nat, b: B): Screen<B> {
    if at < |s.text| then Screen(s.text[at := b], true) else s
  }

  /** A word that does not fit is dropped whole. */
  function WriteWord<B>(s: Screen<B>, at: nat, lo: B, hi: B): Screen<B> {
    if at + 1 < |s.text| then Screen(s.text[at := lo][at + 1 := hi], true) else s
  }

  /** The first `n` words of the unit, one after the other. */
  function WriteWords<B>(s: Screen<B>, at: nat, u: seq<B>, n: nat): (r: Screen<B>)
    requires 2 * n <= |u|
    ensures |r.text| == |s.text|
  {
    if n == 0 then s else WriteWord(WriteWords(s, at, u, n - 1), at + 2 * (n - 1), u[2 * n - 2], u[2 * n - 1])
  }

  /** A unit at a place in the text: units of 2, 4 and 8 bytes go word by word; of any other
      size only the first byte is written. */
  function WriteUnit<B>(s: Screen<B>, at: nat, u: seq<B>): (r: Screen<B>)
    requires u != []
    ensures |r.text| == |s.text|
  {
    if IsWidth(|u|) && |u| > 1 then WriteWords(s, at, u, |u| / 2) else WriteByte(s, at, u[0])
  }

  function Write<B>(s: Screen<B>, offset: nat, u: seq<B>): (r: Screen<B>)
    requires u != []
    ensures |r.text| == |s.text|
  {
    if InText(s, offset) then WriteUnit(s, offset - TEXT_START, u) else s
  }

  /** The default fill: a write per unit, `size` bytes apart, from the front. */
  function EachWritten<B>(s: Screen<B>, offset: nat, size: nat, u: seq<B>, count: nat): (r: Screen<B>)
    requires u != []
    ensures |r.text| == |s.text|
    decreases count
  {
    if count == 0 then s else EachWritten(Write(s, offset, u), offset + size, size, u, count - 1)
  }

  /** The same from the back. */
  lemma {:induction false} EachWrittenBack<B>(s: Screen<B>, offset: nat, size: nat, u: seq<B>, count: nat)
    requires u != [] && count > 0
    ensures EachWritten(s, offset, size, u, count) ==
            Write(EachWritten(s, offset, size, u, count - 1), At(offset, count - 1, size), u)
    decreases count
  {
    if count > 1 {
      EachWrittenBack(Write(s, offset, u), offset + size, size, u, count - 1);
      assert At(offset + size, count - 2, size) == At(offset, count - 1, size);
    }
  }

  // ---- The bulk fill ----

  /** How many units fit into the room. */
  function Fitting(room: nat, size: nat): nat
    requires size > 0
  {
    room / size
  }

  lemma FittingFits(room: nat, size: nat, n: nat)
    requires size > 0 && n <= Fitting(room, size)
    ensures n * size <= room
  {
    assert n * size <= Fitting(room, size) * size <= room;
  }

  /** The screen with the bytes stored; storing nothing leaves the dirty flag alone. */
  function Stored<B>(s: Screen<B>, at: nat, bytes: seq<B>): (r: Screen<B>)
    requires at + |bytes| <= |s.text|
    ensures |r.text| == |s.text|
  {
    if bytes == [] then s else Screen(Patch(s.text, at, bytes), true)
  }

  /** The units of a fill that fit, one after the other. */
  function Units<B>(room: nat, u: seq<B>, count: nat): (r: seq<B>)
    requires u != []
    ensures |r| <= room
  {
    FittingFits(room, |u|, Min(count, Fitting(room, |u|)));
    Repeat(u, Min(count, Fitting(room, |u|)))
  }

  /** The number of units that a fill reports as written. */
  function Reported(length: nat, offset: nat, count: nat, size: nat): nat {
    if TEXT_START <= offset < TEXT_START + length && size > 0
    then Min(count, Fitting(TEXT_START + length - offset, size)) else count
  }

  /** The fill does not panic: in the text, the size must not be 0, and units that fit must have
      as many bytes as their size says. */
  predicate FillReturns(s: Screen, offset: nat, size: nat, u: seq, count: nat) {
    InText(s, offset) ==> size > 0 && (|u| == size || Reported(|s.text|, offset, count, size) == 0)
  }

  /** The new screen, and the number of units reported as written. */
  function Fill<B>(s: Screen<B>, offset: nat, size: nat, u: seq<B>, count: nat): (Screen<B>, nat)
    requires u != [] && FillReturns(s, offset, size, u, count)
  {
    var n := Reported(|s.text|, offset, count, size);
    if !InText(s, offset) then (EachWritten(s, offset, size, u, count), n)
    else if |u| != size then (s, n)
    else (Stored(s, offset - TEXT_START, Units(TEXT_START + |s.text| - offset, u, count)), n)
  }

  /** A fill in the text: nothing when no unit fits, else copies of those that do. */
  lemma TextFill<B>(s: Screen<B>, at: nat, size: nat, u: seq<B>, count: nat)
    requires u != [] && at < |s.text| && FillReturns(s, TEXT_START + at, size, u, count)
    ensures
      var n := Min(count, Fitting(|s.text| - at, size));
      var r := Fill(s, TEXT_START + at, size, u, count);
      && (n == 0 ==> r == (s, 0))
      && (n > 0 ==> |u| == size && at + n * size <= |s.text| && at + |Repeat(u, n)| <= |s.text| &&
                    r == (Stored(s, at, Repeat(u, n)), n))
  {
    FittingFits(|s.text| - at, size, Min(count, Fitting(|s.text| - at, size)));
  }

  // ---- What single writes store ----

  lemma StoredAdjacent<B>(s: Screen<B>, at: nat, a: seq<B>, b: seq<B>)
    requires at + |a| + |b| <= |s.text|
    ensures Stored(Stored(s, at, a), at + |a|, b) == Stored(s, at, a + b)
  {
    if a == [] {
      assert a + b == b;
    } else if b == [] {
      assert a + b == a;
    } else {
      PatchAdjacent(s.text, at, a, b);
    }
  }

  /** The bytes of a unit that a write stores into the room: whole words only. */
  function Kept(width: nat, room: nat): (n: nat)
    ensures n <= width && n <= room
  {
    if width == 1 then Min(1, room) else 2 * Min(width / 2, room / 2)
  }

  lemma WordStores<B>(s: Screen<B>, at: nat, lo: B, hi: B)
    requires at + 2 <= |s.text|
    ensures WriteWord(s, at, lo, hi) == Stored(s, at, [lo, hi])
  {
  }

  lemma {:induction false} WordsStore<B>(s: Screen<B>, at: nat, u: seq<B>, n: nat)
    requires 2 * n <= |u| && at + 2 * n <= |s.text|
    ensures WriteWords(s, at, u, n) == Stored(s, at, u[..2 * n])
  {
    if n > 0 {
      WordsStore(s, at, u, n - 1);
      var before, word := u[..2 * n - 2], [u[2 * n - 2], u[2 * n - 1]];
      assert u[..2 * n] == before + word;
      WordStores(Stored(s, at, before), at + 2 * n - 2, word[0], word[1]);
      StoredAdjacent(s, at, before, word);
    }
  }

  /** Words that do not fit are dropped. */
  lemma {:induction false} WordsBeyond<B>(s: Screen<B>, at: nat, u: seq<B>, m: nat, n: nat)
    requires m <= n && 2 * n <= |u| && |s.text| <= at + 2 * m + 1
    ensures WriteWords(s, at, u, n) == WriteWords(s, at, u, m)
  {
    if m < n {
      WordsBeyond(s, at, u, m, n - 1);
    }
  }

  lemma UnitStores<B>(s: Screen<B>, at: nat, u: seq<B>)
    requires IsWidth(|u|) && at < |s.text|
    ensures Write(s, TEXT_START + at, u) == Stored(s, at, u[..Kept(|u|, |s.text| - at)])
  {
    if |u| > 1 {
      var n, m := |u| / 2, Min(|u| / 2, (|s.text| - at) / 2);
      if m < n {
        WordsBeyond(s, at, u, m, n);
      }
      WordsStore(s, at, u, m);
    } else {
      assert u[..1] == [u[0]];
    }
  }

  lemma FittingUnitStores<B>(s: Screen<B>, at: nat, u: seq<B>)
    requires IsWidth(|u|) && at + |u| <= |s.text|
    ensures Write(s, TEXT_START + at, u) == Stored(s, at, u)
  {
    UnitStores(s, at, u);
    assert Kept(|u|, |s.text| - at) == |u| && u[..|u|] == u;
  }

  /** Units that start past the text are dropped. */
  lemma {:induction false} WritesBeyond<B>(s: Screen<B>, at: nat, u: seq<B>, count: nat)
    requires u != [] && |s.text| <= at
    ensures EachWritten(s, TEXT_START + at, |u|, u, count) == s
    decreases count
  {
    if count > 0 {
      WritesBeyond(s, at + |u|, u, count - 1);
    }
  }

  /** All that single writes store into the room, unit by unit. */
  function Written<B>(room: nat, u: seq<B>, count: nat): (r: seq<B>)
    requires u != []
    ensures |r| <= room
    decreases count
  {
    if count == 0 then []
    else if |u| <= room then u + Written(room - |u|, u, count - 1)
    else u[..Kept(|u|, room)]
  }

  lemma WritesStep<B>(s: Screen<B>, at: nat, u: seq<B>, count: nat, next: Screen<B>, rest: seq<B>)
    requires IsWidth(|u|) && count > 0 && at + |u| + |rest| <= |s.text|
    requires next == Stored(s, at, u)
    requires EachWritten(next, TEXT_START + (at + |u|), |u|, u, count - 1) == Stored(next, at + |u|, rest)
    ensures EachWritten(s, TEXT_START + at, |u|, u, count) == Stored(s, at, u + rest)
  {
    FittingUnitStores(s, at, u);
    StoredAdjacent(s, at, u, rest);
  }

  lemma {:induction false} WritesAre<B>(s: Screen<B>, at: nat, room: nat, u: seq<B>, count: nat)
    requires |s.text| == at + room && IsWidth(|u|)
    ensures EachWritten(s, TEXT_START + at, |u|, u, count) == Stored(s, at, Written(room, u, count))
    decreases count
  {
    if count == 0 {
    } else if |u| <= room {
      var next, rest := Stored(s, at, u), Written(room - |u|, u, count - 1);
      assert EachWritten(s, TEXT_START + at, |u|, u, count) == Stored(s, at, u + rest) by {
        WritesAre(next, at + |u|, room - |u|, u, count - 1);
        WritesStep(s, at, u, count, next, rest);
      }
      assert Written(room, u, count) == u + rest;
    } else {
      WritesTail(s, at, room, u, count);
    }
  }

  lemma WritesTail<B>(s: Screen<B>, at: nat, room: nat, u: seq<B>, count: nat)
    requires |s.text| == at + room && room < |u| && IsWidth(|u|) && count > 0
    ensures EachWritten(s, TEXT_START + at, |u|, u, count) == Stored(s, at, u[..Kept(|u|, room)])
  {
    if room > 0 {
      UnitStores(s, at, u);
    }
    WritesBeyond(Write(s, TEXT_START + at, u), at + |u|, u, count - 1);
  }

  // ---- Whole units and stray bytes ----

  function Whole<B>(room: nat, u: seq<B>, count: nat): (r: seq<B>)
    requires u != []
    ensures |r| <= room
    decreases count
  {
    if count == 0 || room < |u| then [] else u + Whole(room - |u|, u, count - 1)
  }

  /** What single writes store of the unit that runs over the end, if the count reaches it. */
  function StrayBytes<B>(room: nat, u: seq<B>, count: nat): seq<B>
    requires u != []
    decreases count
  {
    if count == 0 then []
    else if room < |u| then u[..Kept(|u|, room)]
    else StrayBytes(room - |u|, u, count - 1)
  }

  lemma {:induction false} WrittenSplits<B>(room: nat, u: seq<B>, count: nat)
    requires u != []
    ensures Written(room, u, count) == Whole(room, u, count) + StrayBytes(room, u, count)
    decreases count
  {
    if count > 0 && |u| <= room {
      WrittenSplits(room - |u|, u, count - 1);
    }
  }

  lemma StoringChangesNothingIff<B>(s: Screen<B>, at: nat, bytes: seq<B>)
    requires at + |bytes| <= |s.text|
    ensures Stored(s, at, bytes) == s <==> (bytes != [] ==> s.text[at..at + |bytes|] == bytes && s.dirty)
  {
    if bytes != [] {
      var r := Patch(s.text, at, bytes);
      assert r[at..at + |bytes|] == bytes;
      if s.text[at..at + |bytes|] == bytes {
        assert forall i :: at <= i < at + |bytes| ==> s.text[i] == s.text[at..at + |bytes|][i - at];
        assert r == s.text;
      }
    }
  }

  lemma TailKept<B>(s: Screen<B>, at: nat, bytes: seq<B>, from: nat, to: nat)
    requires at + |bytes| <= from <= to <= |s.text|
    ensures Stored(s, at, bytes).text[from..to] == s.text[from..to]
  {
  }

  /** Storing `more` after `bytes` adds nothing: it is there already, and the screen is dirty. */
  ghost predicate AddsNothing<B>(s: Screen<B>, at: nat, bytes: seq<B>, more: seq<B>) {
    var end := at + |bytes|;
    more != [] ==> end + |more| <= |s.text| && s.text[end..end + |more|] == more && (s.dirty || bytes != [])
  }

  lemma StoringMoreIff<B>(s: Screen<B>, at: nat, bytes: seq<B>, more: seq<B>)
    requires at + |bytes| + |more| <= |s.text|
    ensures Stored(s, at, bytes) == Stored(s, at, bytes + more) <==> AddsNothing(s, at, bytes, more)
  {
    var end := at + |bytes|;
    StoredAdjacent(s, at, bytes, more);
    StoringChangesNothingIff(Stored(s, at, bytes), end, more);
    TailKept(s, at, bytes, end, end + |more|);
  }

  lemma WholeUnitsIff<B>(s: Screen<B>, at: nat, room: nat, u: seq<B>, count: nat)
    requires IsWidth(|u|) && |s.text| == at + room
    ensures Stored(s, at, Whole(room, u, count)) == EachWritten(s, TEXT_START + at, |u|, u, count) <==>
            AddsNothing(s, at, Whole(room, u, count), StrayBytes(room, u, count))
  {
    var whole, stray := Whole(room, u, count), StrayBytes(room, u, count);
    assert |whole + stray| <= room &&
           EachWritten(s, TEXT_START + at, |u|, u, count) == Stored(s, at, whole + stray) by {
      WritesAre(s, at, room, u, count);
      WrittenSplits(room, u, count);
    }
    StoringMoreIff(s, at, whole, stray);
  }

  // ---- In numbers ----

  /** The number of stray bytes: the whole words of the room that the units leave. */
  function Stray(room: nat, size: nat, count: nat): (n: nat)
    requires size > 0
    ensures n < size
  {
    if count <= Fitting(room, size) then 0 else 2 * (room % size / 2)
  }

  lemma {:induction false} RepeatFront<B>(u: seq<B>, n: nat)
    requires n > 0
    ensures Repeat(u, n) == u + Repeat(u, n - 1)
  {
    if n > 1 {
      RepeatFront(u, n - 1);
    }
  }

  /** One unit further, one unit less fits. */
  lemma NextUnit(room: nat, size: nat, count: nat)
    requires IsWidth(size) && size <= room && count > 0
    ensures Fitting(room, size) == Fitting(room - size, size) + 1
    ensures Stray(room, size, count) == Stray(room - size, size, count - 1)
  {
  }

  lemma LastUnit(room: nat, size: nat, count: nat)
    requires IsWidth(size) && room < size && count > 0
    ensures Fitting(room, size) == 0 && Stray(room, size, count) == Kept(size, room)
  {
  }

  lemma {:induction false} WholeIsUnits<B>(room: nat, u: seq<B>, count: nat)
    requires IsWidth(|u|)
    ensures Whole(room, u, count) == Units(room, u, count)
    decreases count
  {
    if count > 0 {
      if room < |u| {
        LastUnit(room, |u|, count);
      } else {
        WholeIsUnits(room - |u|, u, count - 1);
        NextUnit(room, |u|, count);
        RepeatFront(u, Min(count, Fitting(room, |u|)));
      }
    }
  }

  lemma {:induction false} StrayBytesAre<B>(room: nat, u: seq<B>, count: nat)
    requires IsWidth(|u|)
    ensures StrayBytes(room, u, count) == u[..Stray(room, |u|, count)]
    decreases count
  {
    if count > 0 {
      if room < |u| {
        LastUnit(room, |u|, count);
      } else {
        StrayBytesAre(room - |u|, u, count - 1);
        NextUnit(room, |u|, count);
      }
    }
  }

  // ---- When the bulk fill is the default one ----

  /** What a caller can check before a fill that starts in the text: no unit runs over the end
      with whole words inside; or those words are there already, and the screen is or gets dirty. */
  ghost predicate TextFillIsExact<B>(s: Screen<B>, at: nat, u: seq<B>, count: nat)
    requires at <= |s.text| && u != []
  {
    var room := |s.text| - at;
    AddsNothing(s, at, Units(room, u, count), u[..Stray(room, |u|, count)])
  }

  /** The bulk fill leaves the screen that single writes leave exactly when it starts outside
      the text or under that condition. It reports the whole count exactly when it starts
      outside the text or all units fit. */
  lemma FillIsWritesIff<B>(s: Screen<B>, offset: nat, u: seq<B>, count: nat)
    requires IsWidth(|u|)
    ensures Fill(s, offset, |u|, u, count).0 == EachWritten(s, offset, |u|, u, count) <==>
            (InText(s, offset) ==> TextFillIsExact(s, offset - TEXT_START, u, count))
    ensures Fill(s, offset, |u|, u, count).1 == count <==>
            (InText(s, offset) ==> count <= Fitting(|s.text| - (offset - TEXT_START), |u|))
  {
    if InText(s, offset) {
      var at := offset - TEXT_START;
      var room := |s.text| - at;
      WholeUnitsIff(s, at, room, u, count);
      WholeIsUnits(room, u, count);
      StrayBytesAre(room, u, count);
    }
  }

  lemma AlignedHasNoStray(at: nat, length: nat, size: nat, count: nat)
    requires IsWidth(size) && at <= length && at % size == 0 && length % size == 0
    ensures Stray(length - at, size, count) == 0
  {
  }

  /** Aligned fills of a text whose size is a multiple of the unit are exact for every count. */
  lemma AlignedFillIsWrites<B>(s: Screen<B>, at: nat, u: seq<B>, count: nat)
    requires IsWidth(|u|) && at % |u| == 0 && |s.text| % |u| == 0
    ensures Fill(s, TEXT_START + at, |u|, u, count).0 == EachWritten(s, TEXT_START + at, |u|, u, count)
  {
    FillIsWritesIff(s, TEXT_START + at, u, count);
    if at < |s.text| {
      AlignedHasNoStray(at, |s.text|, |u|, count);
    }
  }

  /** A unit of four over the last two bytes: single writes store its first word, the fill nothing. */
  lemma FillDropsTail() returns (s: Screen<nat>, u: seq<nat>)
    ensures |s.text| == 4000 && |u| == 4
    ensures Fill(s, TEXT_START + 3998, |u|, u, 1) == (s, 0) && EachWritten(s, TEXT_START + 3998, |u|, u, 1) != s
  {
    s, u := Screen(seq(4000, _ => 0), false), [1, 1, 1, 1];
    LastUnit(2, 4, 1);
    FillIsWritesIff(s, TEXT_START + 3998, u, 1);
  }
}
