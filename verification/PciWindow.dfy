/** The eight-byte port window of PCI configuration mechanism #1 as plain bytes: four bytes
    of address register, then the four data bytes of the selected dword. `B` is the type of
    bytes and `L` that of function locations. */
module PciWindow {
  import opened Machine

  datatype Window<L(==), B> = Window(address: seq<B>, spaces: map<L, seq<B>>)

  /** A dword of a function that is present. */
  datatype Selection<L> = Selection(location: L, offset: nat)

  ghost predicate Selects<L, B>(w: Window<L, B>, sel: Option<Selection<L>>) {
    && |w.address| == 4
    && (sel.Some? ==> sel.value.location in w.spaces && sel.value.offset + 4 <= |w.spaces[sel.value.location]|)
  }

  /** The accesses that are routed to the window: aligned ones. */
  predicate Routed(lane: nat, width: nat) {
    || (width == 1 && lane < 8)
    || (width == 2 && (lane == 0 || lane == 2 || lane == 4 || lane == 6))
    || (width == 4 && (lane == 0 || lane == 4))
  }

  /** That is: one, two or four bytes, aligned to their number, within the eight ports. */
  lemma RoutedIsAligned(lane: nat, width: nat)
    ensures Routed(lane, width) <==> (width == 1 || width == 2 || width == 4) && lane % width == 0 && lane + width <= 8
  {
  }

  /** The data bytes: those of the selected dword, or `ones` when there is none. */
  function DataBytes<L, B>(w: Window<L, B>, sel: Option<Selection<L>>, ones: seq<B>): (r: seq<B>)
    requires Selects(w, sel) && |ones| == 4
    ensures |r| == 4
  {
    if sel.Some? then w.spaces[sel.value.location][sel.value.offset..sel.value.offset + 4] else ones
  }

  /** Reads `width` bytes of the window. */
  function Peek<L, B>(w: Window<L, B>, sel: Option<Selection<L>>, ones: seq<B>, lane: nat, width: nat): seq<B>
    requires Selects(w, sel) && |ones| == 4 && lane + width <= 8
  {
    (w.address + DataBytes(w, sel, ones))[lane..lane + width]
  }

  /** Replaces bytes of the address register, or bytes of the selected function. */
  function Poke<L, B>(w: Window<L, B>, sel: Option<Selection<L>>, lane: nat, bytes: seq<B>): Window<L, B>
    requires Selects(w, sel) && Routed(lane, |bytes|)
  {
    if lane < 4 then w.(address := Patch(w.address, lane, bytes))
    else if sel.Some? then
      var Selection(l, at) := sel.value;
      w.(spaces := w.spaces[l := Patch(w.spaces[l], at + (lane - 4), bytes)])
    else w
  }

  // ---- The same through whole registers ----

  /** The four bytes of the register behind a lane. */
  function RegisterBytes<L, B>(w: Window<L, B>, sel: Option<Selection<L>>, ones: seq<B>, lane: nat): (r: seq<B>)
    requires Selects(w, sel) && |ones| == 4
    ensures |r| == 4
  {
    if lane < 4 then w.address else DataBytes(w, sel, ones)
  }

  function SetRegisterBytes<L, B>(w: Window<L, B>, sel: Option<Selection<L>>, lane: nat, four: seq<B>): Window<L, B>
    requires Selects(w, sel) && |four| == 4
  {
    if lane < 4 then w.(address := four)
    else if sel.Some? then
      var Selection(l, at) := sel.value;
      w.(spaces := w.spaces[l := Patch(w.spaces[l], at, four)])
    else w
  }

  lemma PeekIsRegister<L, B>(w: Window<L, B>, sel: Option<Selection<L>>, ones: seq<B>, lane: nat, width: nat)
    requires Selects(w, sel) && |ones| == 4 && Routed(lane, width)
    ensures Peek(w, sel, ones, lane, width) == RegisterBytes(w, sel, ones, lane)[lane % 4..lane % 4 + width]
  {
    SliceOfConcat(w.address, DataBytes(w, sel, ones), lane, lane + width);
    if lane < 4 {
      assert lane % 4 == lane;
    } else {
      assert lane % 4 == lane - 4;
    }
  }

  lemma PatchInside<T>(s: seq<T>, at: nat, k: nat, bytes: seq<T>)
    requires at + 4 <= |s| && k + |bytes| <= 4
    ensures Patch(s, at, Patch(s[at..at + 4], k, bytes)) == Patch(s, at + k, bytes)
  {
  }

  /** A read-modify-write of a whole register replaces just the bytes that were modified. */
  lemma ReadModifyWriteIsPoke<L, B>(w: Window<L, B>, sel: Option<Selection<L>>, ones: seq<B>, lane: nat, bytes: seq<B>)
    requires Selects(w, sel) && |ones| == 4 && Routed(lane, |bytes|)
    ensures SetRegisterBytes(w, sel, lane, Patch(RegisterBytes(w, sel, ones, lane), lane % 4, bytes)) ==
            Poke(w, sel, lane, bytes)
  {
    if lane < 4 {
      assert lane % 4 == lane;
    } else if sel.Some? {
      assert lane % 4 == lane - 4;
      PatchInside(w.spaces[sel.value.location], sel.value.offset, lane - 4, bytes);
    }
  }
}
