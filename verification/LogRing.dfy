/** The kernel log's ring buffer. It stores no length: the reader guesses from
    non-zero bytes whether the buffer is empty, partly filled or wrapped. */
module LogRing {
  import opened Machine

  const RINGBUF_SIZE: nat := 65536

  /** The reader's guess at the number of valid bytes. */
  function ValidLen(buf: seq<u8>, writePos: nat): nat
    requires |buf| == RINGBUF_SIZE && writePos < RINGBUF_SIZE
  {
    if writePos == 0 then
      if buf[0] == 0 then 0 else RINGBUF_SIZE
    else if buf[writePos] != 0 && buf[writePos - 1] != 0 && buf[0] != 0 then RINGBUF_SIZE
    else writePos
  }

  /** The `valid` bytes ending at the write position, oldest first. */
  function OldestFirst(buf: seq<u8>, writePos: nat, valid: nat): seq<u8>
    requires |buf| == RINGBUF_SIZE && writePos < RINGBUF_SIZE
    requires valid == writePos || valid == RINGBUF_SIZE || valid == 0
  {
    if writePos >= valid then buf[..valid] else buf[writePos..] + buf[..writePos]
  }

  function NextPos(pos: nat): (r: nat)
    requires pos < RINGBUF_SIZE
    ensures r < RINGBUF_SIZE
  {
    if pos + 1 >= RINGBUF_SIZE then 0 else pos + 1
  }

  datatype Contents = Contents(buf: seq<u8>, writePos: nat)

  /** Byte-wise storing from a position in range. */
  function Store(c: Contents, bytes: seq<u8>): (r: Contents)
    requires |c.buf| == RINGBUF_SIZE && c.writePos < RINGBUF_SIZE
    ensures |r.buf| == RINGBUF_SIZE && r.writePos < RINGBUF_SIZE
    decreases |bytes|
  {
    if bytes == [] then c
    else
      var last := |bytes| - 1;
      var r := Store(c, bytes[..last]);
      Contents(r.buf[r.writePos := bytes[last]], NextPos(r.writePos))
  }

  class RingBuffer {
    const buf: array<u8>
    var writePos: nat
    ghost var history: seq<u8>

    /** The buffer is the image of all bytes written so far. */
    ghost predicate Valid()
      reads this, buf
    {
      Represents(Contents(buf[..], writePos), history)
    }

    constructor ()
      ensures fresh(buf) && buf[..] == Empty().buf && writePos == Empty().writePos
      ensures Valid() && history == []
    {
      buf := new u8[RINGBUF_SIZE](_ => 0);
      writePos := 0;
      history := [];
      new;
      WritesRepresent([]);
      assert buf[..] == Empty().buf;
    }

    method WriteBytes(bytes: seq<u8>)
      requires buf.Length == RINGBUF_SIZE
      modifies this, buf
      ensures Contents(buf[..], writePos) ==
              Store(Contents(old(buf[..]), old(writePos) % RINGBUF_SIZE), bytes)
      ensures history == old(history) + bytes && (old(Valid()) ==> Valid())
    {
      if writePos >= RINGBUF_SIZE {
        writePos := writePos % RINGBUF_SIZE;
      }
      ghost var start := Contents(buf[..], writePos);
      if Valid() {
        StoreRepresents(start, history, bytes);
      }
      history := history + bytes;
      for i := 0 to |bytes|
        invariant history == old(history) + bytes
        invariant writePos < RINGBUF_SIZE
        invariant Contents(buf[..], writePos) == Store(start, bytes[..i])
      {
        assert bytes[..i + 1][..i] == bytes[..i];
        buf[writePos] := bytes[i];
        writePos := writePos + 1;
        if writePos >= RINGBUF_SIZE {
          writePos := 0;
        }
      }
      assert bytes[..|bytes|] == bytes;
    }

    /** The destination gets the oldest of the last `valid` bytes written. */
    method ReadToSlice(dest: array<u8>) returns (copied: nat, valid: nat)
      requires buf.Length == RINGBUF_SIZE && writePos < RINGBUF_SIZE && dest != buf
      modifies dest
      ensures valid == ValidLen(buf[..], writePos)
      ensures copied == Min(dest.Length, valid)
      ensures dest[..] == Patch(old(dest[..]), 0, OldestFirst(buf[..], writePos, valid)[..copied])
      ensures Valid() ==> valid == ReportedLen(history) <= |history|
      ensures Valid() ==> dest[..] == Patch(old(dest[..]), 0, LastBytes(history, valid)[..copied])
    {
      if Valid() {
        ReaderOn(Contents(buf[..], writePos), history);
      }
      if writePos == 0 {
        valid := if buf[0] == 0 then 0 else RINGBUF_SIZE;
      } else {
        var hasWrapped := buf[writePos] != 0 && buf[writePos - 1] != 0;
        valid := if hasWrapped && buf[0] != 0 then RINGBUF_SIZE else writePos;
      }
      if valid == 0 {
        return 0, 0;
      }
      copied := Min(dest.Length, valid);
      if writePos >= valid {
        Copy(buf, 0, dest, 0, copied);
      } else {
        CopyWrapped(buf, writePos, dest, copied);
      }
    }
  }

  /** Copies the first `n` bytes of the rotation that starts at `at`. */
  method CopyWrapped<T>(buf: array<T>, at: nat, dest: array<T>, n: nat)
    requires at < buf.Length && n <= buf.Length && n <= dest.Length && dest != buf
    modifies dest
    ensures dest[..] == Patch(old(dest[..]), 0, (buf[..][at..] + buf[..][..at])[..n])
  {
    ghost var was, b := dest[..], buf[..];
    var first := Min(n, buf.Length - at);
    TwoChunks(was, b, at, n);
    Copy(buf, at, dest, 0, first);
    if n > first {
      Copy(buf, 0, dest, first, n - first);
    }
  }

  lemma TwoChunks<T>(was: seq<T>, s: seq<T>, at: nat, n: nat)
    requires at < |s| && n <= |s| && n <= |was|
    ensures
      var first := Min(n, |s| - at);
      var once := Patch(was, 0, s[at..at + first]);
      Patch(was, 0, (s[at..] + s[..at])[..n]) == if n > first then Patch(once, first, s[0..n - first]) else once
  {
    var first := Min(n, |s| - at);
    RotationPrefix(s, at, n);
    if n > first {
      PatchAdjacent(was, 0, s[at..at + first], s[0..n - first]);
    } else {
      assert s[at..at + first] + s[0..0] == s[at..at + first];
    }
  }

  lemma RotationPrefix<T>(s: seq<T>, at: nat, n: nat)
    requires at < |s| && n <= |s|
    ensures
      var first := Min(n, |s| - at);
      (s[at..] + s[..at])[..n] == s[at..at + first] + s[0..n - first]
  {
  }

  /** `copy_from_slice` between two arrays. */
  method Copy<T>(from: array<T>, i: nat, to: array<T>, j: nat, n: nat)
    requires from != to && i + n <= from.Length && j + n <= to.Length
    modifies to
    ensures to[..] == Patch(old(to[..]), j, from[..][i..i + n])
  {
    forall k | 0 <= k < n {
      to[j + k] := from[i + k];
    }
  }

  // ---- Histories ----

  function Empty(): Contents {
    Contents(seq(RINGBUF_SIZE, _ => 0), 0)
  }

  function Flatten(writes: seq<seq<u8>>): seq<u8> {
    if writes == [] then [] else Flatten(writes[..|writes| - 1]) + writes[|writes| - 1]
  }

  /** The buffer after any sequence of writes. */
  function AfterWrites(writes: seq<seq<u8>>): (r: Contents)
    ensures |r.buf| == RINGBUF_SIZE && r.writePos < RINGBUF_SIZE
  {
    if writes == [] then Empty()
    else Store(AfterWrites(writes[..|writes| - 1]), writes[|writes| - 1])
  }

  /** What the buffer should still hold of a history. */
  function Retained(h: seq<u8>): seq<u8> {
    LastBytes(h, Min(|h|, RINGBUF_SIZE))
  }

  function LastBytes(h: seq<u8>, n: nat): seq<u8>
    requires n <= |h|
  {
    h[|h| - n..]
  }

  /** The abstraction relation between the buffer and the bytes written so far. */
  ghost predicate Represents(c: Contents, h: seq<u8>) {
    && |c.buf| == RINGBUF_SIZE
    && c.writePos == |h| % RINGBUF_SIZE
    && if |h| < RINGBUF_SIZE
       then c.buf[..|h|] == h && forall i :: |h| <= i < RINGBUF_SIZE ==> c.buf[i] == 0
       else c.buf[c.writePos..] + c.buf[..c.writePos] == Retained(h)
  }

  /** Overwriting the oldest element of a rotation and moving on drops it and appends. */
  lemma RotationMoves<T>(buf: seq<T>, p: nat, x: T)
    requires p < |buf|
    ensures
      var next := buf[p := x];
      var q := if p + 1 == |buf| then 0 else p + 1;
      next[q..] + next[..q] == (buf[p..] + buf[..p])[1..] + [x]
  {
  }

  lemma StoreByteRepresents(c: Contents, h: seq<u8>, b: u8)
    requires Represents(c, h)
    ensures Represents(Contents(c.buf[c.writePos := b], NextPos(c.writePos)), h + [b])
  {
    var h' := h + [b];
    var p := c.writePos;
    var r := Contents(c.buf[p := b], NextPos(p));
    if |h'| < RINGBUF_SIZE {
      assert r.buf[..|h'|] == h';
    } else if |h'| == RINGBUF_SIZE {
      assert r.buf[0..] + r.buf[..0] == h';
    } else {
      var was := c.buf[p..] + c.buf[..p];
      assert was[1..] + [b] == Retained(h');
      RotationMoves(c.buf, p, b);
    }
  }

  lemma {:induction false} StoreRepresents(c: Contents, h: seq<u8>, bytes: seq<u8>)
    requires Represents(c, h)
    ensures Represents(Store(c, bytes), h + bytes)
    decreases |bytes|
  {
    if bytes == [] {
      assert h + bytes == h;
    } else {
      var last := |bytes| - 1;
      StoreRepresents(c, h, bytes[..last]);
      StoreByteRepresents(Store(c, bytes[..last]), h + bytes[..last], bytes[last]);
      assert h + bytes == h + bytes[..last] + [bytes[last]];
    }
  }

  lemma {:induction false} WritesRepresent(writes: seq<seq<u8>>)
    ensures Represents(AfterWrites(writes), Flatten(writes))
  {
    if writes != [] {
      var init := writes[..|writes| - 1];
      WritesRepresent(init);
      StoreRepresents(AfterWrites(init), Flatten(init), writes[|writes| - 1]);
    }
  }

  // ---- What the reader returns ----

  /** The three probed bytes of a full buffer: oldest, newest, and the one in slot 0.
      With the write position at 0 only the oldest is probed. */
  ghost predicate ProbesNonZero(h: seq<u8>)
    requires |h| >= RINGBUF_SIZE
  {
    var oldest := h[|h| - RINGBUF_SIZE];
    var pos := |h| % RINGBUF_SIZE;
    oldest != 0 && (pos != 0 ==> h[|h| - 1] != 0 && h[|h| - pos] != 0)
  }

  lemma ReadBeforeWrap(c: Contents, h: seq<u8>)
    requires Represents(c, h) && |h| < RINGBUF_SIZE
    ensures ValidLen(c.buf, c.writePos) == |h|
    ensures OldestFirst(c.buf, c.writePos, |h|) == h
  {
  }

  lemma ReadAfterWrap(c: Contents, h: seq<u8>)
    requires Represents(c, h) && |h| >= RINGBUF_SIZE
    ensures ValidLen(c.buf, c.writePos) == if ProbesNonZero(h) then RINGBUF_SIZE else c.writePos
    ensures OldestFirst(c.buf, c.writePos, RINGBUF_SIZE) == Retained(h)
    ensures OldestFirst(c.buf, c.writePos, c.writePos) == LastBytes(h, c.writePos)
  {
    var p := c.writePos;
    var all := c.buf[p..] + c.buf[..p];
    assert all[0] == c.buf[p];
    if p != 0 {
      assert all[RINGBUF_SIZE - 1] == c.buf[p - 1];
      assert all[RINGBUF_SIZE - p] == c.buf[0];
    }
    assert c.buf[..p] == all[RINGBUF_SIZE - p..];
  }

  /** The length that the reader reports for a history: what is retained of it, except that
      a full buffer with a zero among its probed bytes passes for a partly filled one. */
  ghost function ReportedLen(h: seq<u8>): nat {
    if |h| < RINGBUF_SIZE || ProbesNonZero(h) then |Retained(h)| else |h| % RINGBUF_SIZE
  }

  lemma ReaderOn(c: Contents, h: seq<u8>)
    requires Represents(c, h)
    ensures
      var v := ValidLen(c.buf, c.writePos);
      v == ReportedLen(h) <= |h| && OldestFirst(c.buf, c.writePos, v) == LastBytes(h, v)
  {
    if |h| < RINGBUF_SIZE {
      ReadBeforeWrap(c, h);
    } else {
      ReadAfterWrap(c, h);
    }
  }

  /** For every history, with or without NUL bytes: the reader returns the last v bytes
      written, v being the reported length. */
  lemma ReaderOnAnyHistory(writes: seq<seq<u8>>)
    ensures
      var c, h := AfterWrites(writes), Flatten(writes);
      var v := ValidLen(c.buf, c.writePos);
      v == ReportedLen(h) <= |h| && OldestFirst(c.buf, c.writePos, v) == LastBytes(h, v)
  {
    WritesRepresent(writes);
    ReaderOn(AfterWrites(writes), Flatten(writes));
  }

  /** The detected length is right exactly when nothing has wrapped or the probes are non-zero. */
  lemma LengthRightIff(writes: seq<seq<u8>>)
    ensures
      var c, h := AfterWrites(writes), Flatten(writes);
      ValidLen(c.buf, c.writePos) == |Retained(h)| <==> |h| < RINGBUF_SIZE || ProbesNonZero(h)
  {
    ReaderOnAnyHistory(writes);
  }

  /** A full buffer of NUL bytes reads as an empty one. */
  lemma NulLogReadsEmpty() returns (writes: seq<seq<u8>>)
    ensures |Retained(Flatten(writes))| == RINGBUF_SIZE
    ensures ValidLen(AfterWrites(writes).buf, AfterWrites(writes).writePos) == 0
  {
    var nul: seq<u8> := seq(RINGBUF_SIZE, _ => 0);
    writes := [nul];
    assert writes[..0] == [];
    assert Flatten(writes) == nul;
    ReaderOnAnyHistory(writes);
  }

  /** Log text has no NUL bytes, and then the reader is right. */
  lemma ReaderOnText(writes: seq<seq<u8>>)
    requires 0 !in Flatten(writes)
    ensures
      var c, h := AfterWrites(writes), Flatten(writes);
      && ValidLen(c.buf, c.writePos) == Min(|h|, 65536)
      && OldestFirst(c.buf, c.writePos, Min(|h|, 65536)) == h[|h| - Min(|h|, 65536)..]
  {
    ReaderOnAnyHistory(writes);
  }
}
