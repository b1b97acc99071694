/** The kernel log's pool of two line buffers, shared by any number of callers. A call
    of `LogLineBuffer::new` loads the state byte and then tries compare-exchanges until
    it owns a buffer or sees both in use; dropping the handle clears its bit. Every
    atomic access is one step, and a run is any sequence of steps of any callers. */
module LogPool {
  import opened Machine

  const LINE_SIZE: nat := 1024

  datatype Slot = Zero | One

  function BitOf(slot: Slot): u8 {
    match slot
    case Zero => 1
    case One => 2
  }

  predicate InUse(state: u8, slot: Slot) {
    state & BitOf(slot) != 0
  }

  /** Where one call of `new`, and the handle it returns, stands. */
  datatype Phase =
    | Trying(seen: u8)              // `current_state` holds `seen`
    | Holding(slot: Slot, len: nat) // `new` returned a handle
    | Refused                       // `new` returned None
    | Dropped

  type Caller = nat

  datatype Pool = Pool(state: u8, buffers: map<Slot, seq<u8>>, calls: map<Caller, Phase>)

  datatype Event =
    | Load(id: Caller)
    | Attempt(id: Caller)
    | Write(id: Caller, text: seq<u8>)
    | Drop(id: Caller)

  function Init(): Pool {
    var blank := seq(LINE_SIZE, _ => 0);
    Pool(0, map[Zero := blank, One := blank], map[])
  }

  /** One pass of the acquisition loop of a caller that last saw `seen`. */
  function TryAcquire(s: Pool, id: Caller, seen: u8): Pool {
    if seen & 1 == 0 then CompareExchange(s, id, seen, Zero)
    else if seen & 2 == 0 then CompareExchange(s, id, seen, One)
    else s.(calls := s.calls[id := Refused])
  }

  function CompareExchange(s: Pool, id: Caller, seen: u8, slot: Slot): Pool {
    if s.state == seen then s.(state := seen | BitOf(slot), calls := s.calls[id := Holding(slot, 0)])
    else s.(calls := s.calls[id := Trying(s.state)])
  }

  /** `write_str`: appends, or fails and changes nothing when the text does not fit. */
  function WriteStr(s: Pool, id: Caller, slot: Slot, len: nat, text: seq<u8>): Pool {
    if slot !in s.buffers || len + |text| > |s.buffers[slot]| then s
    else
      var b := s.buffers[slot];
      Pool(s.state,
           s.buffers[slot := b[..len] + text + b[len + |text|..]],
           s.calls[id := Holding(slot, len + |text|)])
  }

  /** Events that make no sense in a state leave it unchanged. */
  function Step(s: Pool, e: Event): Pool {
    if e.Load? then
      if e.id in s.calls then s else s.(calls := s.calls[e.id := Trying(s.state)])
    else if e.id !in s.calls then s
    else match (e, s.calls[e.id])
      case (Attempt(id), Trying(seen)) => TryAcquire(s, id, seen)
      case (Write(id, text), Holding(slot, len)) => WriteStr(s, id, slot, len, text)
      case (Drop(id), Holding(slot, _)) => s.(state := s.state & !BitOf(slot), calls := s.calls[id := Dropped])
      case _ => s
  }

  function Run(events: seq<Event>): Pool {
    if events == [] then Init() else Step(Run(events[..|events| - 1]), events[|events| - 1])
  }

  // ---- Ownership ----

  predicate Owns(s: Pool, id: Caller, slot: Slot) {
    id in s.calls && s.calls[id].Holding? && s.calls[id].slot == slot
  }

  ghost predicate Owned(s: Pool, slot: Slot) {
    exists id :: Owns(s, id, slot)
  }

  ghost predicate Inv(s: Pool) {
    && s.state & !3 == 0
    && (forall slot :: InUse(s.state, slot) <==> Owned(s, slot))
    && (forall slot, a, b :: Owns(s, a, slot) && Owns(s, b, slot) ==> a == b)
    && (forall slot :: slot in s.buffers && |s.buffers[slot]| == LINE_SIZE)
    && (forall id :: id in s.calls && s.calls[id].Holding? ==> s.calls[id].len <= LINE_SIZE)
  }

  lemma SlotsDiffer(x: u8, slot: Slot, other: Slot)
    requires slot != other
    ensures InUse(x | BitOf(slot), other) <==> InUse(x, other)
    ensures InUse(x & !BitOf(slot), other) <==> InUse(x, other)
  {
  }

  lemma AcquireKeepsInv(s: Pool, id: Caller, seen: u8, slot: Slot)
    requires Inv(s) && id in s.calls && s.calls[id] == Trying(seen)
    requires !InUse(seen, slot)
    ensures Inv(CompareExchange(s, id, seen, slot))
  {
    var t := CompareExchange(s, id, seen, slot);
    var won := s.state == seen;
    assert forall a, other :: Owns(t, a, other) <==> Owns(s, a, other) || (won && a == id && other == slot);
    if won {
      assert Owns(t, id, slot) && !Owned(s, slot);
      forall other
        ensures InUse(t.state, other) <==> Owned(t, other)
      {
        if other != slot {
          SlotsDiffer(seen, slot, other);
          assert Owned(t, other) <==> Owned(s, other);
        }
      }
    }
  }

  lemma DropKeepsInv(s: Pool, id: Caller, slot: Slot)
    requires Inv(s) && Owns(s, id, slot)
    ensures Inv(Step(s, Drop(id)))
  {
    var t := Step(s, Drop(id));
    assert forall a, other :: Owns(t, a, other) <==> Owns(s, a, other) && a != id;
    forall other
      ensures InUse(t.state, other) <==> Owned(t, other)
    {
      if other != slot {
        SlotsDiffer(s.state, slot, other);
        assert Owned(t, other) <==> Owned(s, other);
      } else {
        assert !Owned(t, slot);
      }
    }
  }

  /** Steps that change neither the state byte nor who owns what. */
  lemma SameOwnersKeepInv(s: Pool, t: Pool)
    requires Inv(s) && t.state == s.state
    requires forall a, slot :: Owns(t, a, slot) <==> Owns(s, a, slot)
    requires forall slot :: slot in t.buffers && |t.buffers[slot]| == LINE_SIZE
    requires forall id :: id in t.calls && t.calls[id].Holding? ==> t.calls[id].len <= LINE_SIZE
    ensures Inv(t)
  {
    assert forall slot :: Owned(t, slot) <==> Owned(s, slot);
  }

  lemma AttemptKeepsInv(s: Pool, id: Caller, seen: u8)
    requires Inv(s) && id in s.calls && s.calls[id] == Trying(seen)
    ensures Inv(TryAcquire(s, id, seen))
  {
    if seen & 1 == 0 {
      AcquireKeepsInv(s, id, seen, Zero);
    } else if seen & 2 == 0 {
      AcquireKeepsInv(s, id, seen, One);
    } else {
      SameOwnersKeepInv(s, TryAcquire(s, id, seen));
    }
  }

  lemma StepKeepsInv(s: Pool, e: Event)
    requires Inv(s)
    ensures Inv(Step(s, e))
  {
    if e.Attempt? && e.id in s.calls && s.calls[e.id].Trying? {
      AttemptKeepsInv(s, e.id, s.calls[e.id].seen);
    } else if e.Drop? && e.id in s.calls && s.calls[e.id].Holding? {
      DropKeepsInv(s, e.id, s.calls[e.id].slot);
    } else {
      SameOwnersKeepInv(s, Step(s, e));
    }
  }

  /** In every interleaving: a bit is set exactly when one live handle owns that buffer,
      and no two live handles share one. */
  lemma {:induction false} RunKeepsInv(events: seq<Event>)
    ensures Inv(Run(events))
  {
    if events == [] {
      assert forall slot :: !Owned(Init(), slot);
      forall slot: Slot
        ensures slot in Init().buffers && |Init().buffers[slot]| == LINE_SIZE
      {
        match slot {
          case Zero =>
          case One =>
        }
      }
    } else {
      RunKeepsInv(events[..|events| - 1]);
      StepKeepsInv(Run(events[..|events| - 1]), events[|events| - 1]);
    }
  }

  /** A release frees its own buffer and leaves the other one's bit, bytes and owner alone. */
  lemma ReleaseIsLocal(events: seq<Event>, id: Caller, slot: Slot)
    requires Owns(Run(events), id, slot)
    ensures
      var s, t := Run(events), Step(Run(events), Drop(id));
      && !InUse(t.state, slot)
      && t.buffers == s.buffers
      && forall other, a :: other != slot ==>
           (InUse(t.state, other) <==> InUse(s.state, other)) && (Owns(t, a, other) <==> Owns(s, a, other))
  {
    var s := Run(events);
    RunKeepsInv(events);
    forall other | other != slot
      ensures InUse(Step(s, Drop(id)).state, other) <==> InUse(s.state, other)
    {
      SlotsDiffer(s.state, slot, other);
    }
  }

  // ---- What acquisition does ----

  /** A new call starts from the state byte as it is. */
  lemma LoadStarts(events: seq<Event>, id: Caller)
    requires id !in Run(events).calls
    ensures Step(Run(events), Load(id)) == Run(events).(calls := Run(events).calls[id := Trying(Run(events).state)])
  {
  }

  lemma LowBits(state: u8)
    ensures InUse(state, Zero) <==> state % 2 == 1
    ensures InUse(state, One) <==> state / 2 % 2 == 1
  {
  }

  lemma SetBits(state: u8)
    ensures state % 2 == 0 ==> state | BitOf(Zero) == state + 1
    ensures state / 2 % 2 == 0 ==> state | BitOf(One) == state + 2
  {
  }

  /** A caller whose value is current gets buffer 0 if that has no owner, else buffer 1 if that
      has none, and else nothing. The state byte gains the buffer's bit, and nothing else changes. */
  lemma AttemptOutcome(events: seq<Event>, id: Caller)
    requires IsTrying(Run(events), id, Run(events).state)
    ensures
      var s, t := Run(events), Step(Run(events), Attempt(id));
      if !Owned(s, Zero) then t == s.(state := s.state + 1, calls := s.calls[id := Holding(Zero, 0)])
      else if !Owned(s, One) then t == s.(state := s.state + 2, calls := s.calls[id := Holding(One, 0)])
      else t == s.(calls := s.calls[id := Refused])
  {
    var s := Run(events);
    RunKeepsInv(events);
    LowBits(s.state);
    SetBits(s.state);
    assert InUse(s.state, Zero) <==> Owned(s, Zero);
    assert InUse(s.state, One) <==> Owned(s, One);
    assert s.calls[id] == Trying(s.state);
  }

  /** A caller whose value is out of date and shows a free buffer tries again with the current one. */
  lemma StaleAttemptRetries(events: seq<Event>, id: Caller, seen: u8)
    requires IsTrying(Run(events), id, seen) && seen != Run(events).state
    requires !(InUse(seen, Zero) && InUse(seen, One))
    ensures Step(Run(events), Attempt(id)) == Run(events).(calls := Run(events).calls[id := Trying(Run(events).state)])
  {
    LowBits(seen);
  }

  /** A caller whose value shows both buffers in use gives up without another access. */
  lemma FullAttemptGivesUp(events: seq<Event>, id: Caller, seen: u8)
    requires IsTrying(Run(events), id, seen) && InUse(seen, Zero) && InUse(seen, One)
    ensures Step(Run(events), Attempt(id)) == Run(events).(calls := Run(events).calls[id := Refused])
  {
    LowBits(seen);
  }

  /** A write is taken whole or not at all: exactly when it fits what is left of 1024 bytes. */
  lemma WriteOutcome(events: seq<Event>, id: Caller, slot: Slot, text: seq<u8>)
    requires Owns(Run(events), id, slot)
    ensures
      var before, after := OwnText(events, id), OwnText(events + [Write(id, text)], id);
      after == if |before| + |text| <= 1024 then before + text else before
  {
    assert (events + [Write(id, text)])[..|events|] == events;
  }

  // ---- Isolation of the text ----

  /** `before`, extended by the text of a write that this handle makes and that fits. */
  function Accept(s: Pool, e: Event, id: Caller, before: seq<u8>): seq<u8> {
    if e.Write? && e.id == id && id in s.calls && s.calls[id].Holding? && |before| + |e.text| <= LINE_SIZE
    then before + e.text
    else before
  }

  /** What the handle of `id` itself has written: its accepted texts, in order. */
  function OwnText(events: seq<Event>, id: Caller): seq<u8> {
    if events == [] then []
    else
      var init := events[..|events| - 1];
      Accept(Run(init), events[|events| - 1], id, OwnText(init, id))
  }

  ghost predicate TextIsOwn(s: Pool, id: Caller, text: seq<u8>) {
    if id !in s.calls || s.calls[id].Trying? then text == []
    else s.calls[id].Holding? ==>
      var Holding(slot, len) := s.calls[id];
      slot in s.buffers && len == |text| <= |s.buffers[slot]| && s.buffers[slot][..len] == text
  }

  lemma WriteKeepsText(s: Pool, e: Event, id: Caller, text: seq<u8>)
    requires Inv(s) && TextIsOwn(s, id, text)
    requires e.Write? && e.id in s.calls && s.calls[e.id].Holding?
    ensures TextIsOwn(Step(s, e), id, Accept(s, e, id, text))
  {
    var Holding(slot, len) := s.calls[e.id];
    assert slot in s.buffers && |s.buffers[slot]| == LINE_SIZE;
    var t := WriteStr(s, e.id, slot, len, e.text);
    if e.id == id {
      if len + |e.text| <= LINE_SIZE {
        assert t.buffers[slot][..len + |e.text|] == text + e.text;
      }
    } else if id in s.calls && s.calls[id].Holding? {
      assert Owns(s, e.id, slot) && Owns(s, id, s.calls[id].slot);
    }
  }

  lemma StepKeepsText(s: Pool, e: Event, id: Caller, text: seq<u8>)
    requires Inv(s) && TextIsOwn(s, id, text)
    ensures TextIsOwn(Step(s, e), id, Accept(s, e, id, text))
  {
    if e.Write? && e.id in s.calls && s.calls[e.id].Holding? {
      WriteKeepsText(s, e, id, text);
    }
  }

  /** In every interleaving a live handle reads back exactly what it wrote itself. */
  lemma {:induction false} HandleReadsOwnText(events: seq<Event>, id: Caller)
    ensures TextIsOwn(Run(events), id, OwnText(events, id))
  {
    if events != [] {
      var init := events[..|events| - 1];
      RunKeepsInv(init);
      HandleReadsOwnText(init, id);
      StepKeepsText(Run(init), events[|events| - 1], id, OwnText(init, id));
    }
  }

  // ---- Refusals and retries ----

  predicate IsTrying(s: Pool, id: Caller, seen: u8) {
    id in s.calls && s.calls[id] == Trying(seen)
  }

  /** A step that leaves the caller trying with another value has just read that value. */
  lemma TryingStep(s: Pool, e: Event, id: Caller, seen: u8)
    requires IsTrying(Step(s, e), id, seen) && !IsTrying(s, id, seen)
    ensures Step(s, e).state == seen
  {
    assert e.id == id;
    match e {
      case Load(_) =>
      case Attempt(_) => assert s.calls[id].Trying?;
      case Write(_, _) =>
      case Drop(_) =>
    }
  }

  lemma PrefixOfPrefix(events: seq<Event>, n: nat, i: nat)
    requires i <= n <= |events|
    ensures events[..n][..i] == events[..i]
  {
  }

  /** The moment at which `id` last read the state byte: from then on it has kept trying
      with the value that was really there. */
  lemma {:induction false} ObservedAt(events: seq<Event>, id: Caller, seen: u8) returns (i: nat)
    requires IsTrying(Run(events), id, seen)
    ensures i <= |events| && Run(events[..i]).state == seen
    ensures forall j :: i <= j <= |events| ==> IsTrying(Run(events[..j]), id, seen)
  {
    var n := |events| - 1;
    var s := Run(events[..n]);
    assert events[..|events|] == events;
    if IsTrying(s, id, seen) {
      i := ObservedAt(events[..n], id, seen);
      PrefixOfPrefix(events, n, i);
      forall j | i <= j <= |events|
        ensures IsTrying(Run(events[..j]), id, seen)
      {
        if j <= n {
          PrefixOfPrefix(events, n, j);
        }
      }
    } else {
      i := |events|;
      TryingStep(s, events[n], id, seen);
    }
  }

  /** The call of `id` is under way and both buffers have owners. */
  ghost predicate FullDuringCall(s: Pool, id: Caller) {
    id in s.calls && s.calls[id].Trying? && forall slot :: Owned(s, slot)
  }

  /** The step that refuses a caller finds it trying with both bits seen. */
  lemma RefusalStep(s: Pool, e: Event, id: Caller)
    requires id in Step(s, e).calls && Step(s, e).calls[id].Refused?
    requires !(id in s.calls && s.calls[id].Refused?)
    ensures id in s.calls && s.calls[id].Trying? && forall slot :: InUse(s.calls[id].seen, slot)
  {
    var seen := s.calls[id].seen;
    forall slot
      ensures InUse(seen, slot)
    {
      match slot {
        case Zero =>
        case One =>
      }
    }
  }

  /** `new` returns None only after a moment, during the call, at which both buffers had owners. */
  lemma {:induction false} RefusedOnlyWhenFull(events: seq<Event>, id: Caller)
    requires id in Run(events).calls && Run(events).calls[id].Refused?
    ensures exists i :: 0 <= i <= |events| && FullDuringCall(Run(events[..i]), id)
  {
    var n := |events| - 1;
    var s := Run(events[..n]);
    if id in s.calls && s.calls[id].Refused? {
      RefusedOnlyWhenFull(events[..n], id);
      var i :| 0 <= i <= n && FullDuringCall(Run(events[..n][..i]), id);
      PrefixOfPrefix(events, n, i);
    } else {
      RefusalStep(s, events[n], id);
      var i := ObservedAt(events[..n], id, s.calls[id].seen);
      PrefixOfPrefix(events, n, i);
      RunKeepsInv(events[..i]);
      assert IsTrying(Run(events[..i]), id, s.calls[id].seen);
      assert FullDuringCall(Run(events[..i]), id);
    }
  }

  /** The event acquires or releases a buffer. */
  predicate MakesProgress(s: Pool, e: Event) {
    var t := Step(s, e);
    && e.id in s.calls && e.id in t.calls
    && ((s.calls[e.id].Trying? && t.calls[e.id].Holding?) || (s.calls[e.id].Holding? && t.calls[e.id].Dropped?))
  }

  /** While the call of `id` is under way, another caller makes progress. */
  predicate OtherProgress(s: Pool, e: Event, id: Caller) {
    id in s.calls && s.calls[id].Trying? && e.id != id && MakesProgress(s, e)
  }

  lemma OnlyProgressChangesState(s: Pool, e: Event)
    requires Step(s, e).state != s.state
    ensures MakesProgress(s, e)
  {
  }

  lemma {:induction false} FirstChange(events: seq<Event>, i: nat) returns (j: nat)
    requires i <= |events| && Run(events[..i]).state != Run(events).state
    ensures i <= j < |events| && MakesProgress(Run(events[..j]), events[j])
  {
    assert events[..|events|] == events;
    j := |events| - 1;
    var init := events[..j];
    if i <= j && Run(events[..i]).state != Run(init).state {
      assert init[..i] == events[..i];
      j := FirstChange(init, i);
      assert init[..j] == events[..j];
    } else {
      OnlyProgressChangesState(Run(init), events[j]);
    }
  }

  /** A compare-exchange can fail only because another caller acquired or released a
      buffer since the state was last read: the retry loop is lock-free. */
  lemma RetryMeansProgress(events: seq<Event>, id: Caller)
    requires id in Run(events).calls && Run(events).calls[id].Trying?
    requires Run(events).calls[id].seen != Run(events).state
    ensures exists j :: 0 <= j < |events| && OtherProgress(Run(events[..j]), events[j], id)
  {
    var seen := Run(events).calls[id].seen;
    var i := ObservedAt(events, id, seen);
    var j := FirstChange(events, i);
    var s, t := Run(events[..j]), Run(events[..j + 1]);
    assert IsTrying(s, id, seen) && IsTrying(t, id, seen);
    NextState(events, j);
    ProgressIsByOther(s, events[j], t, id, seen);
  }

  lemma NextState(events: seq<Event>, j: nat)
    requires j < |events|
    ensures Run(events[..j + 1]) == Step(Run(events[..j]), events[j])
  {
    PrefixOfPrefix(events, j + 1, j);
  }

  lemma ProgressIsByOther(s: Pool, e: Event, t: Pool, id: Caller, seen: u8)
    requires t == Step(s, e) && MakesProgress(s, e) && IsTrying(s, id, seen) && IsTrying(t, id, seen)
    ensures OtherProgress(s, e, id)
  {
  }
}
