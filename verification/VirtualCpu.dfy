/** A virtual CPU: the registers that VM entry and exit move, model-specific registers, and
    the queue of pending interrupts. */
module VirtualCpu {
  import opened Machine

  /** 64-bit registers and interrupt vectors, as numbers. */
  type Word = nat
  type Vector = nat
  type Msr = nat

  const WORD_LIMIT: nat := 0x1_0000_0000_0000_0000

  const IA32_SYSENTER_CS: Msr := 0x174
  const IA32_SYSENTER_ESP: Msr := 0x175
  const IA32_SYSENTER_EIP: Msr := 0x176
  const IA32_PAT: Msr := 0x277
  const IA32_PMC0: Msr := 0xC1
  const IA32_PMC3: Msr := 0xC4
  const IA32_FIXED_CTR0: Msr := 0x309
  const IA32_FIXED_CTR2: Msr := 0x30B
  const IA32_EFER: Msr := 0xC0000080
  const IA32_FS_BASE: Msr := 0xC0000100
  const IA32_GS_BASE: Msr := 0xC0000101

  const NMI_VECTOR: Vector := 2

  datatype Cpu = Cpu(
    rip: Word, rsp: Word, rflags: Word,
    cr0: Word, cr3: Word, cr4: Word, cr8: Word,
    msrs: map<Msr, Word>, counters: map<Msr, Word>,
    interruptsEnabled: bool, nmiPending: bool, pending: seq<Vector>)

  // ---- Model-specific registers ----

  /** Performance counters have storage of their own, which reads prefer. */
  predicate IsCounter(msr: Msr) {
    IA32_FIXED_CTR0 <= msr <= IA32_FIXED_CTR2 || IA32_PMC0 <= msr <= IA32_PMC3
  }

  function Lookup(m: map<Msr, Word>, msr: Msr): Word {
    if msr in m then m[msr] else 0
  }

  function ReadMsr(cpu: Cpu, msr: Msr): Word {
    if IsCounter(msr) then Lookup(cpu.counters, msr) else Lookup(cpu.msrs, msr)
  }

  function WriteMsr(cpu: Cpu, msr: Msr, value: Word): Cpu {
    cpu.(msrs := cpu.msrs[msr := value],
         counters := if IsCounter(msr) then cpu.counters[msr := value] else cpu.counters)
  }

  lemma MsrReadsBack(cpu: Cpu, msr: Msr, value: Word, other: Msr)
    ensures ReadMsr(WriteMsr(cpu, msr, value), other) == if other == msr then value else ReadMsr(cpu, other)
  {
  }

  /** An MSR that was never written reads 0. */
  lemma FreshMsrIsZero(cpu: Cpu, msr: Msr)
    requires msr !in cpu.msrs && msr !in cpu.counters
    ensures ReadMsr(cpu, msr) == 0
  {
  }

  /** The four general and three fixed counters are read from their own storage, whatever the
      MSR table says, and all other MSRs from the table. */
  lemma CountersAreSeparate(cpu: Cpu, msr: Msr, msrs: map<Msr, Word>, counters: map<Msr, Word>)
    ensures
      var counter := msr in {0xC1, 0xC2, 0xC3, 0xC4, 0x309, 0x30A, 0x30B};
      && (counter ==> ReadMsr(cpu.(msrs := msrs), msr) == ReadMsr(cpu, msr))
      && (!counter ==> ReadMsr(cpu.(counters := counters), msr) == ReadMsr(cpu, msr))
  {
  }

  // ---- Flags and interrupts ----

  /** Bit 9 of RFLAGS, the interrupt enable flag. */
  predicate IfSet(rflags: Word) {
    rflags / 0x200 % 2 == 1
  }

  function WriteRflags(cpu: Cpu, value: Word): Cpu {
    cpu.(rflags := value, interruptsEnabled := IfSet(value))
  }

  function EnableInterrupts(cpu: Cpu): Cpu {
    cpu.(interruptsEnabled := true, rflags := if IfSet(cpu.rflags) then cpu.rflags else cpu.rflags + 0x200)
  }

  function DisableInterrupts(cpu: Cpu): Cpu {
    cpu.(interruptsEnabled := false, rflags := if IfSet(cpu.rflags) then cpu.rflags - 0x200 else cpu.rflags)
  }

  /** The priority threshold, CR8 shifted left by four in 64 bits, lets the vector through. */
  predicate AboveTpr(vector: Vector, cr8: Word) {
    vector > cr8 * 16 % WORD_LIMIT
  }

  predicate HeadDeliverable(cpu: Cpu) {
    cpu.interruptsEnabled && cpu.pending != [] && AboveTpr(cpu.pending[0], cpu.cr8)
  }

  /** The vector delivered, if any, and the state after. */
  function Deliver(cpu: Cpu): (Cpu, Option<Vector>) {
    if cpu.nmiPending then (cpu.(nmiPending := false), Some(NMI_VECTOR))
    else if HeadDeliverable(cpu) then (cpu.(pending := cpu.pending[1..]), Some(cpu.pending[0]))
    else (cpu, None)
  }

  // ---- What is delivered, and when ----

  /** CR8 times 16 in 64 bits: its top four bits are lost. */
  lemma Threshold(vector: Vector, high: nat, low: nat)
    requires low < 0x1000_0000_0000_0000
    ensures AboveTpr(vector, high * 0x1000_0000_0000_0000 + low) <==> vector > 16 * low
  {
    var cr8 := high * 0x1000_0000_0000_0000 + low;
    assert cr8 * 16 == high * WORD_LIMIT + low * 16;
  }

  /** A pending NMI is delivered as vector 2, whatever else holds, once, and touches nothing else. */
  lemma NmiFirst(cpu: Cpu)
    requires cpu.nmiPending
    ensures Deliver(cpu) == (cpu.(nmiPending := false), Some(2))
  {
  }

  /** Without one, the head of the queue is delivered exactly when interrupts are enabled and it
      is above 16 times CR8; it leaves the queue, and nothing else changes. */
  lemma HeadDelivered(cpu: Cpu)
    requires !cpu.nmiPending && cpu.cr8 < 0x1000_0000_0000_0000
    ensures Deliver(cpu).1.Some? <==> cpu.interruptsEnabled && |cpu.pending| > 0 && cpu.pending[0] > 16 * cpu.cr8
    ensures Deliver(cpu).1.Some? ==> Deliver(cpu) == (cpu.(pending := cpu.pending[1..]), Some(cpu.pending[0]))
    ensures Deliver(cpu).1.None? ==> Deliver(cpu).0 == cpu
  {
    if |cpu.pending| > 0 {
      Threshold(cpu.pending[0], 0, cpu.cr8);
    }
  }

  class VirtualCpu {
    var state: Cpu

    constructor (state: Cpu)
      ensures this.state == state
    {
      this.state := state;
    }

    method InjectInterrupt(vector: Vector)
      modifies this
      ensures state == old(state).(pending := old(state).pending + [vector])
    {
      state := state.(pending := state.pending + [vector]);
    }

    method InjectNmi()
      modifies this
      ensures state == old(state).(nmiPending := true)
    {
      state := state.(nmiPending := true);
    }

    method HasPendingInterrupt() returns (r: bool)
      ensures r <==> Deliver(state).1.Some?
    {
      if state.nmiPending {
        return true;
      }
      if state.interruptsEnabled && state.pending != [] {
        return AboveTpr(state.pending[0], state.cr8);
      }
      return false;
    }

    method DeliverInterrupt() returns (vector: Option<Vector>)
      modifies this
      ensures (state, vector) == Deliver(old(state))
    {
      if state.nmiPending {
        state := state.(nmiPending := false);
        return Some(NMI_VECTOR);
      }
      if !state.interruptsEnabled {
        return None;
      }
      if state.pending != [] && AboveTpr(state.pending[0], state.cr8) {
        vector := Some(state.pending[0]);
        state := state.(pending := state.pending[1..]);
      } else {
        vector := None;
      }
    }
  }

  // ---- Runs ----

  datatype Op =
    | Inject(vector: Vector)
    | InjectNmi
    | DeliverNext
    | Enable
    | Disable
    | SetRflags(value: Word)
    | SetCr8(value: Word)

  function Apply(cpu: Cpu, op: Op): Cpu {
    match op
    case Inject(vector) => cpu.(pending := cpu.pending + [vector])
    case InjectNmi => cpu.(nmiPending := true)
    case DeliverNext => Deliver(cpu).0
    case Enable => EnableInterrupts(cpu)
    case Disable => DisableInterrupts(cpu)
    case SetRflags(value) => WriteRflags(cpu, value)
    case SetCr8(value) => cpu.(cr8 := value)
  }

  function Run(cpu: Cpu, ops: seq<Op>): Cpu {
    if ops == [] then cpu else Apply(Run(cpu, ops[..|ops| - 1]), ops[|ops| - 1])
  }

  function InjectedBy(op: Op): seq<Vector> {
    if op.Inject? then [op.vector] else []
  }

  /** The external vector that the operation delivers: one returned while no NMI is pending. */
  function DeliveredBy(cpu: Cpu, op: Op): seq<Vector> {
    if op.DeliverNext? && !cpu.nmiPending && Deliver(cpu).1.Some? then [Deliver(cpu).1.value] else []
  }

  function Injected(ops: seq<Op>): seq<Vector> {
    if ops == [] then [] else Injected(ops[..|ops| - 1]) + InjectedBy(ops[|ops| - 1])
  }

  function Delivered(cpu: Cpu, ops: seq<Op>): seq<Vector> {
    if ops == [] then []
    else Delivered(cpu, ops[..|ops| - 1]) + DeliveredBy(Run(cpu, ops[..|ops| - 1]), ops[|ops| - 1])
  }

  lemma StepConserves(cpu: Cpu, op: Op)
    ensures cpu.pending + InjectedBy(op) == DeliveredBy(cpu, op) + Apply(cpu, op).pending
  {
  }

  lemma Regroup<T>(a: seq<T>, b: seq<T>, c: seq<T>, d: seq<T>, e: seq<T>, f: seq<T>)
    requires a + b == c + d && d + e == f
    ensures a + (b + e) == c + f
  {
    assert a + (b + e) == (a + b) + e == c + (d + e);
  }

  /** No external interrupt is lost, repeated or reordered: over any run, those queued at the
      start and injected since are those delivered followed by those still pending. */
  lemma {:induction false} InterruptsAreConserved(cpu: Cpu, ops: seq<Op>)
    ensures cpu.pending + Injected(ops) == Delivered(cpu, ops) + Run(cpu, ops).pending
  {
    if ops == [] {
      assert cpu.pending + [] == [] + cpu.pending;
    } else {
      var init, op := ops[..|ops| - 1], ops[|ops| - 1];
      var before := Run(cpu, init);
      InterruptsAreConserved(cpu, init);
      StepConserves(before, op);
      Regroup(cpu.pending, Injected(init), Delivered(cpu, init), before.pending, InjectedBy(op),
              DeliveredBy(before, op) + Apply(before, op).pending);
      assert Delivered(cpu, init) + (DeliveredBy(before, op) + Apply(before, op).pending) ==
             Delivered(cpu, ops) + Apply(before, op).pending;
    }
  }

  lemma FlagBits(rflags: Word)
    ensures !IfSet(rflags) ==> IfSet(rflags + 0x200)
    ensures IfSet(rflags) ==> rflags >= 0x200 && !IfSet(rflags - 0x200)
  {
  }

  lemma StepKeepsFlag(cpu: Cpu, op: Op)
    requires cpu.interruptsEnabled == IfSet(cpu.rflags)
    ensures Apply(cpu, op).interruptsEnabled == IfSet(Apply(cpu, op).rflags)
  {
    FlagBits(cpu.rflags);
  }

  /** The enabled flag follows the IF bit through every run. */
  lemma {:induction false} EnabledFollowsIf(cpu: Cpu, ops: seq<Op>)
    requires cpu.interruptsEnabled == IfSet(cpu.rflags)
    ensures Run(cpu, ops).interruptsEnabled == IfSet(Run(cpu, ops).rflags)
  {
    if ops != [] {
      EnabledFollowsIf(cpu, ops[..|ops| - 1]);
      StepKeepsFlag(Run(cpu, ops[..|ops| - 1]), ops[|ops| - 1]);
    }
  }

  /** A head that the priority threshold masks holds back everything behind it, whatever else
      happens, as long as CR8 is not written. */
  lemma {:induction false} MaskedHeadBlocks(cpu: Cpu, ops: seq<Op>)
    requires cpu.pending != [] && !AboveTpr(cpu.pending[0], cpu.cr8)
    requires forall i :: 0 <= i < |ops| ==> !ops[i].SetCr8?
    ensures Delivered(cpu, ops) == [] && Run(cpu, ops).cr8 == cpu.cr8
    ensures cpu.pending <= Run(cpu, ops).pending
  {
    if ops != [] {
      MaskedHeadBlocks(cpu, ops[..|ops| - 1]);
    }
  }

  ghost predicate KeepsDisabled(ops: seq<Op>) {
    forall i :: 0 <= i < |ops| ==> !ops[i].Enable? && !ops[i].SetRflags?
  }

  lemma DisabledStep(cpu: Cpu, op: Op)
    requires !cpu.interruptsEnabled && !op.Enable? && !op.SetRflags?
    ensures !Apply(cpu, op).interruptsEnabled && DeliveredBy(cpu, op) == []
  {
  }

  lemma {:induction false} NothingDelivered(cpu: Cpu, ops: seq<Op>)
    requires !cpu.interruptsEnabled && KeepsDisabled(ops)
    ensures Delivered(cpu, ops) == [] && !Run(cpu, ops).interruptsEnabled
  {
    if ops != [] {
      NothingDelivered(cpu, ops[..|ops| - 1]);
      DisabledStep(Run(cpu, ops[..|ops| - 1]), ops[|ops| - 1]);
    }
  }

  /** Disabled interrupts hold back the whole queue until they are enabled or RFLAGS is written. */
  lemma DisabledHoldsQueue(cpu: Cpu, ops: seq<Op>)
    requires !cpu.interruptsEnabled && KeepsDisabled(ops)
    ensures Delivered(cpu, ops) == [] && Run(cpu, ops).pending == cpu.pending + Injected(ops)
  {
    NothingDelivered(cpu, ops);
    InterruptsAreConserved(cpu, ops);
  }

  lemma FlagAt(high: nat, bit: nat, low: nat)
    requires bit < 2 && low < 0x200
    ensures (0x400 * high + 0x200 * bit + low) / 0x200 == 2 * high + bit
  {
  }

  /** Enabling sets and disabling clears bit 9 of RFLAGS, and neither changes another bit. */
  lemma FlagsKeptElsewhere(cpu: Cpu, high: nat, bit: nat, low: nat)
    requires bit < 2 && low < 0x200 && cpu.rflags == 0x400 * high + 0x200 * bit + low
    ensures EnableInterrupts(cpu).rflags == 0x400 * high + 0x200 + low
    ensures DisableInterrupts(cpu).rflags == 0x400 * high + low
    ensures WriteRflags(cpu, cpu.rflags).interruptsEnabled <==> bit == 1
  {
    FlagAt(high, bit, low);
  }

  /** The value of the last write to CR8, or the one at the start. */
  function LastCr8(cpu: Cpu, ops: seq<Op>): Word {
    if ops == [] then cpu.cr8
    else if ops[|ops| - 1].SetCr8? then ops[|ops| - 1].value
    else LastCr8(cpu, ops[..|ops| - 1])
  }

  lemma {:induction false} Cr8IsLastWritten(cpu: Cpu, ops: seq<Op>)
    ensures Run(cpu, ops).cr8 == LastCr8(cpu, ops)
  {
    if ops != [] {
      Cr8IsLastWritten(cpu, ops[..|ops| - 1]);
    }
  }

  /** Operation `i` injected an NMI, and none since has delivered anything. */
  ghost predicate NmiSince(ops: seq<Op>, i: nat) {
    i < |ops| && ops[i].InjectNmi? && forall j :: i < j < |ops| ==> !ops[j].DeliverNext?
  }

  lemma NmiSinceStep(ops: seq<Op>, i: nat)
    requires ops != []
    ensures
      var init, last := ops[..|ops| - 1], ops[|ops| - 1];
      NmiSince(ops, i) <==> (i == |init| && last.InjectNmi?) || (NmiSince(init, i) && !last.DeliverNext?)
  {
    var init := ops[..|ops| - 1];
    assert forall j :: 0 <= j < |init| ==> init[j] == ops[j];
  }

  /** An NMI is pending exactly when one was injected since the last delivery: several count once,
      and any delivery takes it. */
  lemma {:induction false} NmiPendingIff(cpu: Cpu, ops: seq<Op>)
    requires !cpu.nmiPending
    ensures Run(cpu, ops).nmiPending <==> exists i: nat :: NmiSince(ops, i)
  {
    if ops != [] {
      var init := ops[..|ops| - 1];
      NmiPendingIff(cpu, init);
      if i: nat :| NmiSince(ops, i) {
        NmiSinceStep(ops, i);
      }
      if i: nat :| NmiSince(init, i) {
        NmiSinceStep(ops, i);
      }
      NmiSinceStep(ops, |init|);
    }
  }
}
