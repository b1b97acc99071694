/** The VMX manager: VMXON and VMXOFF, the registered VMCSes, VM entry and exit, and their
    statistics. A VMCS is shared between the registry and the loaded pointer, so the pointer
    is kept as an identifier. */
module Vmx {
  import opened Machine
  import opened VirtualCpu
  import opened VmcsFields

  type Id = nat

  // ---- Guest state ----

  /** The guest state that an exit saves. */
  datatype Guest = Guest(
    rip: Word, rsp: Word, rflags: Word, cr0: Word, cr3: Word, cr4: Word,
    efer: Word, pat: Word, fsBase: Word, gsBase: Word)

  function GuestOf(cpu: Cpu): Guest {
    Guest(cpu.rip, cpu.rsp, cpu.rflags, cpu.cr0, cpu.cr3, cpu.cr4,
          ReadMsr(cpu, IA32_EFER), ReadMsr(cpu, IA32_PAT), ReadMsr(cpu, IA32_FS_BASE), ReadMsr(cpu, IA32_GS_BASE))
  }

  function GuestIn(fields: Fields): Guest {
    Guest(Get(fields, GUEST_RIP), Get(fields, GUEST_RSP), Get(fields, GUEST_RFLAGS),
          Get(fields, GUEST_CR0), Get(fields, GUEST_CR3), Get(fields, GUEST_CR4),
          Get(fields, GUEST_IA32_EFER), Get(fields, GUEST_IA32_PAT),
          Get(fields, GUEST_FS_BASE), Get(fields, GUEST_GS_BASE))
  }

  function SaveGuestState(fields: Fields, cpu: Cpu): Fields {
    fields
      [GUEST_RIP := cpu.rip][GUEST_RSP := cpu.rsp][GUEST_RFLAGS := cpu.rflags]
      [GUEST_CR0 := cpu.cr0][GUEST_CR3 := cpu.cr3][GUEST_CR4 := cpu.cr4]
      [GUEST_IA32_EFER := ReadMsr(cpu, IA32_EFER)][GUEST_IA32_PAT := ReadMsr(cpu, IA32_PAT)]
      [GUEST_FS_BASE := ReadMsr(cpu, IA32_FS_BASE)][GUEST_GS_BASE := ReadMsr(cpu, IA32_GS_BASE)]
  }

  function LoadGuestState(fields: Fields, cpu: Cpu): Cpu {
    var c := cpu.(rip := Get(fields, GUEST_RIP), rsp := Get(fields, GUEST_RSP));
    var c := WriteRflags(c, Get(fields, GUEST_RFLAGS));
    var c := c.(cr0 := Get(fields, GUEST_CR0), cr3 := Get(fields, GUEST_CR3), cr4 := Get(fields, GUEST_CR4));
    var c := WriteMsr(c, IA32_EFER, Get(fields, GUEST_IA32_EFER));
    var c := WriteMsr(c, IA32_PAT, Get(fields, GUEST_IA32_PAT));
    var c := WriteMsr(c, IA32_FS_BASE, Get(fields, GUEST_FS_BASE));
    var c := WriteMsr(c, IA32_GS_BASE, Get(fields, GUEST_GS_BASE));
    var c := WriteMsr(c, IA32_SYSENTER_CS, Get(fields, GUEST_SYSENTER_CS));
    var c := WriteMsr(c, IA32_SYSENTER_ESP, Get(fields, GUEST_SYSENTER_ESP));
    WriteMsr(c, IA32_SYSENTER_EIP, Get(fields, GUEST_SYSENTER_EIP))
  }

  lemma SavedGuest(fields: Fields, cpu: Cpu)
    ensures GuestIn(SaveGuestState(fields, cpu)) == GuestOf(cpu)
  {
  }

  lemma LoadedGuest(fields: Fields, cpu: Cpu)
    ensures GuestOf(LoadGuestState(fields, cpu)) == GuestIn(fields)
    ensures LoadGuestState(fields, cpu).interruptsEnabled == IfSet(Get(fields, GUEST_RFLAGS))
    ensures ReadMsr(LoadGuestState(fields, cpu), IA32_SYSENTER_CS) == Get(fields, GUEST_SYSENTER_CS)
    ensures ReadMsr(LoadGuestState(fields, cpu), IA32_SYSENTER_ESP) == Get(fields, GUEST_SYSENTER_ESP)
    ensures ReadMsr(LoadGuestState(fields, cpu), IA32_SYSENTER_EIP) == Get(fields, GUEST_SYSENTER_EIP)
  {
  }

  // ---- The manager ----

  datatype Vmcs = Vmcs(active: bool, launched: bool, abort: nat, fields: Fields)

  function NewVmcs(): Vmcs {
    Vmcs(false, false, 0, Initial())
  }

  datatype Error = NotSupported | AlreadyEnabled | NotEnabled | InvalidVmcs | VmcsNotLoaded | VmEntryFailed(code: nat)

  /** Success, with the new identifier or the CPU state after an entry, or an error. */
  datatype Outcome = Ok | Created(id: Id) | Entered(cpu: Cpu) | Err(error: Error)

  datatype State = State(
    supported: bool, enabled: bool, current: Option<Id>, vmcses: map<Id, Vmcs>, nextId: Id,
    entries: nat, exits: nat, exitReasons: map<nat, nat>)

  /** Entries and exits carry the state of the CPU they happen on. */
  datatype Op =
    | Enable
    | Disable
    | Create
    | Load(id: Id)
    | Clear(id: Id)
    | Write(field: Field, value: Word)
    | Entry(cpu: Cpu, launch: bool)
    | Exit(cpu: Cpu, reason: nat, qualification: Word)

  function Bump(counts: map<nat, nat>, reason: nat): map<nat, nat> {
    counts[reason := (if reason in counts then counts[reason] else 0) + 1]
  }

  function Step(s: State, op: Op): (State, Outcome) {
    match op
    case Enable =>
      if !s.supported then (s, Err(NotSupported))
      else if s.enabled then (s, Err(AlreadyEnabled))
      else (s.(enabled := true), Ok)
    case Disable =>
      if !s.enabled then (s, Err(NotEnabled)) else (s.(enabled := false, current := None), Ok)
    case Create =>
      if !s.enabled then (s, Err(NotEnabled))
      else
        (s.(vmcses := s.vmcses[s.nextId := NewVmcs()], nextId := s.nextId + 1),
         Created(s.nextId))
    case Load(id) =>
      if !s.enabled then (s, Err(NotEnabled))
      else if id !in s.vmcses then (s, Err(InvalidVmcs))
      else (s.(vmcses := s.vmcses[id := s.vmcses[id].(active := true)], current := Some(id)), Ok)
    case Clear(id) =>
      if !s.enabled then (s, Err(NotEnabled))
      else if id !in s.vmcses then (s, Ok)
      else (s.(vmcses := s.vmcses[id := s.vmcses[id].(active := false, launched := false, abort := 0)]), Ok)
    case _ =>
      if s.current.None? || s.current.value !in s.vmcses then (s, Err(VmcsNotLoaded))
      else OnCurrent(s, op, s.current.value)
  }

  /** Operations on the loaded VMCS. */
  function OnCurrent(s: State, op: Op, id: Id): (State, Outcome)
    requires id in s.vmcses && (op.Write? || op.Entry? || op.Exit?)
  {
    var v := s.vmcses[id];
    match op
    case Write(field, value) => (s.(vmcses := s.vmcses[id := v.(fields := v.fields[field := value])]), Ok)
    case Entry(cpu, launch) =>
      if launch && v.launched then (s, Err(VmEntryFailed(0)))
      else if !launch && !v.launched then (s, Err(VmEntryFailed(1)))
      else
        (s.(vmcses := s.vmcses[id := v.(launched := true)], entries := s.entries + 1),
         Entered(LoadGuestState(v.fields, cpu)))
    case Exit(cpu, reason, qualification) =>
      var saved := SaveGuestState(v.fields, cpu)[VM_EXIT_REASON := reason][EXIT_QUALIFICATION := qualification];
      (s.(vmcses := s.vmcses[id := v.(fields := saved)],
          exits := s.exits + 1, exitReasons := Bump(s.exitReasons, reason)), Ok)
  }

  class VmxManager {
    const supported: bool
    var enabled: bool
    var current: Option<Id>
    var vmcses: map<Id, Vmcs>
    var nextId: Id
    var entries: nat
    var exits: nat
    var exitReasons: map<nat, nat>

    ghost function Abstract(): State
      reads this
    {
      State(supported, enabled, current, vmcses, nextId, entries, exits, exitReasons)
    }

    constructor (supported: bool)
      ensures Abstract() == Init(supported)
    {
      this.supported := supported;
      enabled, current, vmcses, nextId := false, None, map[], 1;
      entries, exits, exitReasons := 0, 0, map[];
    }

    method EnableVmx() returns (r: Outcome)
      modifies this
      ensures (Abstract(), r) == Step(old(Abstract()), Op.Enable)
    {
      if !supported { return Err(NotSupported); }
      if enabled { return Err(AlreadyEnabled); }
      enabled := true;
      return Ok;
    }

    method DisableVmx() returns (r: Outcome)
      modifies this
      ensures (Abstract(), r) == Step(old(Abstract()), Op.Disable)
    {
      if !enabled { return Err(NotEnabled); }
      enabled := false;
      current := None;
      return Ok;
    }

    method CreateVmcs() returns (r: Outcome)
      modifies this
      ensures (Abstract(), r) == Step(old(Abstract()), Create)
    {
      if !enabled { return Err(NotEnabled); }
      var id := nextId;
      nextId := nextId + 1;
      vmcses := vmcses[id := NewVmcs()];
      return Created(id);
    }

    method LoadVmcs(id: Id) returns (r: Outcome)
      modifies this
      ensures (Abstract(), r) == Step(old(Abstract()), Load(id))
    {
      if !enabled { return Err(NotEnabled); }
      if id !in vmcses { return Err(InvalidVmcs); }
      vmcses := vmcses[id := vmcses[id].(active := true)];
      current := Some(id);
      return Ok;
    }

    method ClearVmcs(id: Id) returns (r: Outcome)
      modifies this
      ensures (Abstract(), r) == Step(old(Abstract()), Clear(id))
    {
      if !enabled { return Err(NotEnabled); }
      if id in vmcses {
        vmcses := vmcses[id := vmcses[id].(active := false, launched := false, abort := 0)];
      }
      return Ok;
    }

    method VmWrite(field: Field, value: Word) returns (r: Outcome)
      modifies this
      ensures (Abstract(), r) == Step(old(Abstract()), Write(field, value))
    {
      if current.None? || current.value !in vmcses { return Err(VmcsNotLoaded); }
      var v := vmcses[current.value];
      vmcses := vmcses[current.value := v.(fields := v.fields[field := value])];
      return Ok;
    }

    method VmEntry(cpu: VirtualCpu, launch: bool) returns (r: Outcome)
      modifies this, cpu
      ensures (Abstract(), r) == Step(old(Abstract()), Entry(old(cpu.state), launch))
      ensures cpu.state == if r.Entered? then r.cpu else old(cpu.state)
    {
      if current.None? || current.value !in vmcses { return Err(VmcsNotLoaded); }
      var v := vmcses[current.value];
      if launch && v.launched { return Err(VmEntryFailed(0)); }
      if !launch && !v.launched { return Err(VmEntryFailed(1)); }
      cpu.state := LoadGuestState(v.fields, cpu.state);
      vmcses := vmcses[current.value := v.(launched := true)];
      entries := entries + 1;
      return Entered(cpu.state);
    }

    method VmExit(cpu: VirtualCpu, reason: nat, qualification: Word) returns (r: Outcome)
      modifies this
      ensures (Abstract(), r) == Step(old(Abstract()), Exit(cpu.state, reason, qualification))
    {
      if current.None? || current.value !in vmcses { return Err(VmcsNotLoaded); }
      var v := vmcses[current.value];
      var saved := SaveGuestState(v.fields, cpu.state);
      saved := saved[VM_EXIT_REASON := reason][EXIT_QUALIFICATION := qualification];
      vmcses := vmcses[current.value := v.(fields := saved)];
      exits := exits + 1;
      exitReasons := Bump(exitReasons, reason);
      return Ok;
    }
  }

  // ---- Invariants over every run ----

  function Init(supported: bool): State {
    State(supported, false, None, map[], 1, 0, 0, map[])
  }

  function Run(supported: bool, ops: seq<Op>): State {
    if ops == [] then Init(supported) else Step(Run(supported, ops[..|ops| - 1]), ops[|ops| - 1]).0
  }

  ghost function SomeKey(counts: map<nat, nat>): (k: nat)
    requires counts != map[]
    ensures k in counts
  {
    var k :| k in counts;
    k
  }

  /** The sum of the counts. */
  ghost function Total(counts: map<nat, nat>): nat
    decreases counts.Keys
  {
    if counts == map[] then 0
    else counts[SomeKey(counts)] + Total(counts - {SomeKey(counts)})
  }

  lemma {:induction false} TotalSplits(counts: map<nat, nat>, k: nat)
    requires k in counts
    ensures Total(counts) == counts[k] + Total(counts - {k})
    decreases counts.Keys
  {
    var j := SomeKey(counts);
    if j != k {
      TotalSplits(counts - {j}, k);
      TotalSplits(counts - {k}, j);
      assert counts - {j} - {k} == counts - {k} - {j};
    }
  }

  lemma TotalOfBump(counts: map<nat, nat>, reason: nat)
    ensures Total(Bump(counts, reason)) == Total(counts) + 1
  {
    var bumped := Bump(counts, reason);
    TotalSplits(bumped, reason);
    assert bumped - {reason} == counts - {reason};
    if reason in counts {
      TotalSplits(counts, reason);
    } else {
      assert counts - {reason} == counts;
    }
  }

  /** A loaded VMCS implies VMX is on and the VMCS is registered; identifiers are fresh; no
      abort is ever recorded; the exit total is the sum of the counts by reason. */
  ghost predicate Inv(s: State) {
    && (s.current.Some? ==> s.enabled && s.current.value in s.vmcses)
    && (forall id :: id in s.vmcses ==> id < s.nextId && s.vmcses[id].abort == 0)
    && s.exits == Total(s.exitReasons)
  }

  lemma StepKeepsInv(s: State, op: Op)
    requires Inv(s)
    ensures Inv(Step(s, op).0)
    ensures s.vmcses.Keys <= Step(s, op).0.vmcses.Keys
  {
    if op.Exit? {
      TotalOfBump(s.exitReasons, op.reason);
    }
  }

  lemma {:induction false} RunKeepsInv(supported: bool, ops: seq<Op>)
    ensures Inv(Run(supported, ops))
  {
    if ops != [] {
      RunKeepsInv(supported, ops[..|ops| - 1]);
      StepKeepsInv(Run(supported, ops[..|ops| - 1]), ops[|ops| - 1]);
    }
  }

  lemma {:induction false} CountersAreBounded(supported: bool, ops: seq<Op>)
    ensures
      var s := Run(supported, ops);
      s.nextId <= |ops| + 1 && s.entries <= |ops| && s.exits <= |ops|
  {
    if ops != [] {
      CountersAreBounded(supported, ops[..|ops| - 1]);
    }
  }

  /** Identifiers and counters are 64 bits wide in the source: no run short of 2^64 - 1
      operations can make one wrap. */
  lemma CountersCannotWrap(supported: bool, ops: seq<Op>)
    requires |ops| < WORD_LIMIT - 1
    ensures
      var s := Run(supported, ops);
      && s.nextId < WORD_LIMIT && s.entries < WORD_LIMIT && s.exits < WORD_LIMIT
      && forall reason :: reason in s.exitReasons ==> s.exitReasons[reason] < WORD_LIMIT
  {
    var s := Run(supported, ops);
    CountersAreBounded(supported, ops);
    RunKeepsInv(supported, ops);
    forall reason | reason in s.exitReasons
      ensures s.exitReasons[reason] < WORD_LIMIT
    {
      TotalSplits(s.exitReasons, reason);
    }
  }
}
