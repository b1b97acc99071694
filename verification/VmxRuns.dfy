/** What holds over every run of VMX operations: launch state, and the guest context that a
    VMCS carries from an exit to the next entry. */
module VmxRuns {
  import opened Machine
  import opened VirtualCpu
  import opened VmcsFields
  import opened Vmx

  /** The state before operation `i` of a run. */
  function At(supported: bool, ops: seq<Vmx.Op>, i: nat): State
    requires i <= |ops|
  {
    Vmx.Run(supported, ops[..i])
  }

  lemma NextState(supported: bool, ops: seq<Vmx.Op>, i: nat)
    requires i < |ops|
    ensures At(supported, ops, i + 1) == Step(At(supported, ops, i), ops[i]).0
    ensures Inv(At(supported, ops, i))
  {
    assert ops[..i + 1][..i] == ops[..i];
    RunKeepsInv(supported, ops[..i]);
  }

  // ---- Launch state ----

  predicate Launched(s: State, id: Id) {
    id in s.vmcses && s.vmcses[id].launched
  }

  predicate Launches(s: State, op: Vmx.Op, id: Id) {
    op.Entry? && op.launch && s.current == Some(id) && Step(s, op).1.Entered?
  }

  predicate Resumes(s: State, op: Vmx.Op, id: Id) {
    op.Entry? && !op.launch && s.current == Some(id) && Step(s, op).1.Entered?
  }

  predicate Clears(s: State, op: Vmx.Op, id: Id) {
    op == Clear(id) && !Step(s, op).1.Err?
  }

  lemma LaunchedStep(s: State, op: Vmx.Op, id: Id)
    requires Inv(s)
    ensures Launched(Step(s, op).0, id) ==
      if Launches(s, op, id) then true else if Clears(s, op, id) then false else Launched(s, id)
    ensures Launches(s, op, id) ==> !Launched(s, id)
    ensures Resumes(s, op, id) ==> Launched(s, id)
  {
  }

  /** Operation `i` launched the VMCS, and none from there up to `n` cleared it. */
  ghost predicate LaunchedAt(supported: bool, ops: seq<Vmx.Op>, id: Id, i: nat, n: nat)
    requires n <= |ops|
  {
    && i < n && Launches(At(supported, ops, i), ops[i], id)
    && forall j :: i < j < n ==> !Clears(At(supported, ops, j), ops[j], id)
  }

  /** A bit that some steps set and others clear. */
  ghost predicate IsLatch(bit: nat -> bool, sets: nat -> bool, clears: nat -> bool, n: nat) {
    !bit(0) && forall i: nat :: i < n ==> bit(i + 1) == (sets(i) || (bit(i) && !clears(i)))
  }

  ghost predicate SetSince(sets: nat -> bool, clears: nat -> bool, i: nat, n: nat) {
    i < n && sets(i) && forall j: nat :: i < j < n ==> !clears(j)
  }

  lemma SetSinceStep(sets: nat -> bool, clears: nat -> bool, i: nat, m: nat)
    ensures SetSince(sets, clears, i, m + 1) <==> (i == m && sets(m)) || (SetSince(sets, clears, i, m) && !clears(m))
  {
  }

  lemma {:induction false} LatchMeans(bit: nat -> bool, sets: nat -> bool, clears: nat -> bool, n: nat)
    requires IsLatch(bit, sets, clears, n)
    ensures bit(n) <==> exists i: nat :: SetSince(sets, clears, i, n)
  {
    if n > 0 {
      var m := n - 1;
      LatchMeans(bit, sets, clears, m);
      assert bit(m + 1) == (sets(m) || (bit(m) && !clears(m)));
      forall i: nat
        ensures SetSince(sets, clears, i, n) <==> (i == m && sets(m)) || (SetSince(sets, clears, i, m) && !clears(m))
      {
        SetSinceStep(sets, clears, i, m);
      }
      assert sets(m) ==> SetSince(sets, clears, m, n);
    }
  }

  /** A VMCS is in the launched state exactly when a launch of it succeeded since its last clear. */
  lemma LaunchStateMeans(supported: bool, ops: seq<Vmx.Op>, id: Id, n: nat)
    requires n <= |ops|
    ensures Launched(At(supported, ops, n), id) <==> exists i: nat :: LaunchedAt(supported, ops, id, i, n)
  {
    var bit := (i: nat) => i <= |ops| && Launched(At(supported, ops, i), id);
    var sets := (i: nat) => i < |ops| && Launches(At(supported, ops, i), ops[i], id);
    var clears := (i: nat) => i < |ops| && Clears(At(supported, ops, i), ops[i], id);
    forall i: nat | i < n
      ensures bit(i + 1) == (sets(i) || (bit(i) && !clears(i)))
    {
      NextState(supported, ops, i);
      LaunchedStep(At(supported, ops, i), ops[i], id);
    }
    LatchMeans(bit, sets, clears, n);
    forall i: nat
      ensures SetSince(sets, clears, i, n) <==> LaunchedAt(supported, ops, id, i, n)
    {
      LaunchedAtIsSetSince(supported, ops, id, i, n, sets, clears);
    }
  }

  lemma LaunchedAtIsSetSince(supported: bool, ops: seq<Vmx.Op>, id: Id, i: nat, n: nat, sets: nat -> bool,
                             clears: nat -> bool)
    requires n <= |ops|
    requires forall j: nat :: j < n ==> sets(j) == Launches(At(supported, ops, j), ops[j], id)
    requires forall j: nat :: j < n ==> clears(j) == Clears(At(supported, ops, j), ops[j], id)
    ensures SetSince(sets, clears, i, n) <==> LaunchedAt(supported, ops, id, i, n)
  {
  }

  /** Two successful launches of a VMCS have a clear of it between them. */
  lemma OneLaunchBetweenClears(supported: bool, ops: seq<Vmx.Op>, id: Id, i: nat, k: nat)
    requires i < k < |ops|
    requires Launches(At(supported, ops, i), ops[i], id) && Launches(At(supported, ops, k), ops[k], id)
    ensures exists j :: i < j < k && Clears(At(supported, ops, j), ops[j], id)
  {
    NextState(supported, ops, k);
    LaunchedStep(At(supported, ops, k), ops[k], id);
    LaunchStateMeans(supported, ops, id, k);
    assert !LaunchedAt(supported, ops, id, i, k);
  }

  /** Every successful resume follows a successful launch, with no clear in between. */
  lemma ResumeFollowsLaunch(supported: bool, ops: seq<Vmx.Op>, id: Id, k: nat)
    requires k < |ops| && Resumes(At(supported, ops, k), ops[k], id)
    ensures exists i: nat :: LaunchedAt(supported, ops, id, i, k)
  {
    NextState(supported, ops, k);
    LaunchedStep(At(supported, ops, k), ops[k], id);
    LaunchStateMeans(supported, ops, id, k);
  }

  // ---- Guest context ----

  /** The fields that hold what an exit saves. */
  predicate IsGuestField(field: Field) {
    || field == GUEST_RIP || field == GUEST_RSP || field == GUEST_RFLAGS
    || field == GUEST_CR0 || field == GUEST_CR3 || field == GUEST_CR4
    || field == GUEST_IA32_EFER || field == GUEST_IA32_PAT
    || field == GUEST_FS_BASE || field == GUEST_GS_BASE
  }

  predicate Saves(s: State, op: Vmx.Op, id: Id) {
    op.Exit? && s.current == Some(id)
  }

  predicate Overwrites(s: State, op: Vmx.Op, id: Id) {
    op.Write? && s.current == Some(id) && IsGuestField(op.field)
  }

  lemma WriteKeepsGuest(fields: Fields, field: Field, value: Word)
    requires !IsGuestField(field)
    ensures GuestIn(fields[field := value]) == GuestIn(fields)
  {
  }

  lemma ExitSavesGuest(s: State, op: Vmx.Op, id: Id)
    requires id in s.vmcses && Saves(s, op, id)
    ensures id in Step(s, op).0.vmcses && GuestIn(Step(s, op).0.vmcses[id].fields) == GuestOf(op.cpu)
  {
    var saved := SaveGuestState(s.vmcses[id].fields, op.cpu);
    SavedGuest(s.vmcses[id].fields, op.cpu);
    WriteKeepsGuest(saved, VM_EXIT_REASON, op.reason);
    WriteKeepsGuest(saved[VM_EXIT_REASON := op.reason], EXIT_QUALIFICATION, op.qualification);
  }

  lemma OnlyTheseChangeFields(s: State, op: Vmx.Op, id: Id)
    requires Inv(s) && id in s.vmcses && !Saves(s, op, id) && !(op.Write? && s.current == Some(id))
    ensures id in Step(s, op).0.vmcses && Step(s, op).0.vmcses[id].fields == s.vmcses[id].fields
  {
    match op {
      case Create => assert id != s.nextId;
      case _ =>
    }
  }

  lemma EntryLoads(s: State, op: Vmx.Op, id: Id)
    requires id in s.vmcses && op.Entry? && s.current == Some(id) && Step(s, op).1.Entered?
    ensures Step(s, op).1.cpu == LoadGuestState(s.vmcses[id].fields, op.cpu)
  {
  }

  lemma OthersKeepGuest(s: State, op: Vmx.Op, id: Id)
    requires Inv(s) && id in s.vmcses && !Saves(s, op, id) && !Overwrites(s, op, id)
    ensures id in Step(s, op).0.vmcses
    ensures GuestIn(Step(s, op).0.vmcses[id].fields) == GuestIn(s.vmcses[id].fields)
  {
    if op.Write? && s.current == Some(id) {
      WriteKeepsGuest(s.vmcses[id].fields, op.field, op.value);
    } else {
      OnlyTheseChangeFields(s, op, id);
    }
  }

  /** From operation `k` on, up to `m`, nothing touches the saved guest state of the VMCS. */
  ghost predicate Untouched(supported: bool, ops: seq<Vmx.Op>, id: Id, k: nat, m: nat)
    requires m <= |ops|
  {
    forall j :: k <= j < m ==>
      !Saves(At(supported, ops, j), ops[j], id) && !Overwrites(At(supported, ops, j), ops[j], id)
  }

  lemma {:induction false} GuestKept(supported: bool, ops: seq<Vmx.Op>, id: Id, k: nat, m: nat)
    requires k <= m <= |ops| && id in At(supported, ops, k).vmcses && Untouched(supported, ops, id, k, m)
    ensures id in At(supported, ops, m).vmcses
    ensures GuestIn(At(supported, ops, m).vmcses[id].fields) == GuestIn(At(supported, ops, k).vmcses[id].fields)
    decreases m
  {
    if k < m {
      GuestKept(supported, ops, id, k, m - 1);
      NextState(supported, ops, m - 1);
      OthersKeepGuest(At(supported, ops, m - 1), ops[m - 1], id);
    }
  }

  lemma GuestFlags(fields: Fields, cpu: Cpu)
    requires GuestIn(fields) == GuestOf(cpu)
    ensures Get(fields, GUEST_RFLAGS) == cpu.rflags
  {
    assert GuestIn(fields).rflags == GuestOf(cpu).rflags;
  }

  /** An entry, on any CPU, brings back the guest as it left at the last exit of that VMCS,
      whatever ran in between: other VMCSes, clears, reloads, or VMX off and on again. */
  lemma GuestContextSurvives(supported: bool, ops: seq<Vmx.Op>, id: Id, k: nat, m: nat)
    requires k < m < |ops|
    requires Saves(At(supported, ops, k), ops[k], id) && Untouched(supported, ops, id, k + 1, m)
    requires ops[m].Entry? && At(supported, ops, m).current == Some(id)
    requires Step(At(supported, ops, m), ops[m]).1.Entered?
    ensures
      var cpu := Step(At(supported, ops, m), ops[m]).1.cpu;
      GuestOf(cpu) == GuestOf(ops[k].cpu) && cpu.interruptsEnabled == IfSet(ops[k].cpu.rflags)
  {
    NextState(supported, ops, k);
    ExitSavesGuest(At(supported, ops, k), ops[k], id);
    GuestKept(supported, ops, id, k + 1, m);
    var s := At(supported, ops, m);
    EntryLoads(s, ops[m], id);
    LoadedGuest(s.vmcses[id].fields, ops[m].cpu);
    GuestFlags(s.vmcses[id].fields, ops[k].cpu);
  }

  // ---- The SYSENTER MSRs, which an entry loads and an exit does not save ----

  predicate IsSysenter(msr: Msr) {
    msr == IA32_SYSENTER_CS || msr == IA32_SYSENTER_ESP || msr == IA32_SYSENTER_EIP
  }

  function FieldFor(msr: Msr): Field
    requires IsSysenter(msr)
  {
    if msr == IA32_SYSENTER_CS then GUEST_SYSENTER_CS
    else if msr == IA32_SYSENTER_ESP then GUEST_SYSENTER_ESP
    else GUEST_SYSENTER_EIP
  }

  function FieldOf(s: State, id: Id, field: Field): Word {
    if id in s.vmcses then Get(s.vmcses[id].fields, field) else 0
  }

  predicate Assigns(s: State, op: Vmx.Op, id: Id, field: Field) {
    op.Write? && op.field == field && s.current == Some(id)
  }

  lemma SaveKeepsSysenter(fields: Fields, cpu: Cpu, reason: Word, qualification: Word, msr: Msr)
    requires IsSysenter(msr)
    ensures
      var saved := SaveGuestState(fields, cpu)[VM_EXIT_REASON := reason][EXIT_QUALIFICATION := qualification];
      Get(saved, FieldFor(msr)) == Get(fields, FieldFor(msr))
  {
  }

  lemma SysenterStep(s: State, op: Vmx.Op, id: Id, msr: Msr)
    requires Inv(s) && IsSysenter(msr)
    ensures FieldOf(Step(s, op).0, id, FieldFor(msr)) ==
      if Assigns(s, op, id, FieldFor(msr)) then op.value else FieldOf(s, id, FieldFor(msr))
  {
    if id in s.vmcses && Saves(s, op, id) {
      SaveKeepsSysenter(s.vmcses[id].fields, op.cpu, op.reason, op.qualification, msr);
    } else if id in s.vmcses && !(op.Write? && s.current == Some(id)) {
      OnlyTheseChangeFields(s, op, id);
    }
  }

  /** Operation `i` is the last before `m` to write the field of the VMCS. */
  ghost predicate LastWriteAt(supported: bool, ops: seq<Vmx.Op>, id: Id, field: Field, i: nat, m: nat)
    requires m <= |ops|
  {
    && i < m && Assigns(At(supported, ops, i), ops[i], id, field)
    && forall j :: i < j < m ==> !Assigns(At(supported, ops, j), ops[j], id, field)
  }

  /** The value of the last write to the field before `m`, or 0 if there was none. */
  ghost predicate IsLastWritten(supported: bool, ops: seq<Vmx.Op>, id: Id, field: Field, m: nat, value: Word)
    requires m <= |ops|
  {
    || (exists i: nat :: LastWriteAt(supported, ops, id, field, i, m) && ops[i].value == value)
    || (value == 0 && forall j :: 0 <= j < m ==> !Assigns(At(supported, ops, j), ops[j], id, field))
  }

  lemma LastWrittenStep(supported: bool, ops: seq<Vmx.Op>, id: Id, field: Field, m: nat, value: Word)
    requires m < |ops| && IsLastWritten(supported, ops, id, field, m, value)
    ensures IsLastWritten(supported, ops, id, field, m + 1,
      if Assigns(At(supported, ops, m), ops[m], id, field) then ops[m].value else value)
  {
    if Assigns(At(supported, ops, m), ops[m], id, field) {
      assert LastWriteAt(supported, ops, id, field, m, m + 1);
    } else if i: nat :| LastWriteAt(supported, ops, id, field, i, m) && ops[i].value == value {
      assert LastWriteAt(supported, ops, id, field, i, m + 1);
    }
  }

  lemma LastWrittenIsUnique(supported: bool, ops: seq<Vmx.Op>, id: Id, field: Field, m: nat, a: Word, b: Word)
    requires m <= |ops|
    requires IsLastWritten(supported, ops, id, field, m, a) && IsLastWritten(supported, ops, id, field, m, b)
    ensures a == b
  {
    if i: nat :| LastWriteAt(supported, ops, id, field, i, m) && ops[i].value == a {
      var j: nat :| LastWriteAt(supported, ops, id, field, j, m) && ops[j].value == b;
      assert i == j;
    }
  }

  lemma {:induction false} FieldIsLastWritten(supported: bool, ops: seq<Vmx.Op>, id: Id, msr: Msr, m: nat)
    requires m <= |ops| && IsSysenter(msr)
    ensures IsLastWritten(supported, ops, id, FieldFor(msr), m, FieldOf(At(supported, ops, m), id, FieldFor(msr)))
  {
    if m > 0 {
      FieldIsLastWritten(supported, ops, id, msr, m - 1);
      NextState(supported, ops, m - 1);
      SysenterStep(At(supported, ops, m - 1), ops[m - 1], id, msr);
      LastWrittenStep(supported, ops, id, FieldFor(msr), m - 1, FieldOf(At(supported, ops, m - 1), id, FieldFor(msr)));
    }
  }

  /** Operation `m` is a successful entry of the VMCS. */
  predicate Enters(supported: bool, ops: seq<Vmx.Op>, id: Id, m: nat)
    requires m < |ops|
  {
    var s := At(supported, ops, m);
    ops[m].Entry? && s.current == Some(id) && Step(s, ops[m]).1.Entered?
  }

  /** At every successful entry, over every run, each SYSENTER MSR becomes what was last
      written to its field while the VMCS was loaded, or 0. */
  lemma EntryLoadsLastWritten(supported: bool, ops: seq<Vmx.Op>, id: Id, msr: Msr, m: nat)
    requires m < |ops| && IsSysenter(msr) && Enters(supported, ops, id, m)
    ensures IsLastWritten(supported, ops, id, FieldFor(msr), m, ReadMsr(Step(At(supported, ops, m), ops[m]).1.cpu, msr))
  {
    var s := At(supported, ops, m);
    NextState(supported, ops, m);
    EntryLoads(s, ops[m], id);
    LoadedGuest(s.vmcses[id].fields, ops[m].cpu);
    FieldIsLastWritten(supported, ops, id, msr, m);
  }

  /** So the value that the MSR had at an exit comes back at a later entry exactly when it is
      what was last written to the field before that entry; the exit has no part in it. */
  lemma SysenterSurvivesIff(supported: bool, ops: seq<Vmx.Op>, id: Id, msr: Msr, k: nat, m: nat)
    requires k < m < |ops| && IsSysenter(msr)
    requires Saves(At(supported, ops, k), ops[k], id) && Enters(supported, ops, id, m)
    ensures
      var left, back := ReadMsr(ops[k].cpu, msr), ReadMsr(Step(At(supported, ops, m), ops[m]).1.cpu, msr);
      back == left <==> IsLastWritten(supported, ops, id, FieldFor(msr), m, left)
  {
    var left, back := ReadMsr(ops[k].cpu, msr), ReadMsr(Step(At(supported, ops, m), ops[m]).1.cpu, msr);
    EntryLoadsLastWritten(supported, ops, id, msr, m);
    if IsLastWritten(supported, ops, id, FieldFor(msr), m, left) {
      LastWrittenIsUnique(supported, ops, id, FieldFor(msr), m, left, back);
    }
  }

  /** The state after VMXON, the creation of a VMCS and its loading. */
  function FirstLoaded(): State {
    Step(Step(Step(Init(true), Vmx.Op.Enable).0, Create).0, Load(1)).0
  }

  lemma FirstLoadedIs()
    ensures
      var s := FirstLoaded();
      && s.current == Some(1) && 1 in s.vmcses && !s.vmcses[1].launched
      && FieldOf(s, 1, GUEST_SYSENTER_CS) == 0
  {
  }

  lemma ExitStep(s: State, id: Id, exit: Vmx.Op)
    requires s.current == Some(id) && id in s.vmcses && !s.vmcses[id].launched && exit.Exit?
    ensures
      var t := Step(s, exit).0;
      && t.current == Some(id) && id in t.vmcses && !t.vmcses[id].launched
      && FieldOf(t, id, GUEST_SYSENTER_CS) == FieldOf(s, id, GUEST_SYSENTER_CS)
  {
    SaveKeepsSysenter(s.vmcses[id].fields, exit.cpu, exit.reason, exit.qualification, IA32_SYSENTER_CS);
  }

  lemma LaunchStep(s: State, id: Id, launch: Vmx.Op)
    requires s.current == Some(id) && id in s.vmcses && !s.vmcses[id].launched
    requires launch.Entry? && launch.launch
    ensures Step(s, launch).1.Entered?
    ensures ReadMsr(Step(s, launch).1.cpu, IA32_SYSENTER_CS) == FieldOf(s, id, GUEST_SYSENTER_CS)
  {
    EntryLoads(s, launch, id);
    LoadedGuest(s.vmcses[id].fields, launch.cpu);
  }

  /** A SYSENTER value is lost: a guest leaves a fresh VMCS with 8 and comes back with 0. */
  lemma SysenterLost(cpu: Cpu) returns (guest: Cpu)
    ensures ReadMsr(guest, IA32_SYSENTER_CS) == 8
    ensures
      var r := Step(Step(FirstLoaded(), Exit(guest, 0, 0)).0, Entry(cpu, true)).1;
      r.Entered? && ReadMsr(r.cpu, IA32_SYSENTER_CS) == 0
  {
    guest := WriteMsr(cpu, IA32_SYSENTER_CS, 8);
    MsrReadsBack(cpu, IA32_SYSENTER_CS, 8, IA32_SYSENTER_CS);
    FirstLoadedIs();
    ExitStep(FirstLoaded(), 1, Exit(guest, 0, 0));
    LaunchStep(Step(FirstLoaded(), Exit(guest, 0, 0)).0, 1, Entry(cpu, true));
  }
}
