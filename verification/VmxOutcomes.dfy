/** What every VMX operation of a run answers and leaves behind, told from the operations
    before it alone. */
module VmxOutcomes {
  import opened Machine
  import opened VirtualCpu
  import opened VmcsFields
  import opened Vmx
  import opened VmxRuns

  // ---- VMX on and off ----

  /** VMX was switched on by operation `i`, and not off again before `n`. */
  ghost predicate OnSince(ops: seq<Vmx.Op>, i: nat, n: nat)
    requires n <= |ops|
  {
    i < n && ops[i] == Vmx.Op.Enable && forall j :: i < j < n ==> ops[j] != Vmx.Op.Disable
  }

  ghost predicate IsOn(supported: bool, ops: seq<Vmx.Op>, n: nat)
    requires n <= |ops|
  {
    supported && exists i: nat :: OnSince(ops, i, n)
  }

  lemma SwitchStep(s: State, op: Vmx.Op)
    ensures Step(s, op).0.supported == s.supported
    ensures Step(s, op).0.enabled ==
            ((s.supported && op == Vmx.Op.Enable) || (s.enabled && op != Vmx.Op.Disable))
  {
  }

  lemma {:induction false} SupportIsFixed(supported: bool, ops: seq<Vmx.Op>, n: nat)
    requires n <= |ops|
    ensures At(supported, ops, n).supported == supported
  {
    if n > 0 {
      SupportIsFixed(supported, ops, n - 1);
      NextState(supported, ops, n - 1);
      SwitchStep(At(supported, ops, n - 1), ops[n - 1]);
    }
  }

  lemma OnSinceStep(ops: seq<Vmx.Op>, i: nat, n: nat)
    requires n < |ops|
    ensures OnSince(ops, i, n + 1) <==>
      (i == n && ops[n] == Vmx.Op.Enable) || (OnSince(ops, i, n) && ops[n] != Vmx.Op.Disable)
  {
  }

  lemma IsOnStep(supported: bool, ops: seq<Vmx.Op>, n: nat)
    requires n < |ops|
    ensures IsOn(supported, ops, n + 1) <==>
      (supported && ops[n] == Vmx.Op.Enable) || (IsOn(supported, ops, n) && ops[n] != Vmx.Op.Disable)
  {
    var m := n + 1;
    if i: nat :| OnSince(ops, i, m) {
      OnSinceStep(ops, i, n);
    }
    if i: nat :| OnSince(ops, i, n) {
      OnSinceStep(ops, i, n);
    }
    OnSinceStep(ops, n, n);
  }

  /** VMX is on exactly when it is supported and was switched on since it was last switched off. */
  lemma {:induction false} EnabledIffOn(supported: bool, ops: seq<Vmx.Op>, n: nat)
    requires n <= |ops|
    ensures At(supported, ops, n).enabled <==> IsOn(supported, ops, n)
  {
    if n > 0 {
      EnabledIffOn(supported, ops, n - 1);
      NextState(supported, ops, n - 1);
      SupportIsFixed(supported, ops, n - 1);
      SwitchStep(At(supported, ops, n - 1), ops[n - 1]);
      IsOnStep(supported, ops, n - 1);
    }
  }

  // ---- Registered VMCSes ----

  /** How many VMCSes were created: one for each creation while VMX was on. */
  ghost function Creations(supported: bool, ops: seq<Vmx.Op>, n: nat): nat
    requires n <= |ops|
  {
    if n == 0 then 0
    else Creations(supported, ops, n - 1) + if ops[n - 1] == Create && IsOn(supported, ops, n - 1) then 1 else 0
  }

  /** Identifiers are given out from 1 on. */
  ghost predicate IsRegistered(supported: bool, ops: seq<Vmx.Op>, id: Id, n: nat)
    requires n <= |ops|
  {
    1 <= id <= Creations(supported, ops, n)
  }

  lemma RegisterStep(s: State, op: Vmx.Op)
    requires Inv(s)
    ensures
      var t := Step(s, op).0;
      if op == Create && s.enabled then t.nextId == s.nextId + 1 && t.vmcses.Keys == s.vmcses.Keys + {s.nextId}
      else t.nextId == s.nextId && t.vmcses.Keys == s.vmcses.Keys
  {
  }

  /** The registered identifiers are 1 up to the number of creations. */
  lemma {:induction false} RegisteredIff(supported: bool, ops: seq<Vmx.Op>, n: nat)
    requires n <= |ops|
    ensures At(supported, ops, n).nextId == Creations(supported, ops, n) + 1
    ensures forall id :: id in At(supported, ops, n).vmcses <==> IsRegistered(supported, ops, id, n)
  {
    if n > 0 {
      RegisteredIff(supported, ops, n - 1);
      NextState(supported, ops, n - 1);
      EnabledIffOn(supported, ops, n - 1);
      RegisterStep(At(supported, ops, n - 1), ops[n - 1]);
    }
  }

  // ---- The loaded VMCS ----

  /** Operation `i` loads the VMCS: VMX is on and the VMCS registered. */
  ghost predicate Loads(supported: bool, ops: seq<Vmx.Op>, id: Id, i: nat)
    requires i < |ops|
  {
    ops[i] == Load(id) && IsOn(supported, ops, i) && IsRegistered(supported, ops, id, i)
  }

  /** Operation `i` unloads what was loaded: it switches VMX off or loads another VMCS. */
  ghost predicate Unloads(supported: bool, ops: seq<Vmx.Op>, id: Id, i: nat)
    requires i < |ops|
  {
    ops[i] == Vmx.Op.Disable || (ops[i].Load? && ops[i].id != id && Loads(supported, ops, ops[i].id, i))
  }

  ghost predicate IsLoaded(supported: bool, ops: seq<Vmx.Op>, id: Id, n: nat)
    requires n <= |ops|
  {
    n > 0 && (Loads(supported, ops, id, n - 1) ||
              (IsLoaded(supported, ops, id, n - 1) && !Unloads(supported, ops, id, n - 1)))
  }

  lemma LoadStep(s: State, op: Vmx.Op, id: Id)
    requires Inv(s)
    ensures Step(s, op).0.current == Some(id) <==>
      || (op == Load(id) && s.enabled && id in s.vmcses)
      || (s.current == Some(id) && op != Vmx.Op.Disable &&
          !(op.Load? && op.id != id && s.enabled && op.id in s.vmcses))
  {
  }

  /** A VMCS is loaded exactly when it was loaded and nothing has unloaded it since. */
  lemma {:induction false} CurrentIffLoaded(supported: bool, ops: seq<Vmx.Op>, id: Id, n: nat)
    requires n <= |ops|
    ensures At(supported, ops, n).current == Some(id) <==> IsLoaded(supported, ops, id, n)
  {
    if n > 0 {
      CurrentIffLoaded(supported, ops, id, n - 1);
      NextState(supported, ops, n - 1);
      EnabledIffOn(supported, ops, n - 1);
      RegisteredIff(supported, ops, n - 1);
      LoadStep(At(supported, ops, n - 1), ops[n - 1], id);
    }
  }

  // ---- The active flag ----

  predicate IsActive(s: State, id: Id) {
    id in s.vmcses && s.vmcses[id].active
  }

  ghost predicate ClearsAt(supported: bool, ops: seq<Vmx.Op>, id: Id, i: nat)
    requires i < |ops|
  {
    ops[i] == Clear(id) && IsOn(supported, ops, i)
  }

  /** Operation `i` loaded the VMCS, and none from there up to `n` cleared it. */
  ghost predicate ActiveSince(supported: bool, ops: seq<Vmx.Op>, id: Id, i: nat, n: nat)
    requires n <= |ops|
  {
    i < n && Loads(supported, ops, id, i) && forall j :: i < j < n ==> !ClearsAt(supported, ops, id, j)
  }

  lemma ActiveSinceStep(supported: bool, ops: seq<Vmx.Op>, id: Id, i: nat, n: nat)
    requires n < |ops|
    ensures ActiveSince(supported, ops, id, i, n + 1) <==>
      (i == n && Loads(supported, ops, id, n)) ||
      (ActiveSince(supported, ops, id, i, n) && !ClearsAt(supported, ops, id, n))
  {
  }

  lemma ActiveStep(s: State, op: Vmx.Op, id: Id)
    requires Inv(s)
    ensures IsActive(Step(s, op).0, id) <==>
      (op == Load(id) && s.enabled && id in s.vmcses) || (IsActive(s, id) && !(op == Clear(id) && s.enabled))
  {
  }

  /** A VMCS is active exactly when it was loaded since it was last cleared; switching VMX off
      or loading another does not change that. */
  lemma {:induction false} ActiveIffLoadedSinceClear(supported: bool, ops: seq<Vmx.Op>, id: Id, n: nat)
    requires n <= |ops|
    ensures IsActive(At(supported, ops, n), id) <==> exists i: nat :: ActiveSince(supported, ops, id, i, n)
  {
    if n > 0 {
      var m := n - 1;
      ActiveIffLoadedSinceClear(supported, ops, id, m);
      NextState(supported, ops, m);
      EnabledIffOn(supported, ops, m);
      RegisteredIff(supported, ops, m);
      ActiveStep(At(supported, ops, m), ops[m], id);
      if i: nat :| ActiveSince(supported, ops, id, i, n) {
        ActiveSinceStep(supported, ops, id, i, m);
      }
      if i: nat :| ActiveSince(supported, ops, id, i, m) {
        ActiveSinceStep(supported, ops, id, i, m);
      }
      ActiveSinceStep(supported, ops, id, m, m);
    }
  }

  // ---- Answers ----

  ghost function Answer(supported: bool, ops: seq<Vmx.Op>, k: nat): Outcome
    requires k < |ops|
  {
    Step(At(supported, ops, k), ops[k]).1
  }

  /** Switching on fails without support or when on already; switching off when off already. */
  lemma SwitchAnswers(supported: bool, ops: seq<Vmx.Op>, k: nat)
    requires k < |ops|
    ensures ops[k] == Vmx.Op.Enable ==>
      Answer(supported, ops, k) ==
      if !supported then Err(NotSupported) else if IsOn(supported, ops, k) then Err(AlreadyEnabled) else Ok
    ensures ops[k] == Vmx.Op.Disable ==>
      Answer(supported, ops, k) == if IsOn(supported, ops, k) then Ok else Err(NotEnabled)
  {
    SupportIsFixed(supported, ops, k);
    EnabledIffOn(supported, ops, k);
  }

  /** Creating answers with the next identifier, loading needs a registered VMCS, clearing does
      not; all three need VMX on. */
  lemma RegistryAnswers(supported: bool, ops: seq<Vmx.Op>, k: nat)
    requires k < |ops|
    ensures ops[k] == Create ==>
      Answer(supported, ops, k) ==
      if IsOn(supported, ops, k) then Created(Creations(supported, ops, k) + 1) else Err(NotEnabled)
    ensures ops[k].Load? ==>
      Answer(supported, ops, k) ==
      if !IsOn(supported, ops, k) then Err(NotEnabled)
      else if IsRegistered(supported, ops, ops[k].id, k) then Ok else Err(InvalidVmcs)
    ensures ops[k].Clear? ==>
      Answer(supported, ops, k) == if IsOn(supported, ops, k) then Ok else Err(NotEnabled)
  {
    EnabledIffOn(supported, ops, k);
    RegisteredIff(supported, ops, k);
  }

  lemma EntryStep(s: State, op: Vmx.Op, id: Id)
    requires id in s.vmcses && s.current == Some(id) && op.Entry?
    ensures Step(s, op).1 ==
      if op.launch == s.vmcses[id].launched then Err(VmEntryFailed(if op.launch then 0 else 1))
      else Entered(LoadGuestState(s.vmcses[id].fields, op.cpu))
  {
  }

  /** An entry of a loaded VMCS: a launch succeeds exactly when no launch of it succeeded since
      its last clear, a resume exactly when one did; otherwise they fail with code 0 and 1. */
  lemma EntryAnswers(supported: bool, ops: seq<Vmx.Op>, id: Id, k: nat)
    requires k < |ops| && ops[k].Entry? && IsLoaded(supported, ops, id, k)
    ensures
      var launched := exists i: nat :: LaunchedAt(supported, ops, id, i, k);
      if ops[k].launch
      then if launched then Answer(supported, ops, k) == Err(VmEntryFailed(0)) else Answer(supported, ops, k).Entered?
      else if launched then Answer(supported, ops, k).Entered? else Answer(supported, ops, k) == Err(VmEntryFailed(1))
  {
    var s := At(supported, ops, k);
    NextState(supported, ops, k);
    CurrentIffLoaded(supported, ops, id, k);
    LaunchStateMeans(supported, ops, id, k);
    EntryStep(s, ops[k], id);
  }

  lemma ResumesIff(supported: bool, ops: seq<Vmx.Op>, id: Id, k: nat)
    requires k < |ops| && ops[k].Entry? && !ops[k].launch && At(supported, ops, k).current == Some(id)
    ensures Resumes(At(supported, ops, k), ops[k], id) <==> exists i: nat :: LaunchedAt(supported, ops, id, i, k)
  {
    CurrentIffLoaded(supported, ops, id, k);
    EntryAnswers(supported, ops, id, k);
  }

  lemma LaunchesIff(supported: bool, ops: seq<Vmx.Op>, id: Id, k: nat)
    requires k < |ops| && ops[k].Entry? && ops[k].launch && At(supported, ops, k).current == Some(id)
    ensures Launches(At(supported, ops, k), ops[k], id) <==> !exists i: nat :: LaunchedAt(supported, ops, id, i, k)
  {
    CurrentIffLoaded(supported, ops, id, k);
    EntryAnswers(supported, ops, id, k);
  }

  /** Without a loaded VMCS, entries, exits and writes answer so and change nothing; with one,
      exits and writes succeed. */
  lemma LoadedAnswers(supported: bool, ops: seq<Vmx.Op>, k: nat)
    requires k < |ops| && (ops[k].Entry? || ops[k].Exit? || ops[k].Write?)
    ensures (forall id: Id :: !IsLoaded(supported, ops, id, k)) ==>
      Answer(supported, ops, k) == Err(VmcsNotLoaded) && At(supported, ops, k + 1) == At(supported, ops, k)
    ensures !ops[k].Entry? && (exists id: Id :: IsLoaded(supported, ops, id, k)) ==> Answer(supported, ops, k) == Ok
  {
    var s := At(supported, ops, k);
    NextState(supported, ops, k);
    if s.current.Some? {
      CurrentIffLoaded(supported, ops, s.current.value, k);
    }
    forall id: Id | IsLoaded(supported, ops, id, k)
      ensures s.current == Some(id)
    {
      CurrentIffLoaded(supported, ops, id, k);
    }
  }

  // ---- What exits and writes leave behind ----

  lemma ExitRecords(s: State, op: Vmx.Op, id: Id)
    requires id in s.vmcses && s.current == Some(id) && op.Exit?
    ensures FieldOf(Step(s, op).0, id, VM_EXIT_REASON) == op.reason
    ensures FieldOf(Step(s, op).0, id, EXIT_QUALIFICATION) == op.qualification
  {
  }

  /** After an exit its reason and qualification can be read from the VMCS it left. */
  lemma ExitInfoReadsBack(supported: bool, ops: seq<Vmx.Op>, id: Id, k: nat)
    requires k < |ops| && ops[k].Exit? && IsLoaded(supported, ops, id, k)
    ensures FieldOf(At(supported, ops, k + 1), id, 0x4402) == ops[k].reason
    ensures FieldOf(At(supported, ops, k + 1), id, 0x6400) == ops[k].qualification
  {
    NextState(supported, ops, k);
    CurrentIffLoaded(supported, ops, id, k);
    ExitRecords(At(supported, ops, k), ops[k], id);
  }

  lemma WriteStep(s: State, op: Vmx.Op, id: Id, field: Field)
    requires id in s.vmcses && s.current == Some(id) && op.Write?
    ensures FieldOf(Step(s, op).0, id, field) == if field == op.field then op.value else FieldOf(s, id, field)
  {
  }

  /** A write is read back from the loaded VMCS, and no other field changes. */
  lemma WriteReadsBack(supported: bool, ops: seq<Vmx.Op>, id: Id, k: nat, field: Field)
    requires k < |ops| && ops[k].Write? && IsLoaded(supported, ops, id, k)
    ensures FieldOf(At(supported, ops, k + 1), id, field) ==
      if field == ops[k].field then ops[k].value else FieldOf(At(supported, ops, k), id, field)
  {
    NextState(supported, ops, k);
    CurrentIffLoaded(supported, ops, id, k);
    WriteStep(At(supported, ops, k), ops[k], id, field);
  }

  /** The exits of a reason that a run made: those with a VMCS loaded. */
  ghost function ExitsFor(supported: bool, ops: seq<Vmx.Op>, reason: nat, n: nat): nat
    requires n <= |ops|
  {
    if n == 0 then 0
    else
      var op, before := ops[n - 1], ExitsFor(supported, ops, reason, n - 1);
      if op.Exit? && op.reason == reason && Answer(supported, ops, n - 1) == Ok then before + 1 else before
  }

  function CountOf(counts: map<nat, nat>, reason: nat): nat {
    if reason in counts then counts[reason] else 0
  }

  lemma CountStep(s: State, op: Vmx.Op, reason: nat)
    ensures CountOf(Step(s, op).0.exitReasons, reason) == CountOf(s.exitReasons, reason) +
      if op.Exit? && op.reason == reason && Step(s, op).1 == Ok then 1 else 0
  {
  }

  /** The count of each reason is the number of its exits. */
  lemma {:induction false} CountsAreExits(supported: bool, ops: seq<Vmx.Op>, reason: nat, n: nat)
    requires n <= |ops|
    ensures CountOf(At(supported, ops, n).exitReasons, reason) == ExitsFor(supported, ops, reason, n)
  {
    if n > 0 {
      CountsAreExits(supported, ops, reason, n - 1);
      NextState(supported, ops, n - 1);
      CountStep(At(supported, ops, n - 1), ops[n - 1], reason);
    }
  }

  /** The successful entries of a run. */
  ghost function EntriesIn(supported: bool, ops: seq<Vmx.Op>, n: nat): nat
    requires n <= |ops|
  {
    if n == 0 then 0
    else EntriesIn(supported, ops, n - 1) + if Answer(supported, ops, n - 1).Entered? then 1 else 0
  }

  lemma EntryCountStep(s: State, op: Vmx.Op)
    ensures Step(s, op).0.entries == s.entries + if Step(s, op).1.Entered? then 1 else 0
  {
  }

  lemma {:induction false} EntriesAreCounted(supported: bool, ops: seq<Vmx.Op>, n: nat)
    requires n <= |ops|
    ensures At(supported, ops, n).entries == EntriesIn(supported, ops, n)
  {
    if n > 0 {
      EntriesAreCounted(supported, ops, n - 1);
      NextState(supported, ops, n - 1);
      EntryCountStep(At(supported, ops, n - 1), ops[n - 1]);
    }
  }

  /** A VMCS is new right after the operation that created it. */
  lemma CreatedIsNew(supported: bool, ops: seq<Vmx.Op>, k: nat)
    requires k < |ops| && ops[k] == Create && IsOn(supported, ops, k)
    ensures
      var id, s := Creations(supported, ops, k) + 1, At(supported, ops, k + 1);
      id in s.vmcses && s.vmcses[id] == Vmcs(false, false, 0, Initial())
  {
    NextState(supported, ops, k);
    EnabledIffOn(supported, ops, k);
    RegisteredIff(supported, ops, k);
  }
}
