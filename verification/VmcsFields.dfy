/** The fields of a VMCS that the manager uses, by their encodings, and their first values. */
module VmcsFields {
  type Field = nat
  type Fields = map<Field, nat>

  const GUEST_IA32_PAT: Field := 0x2804
  const GUEST_IA32_EFER: Field := 0x2806
  const VM_EXIT_REASON: Field := 0x4402
  const GUEST_SYSENTER_CS: Field := 0x482A
  const EXIT_QUALIFICATION: Field := 0x6400
  const GUEST_CR0: Field := 0x6800
  const GUEST_CR3: Field := 0x6802
  const GUEST_CR4: Field := 0x6804
  const GUEST_FS_BASE: Field := 0x680E
  const GUEST_GS_BASE: Field := 0x6810
  const GUEST_RSP: Field := 0x681C
  const GUEST_RIP: Field := 0x681E
  const GUEST_RFLAGS: Field := 0x6820
  const GUEST_SYSENTER_ESP: Field := 0x6824
  const GUEST_SYSENTER_EIP: Field := 0x6826

  /** A field that was never written reads 0. */
  function Get(fields: Fields, field: Field): nat {
    if field in fields then fields[field] else 0
  }

  // ---- A new VMCS ----

  /** The fields that a new VMCS has: selectors of ES to TR; limits of ES to IDTR, access
      rights, interruptibility and activity; control registers and bases of ES to IDTR; RSP,
      RIP and RFLAGS; MSR bitmap, link pointer, PAT and EFER; and the execution controls. */
  predicate IsInitialized(f: Field) {
    f % 2 == 0 &&
    ( || 0x800 <= f <= 0x80E || 0x4800 <= f <= 0x4826 || 0x6800 <= f <= 0x6818 || GUEST_RSP <= f <= GUEST_RFLAGS
      || f == 0x2004 || f == 0x2800 || f == GUEST_IA32_PAT || f == GUEST_IA32_EFER
      || f == 0x4000 || f == 0x4002 || f == 0x4004 || f == 0x400C || f == 0x4012 || f == 0x401E)
  }

  function InitialSegment(f: Field): nat {
    if f == 0x802 then 0x08                               // CS
    else if 0x800 <= f <= 0x806 then 0x10                 // ES, SS, DS
    else if f == 0x80E then 0x18                          // TR
    else if 0x4800 <= f <= 0x4806 then 0xFFFF_FFFF
    else if f == 0x480E then 0x67
    else if f == 0x4816 then 0xA09B
    else if 0x4814 <= f <= 0x481A then 0xC093
    else if 0x481C <= f <= 0x4820 then 0x10000            // FS, GS, LDTR: unusable
    else if f == 0x4822 then 0x8B
    else 0
  }

  function InitialControl(f: Field): nat {
    if f == 0x2800 then 0xFFFF_FFFF_FFFF_FFFF
    else if f == 0x4000 then 0x16
    else if f == 0x4002 then 0x9420_0000
    else if f == 0x400C then 0x3_6DFF
    else if f == 0x4012 then 0x13FF
    else if f == 0x401E then 0x82
    else 0
  }

  function InitialRegister(f: Field): nat {
    if f == GUEST_CR0 then 0x8000_0011
    else if f == GUEST_CR4 then 0x2000
    else if f == GUEST_RFLAGS then 0x2
    else if f == GUEST_IA32_EFER then 0x501
    else if f == GUEST_IA32_PAT then 0x0007_0406_0007_0406
    else 0
  }

  /** At most one of the three is not 0. */
  function InitialValue(f: Field): nat {
    InitialSegment(f) + InitialControl(f) + InitialRegister(f)
  }

  function Initial(): Fields {
    map f: Field | f < 0x7000 && IsInitialized(f) :: InitialValue(f)
  }

  // ---- The first values, field by field ----

  /** Control registers, stack, program counter and flags; EFER with LMA, LME and SCE. */
  lemma InitialRegisters()
    ensures Get(Initial(), 0x6800) == 0x8000_0011 && Get(Initial(), 0x6802) == 0 && Get(Initial(), 0x6804) == 0x2000
    ensures Get(Initial(), 0x681C) == 0 && Get(Initial(), 0x681E) == 0 && Get(Initial(), 0x6820) == 0x2
    ensures Get(Initial(), 0x2804) == 0x0007_0406_0007_0406
    ensures Get(Initial(), 0x2806) == 0x400 + 0x100 + 1
  {
  }

  /** Selector, limit and access rights of ES, CS, SS, DS, FS, GS, LDTR and TR, in the order of
      their encodings; all bases are 0. */
  lemma InitialSegments(i: nat)
    requires i < 8
    ensures Get(Initial(), 0x800 + 2 * i) == [0x10, 0x08, 0x10, 0x10, 0, 0, 0, 0x18][i]
    ensures Get(Initial(), 0x4800 + 2 * i) == [0xFFFF_FFFF, 0xFFFF_FFFF, 0xFFFF_FFFF, 0xFFFF_FFFF, 0, 0, 0, 0x67][i]
    ensures Get(Initial(), 0x4814 + 2 * i) ==
            [0xC093, 0xA09B, 0xC093, 0xC093, 0x10000, 0x10000, 0x10000, 0x8B][i]
    ensures Get(Initial(), 0x6806 + 2 * i) == 0
  {
    assert i == 0 || i == 1 || i == 2 || i == 3 || i == 4 || i == 5 || i == 6 || i == 7;
  }

  /** Execution controls, exception bitmap, MSR bitmap, link address, and the descriptor tables. */
  lemma InitialControls()
    ensures Get(Initial(), 0x4000) == 0x16 && Get(Initial(), 0x4002) == 0x9420_0000
    ensures Get(Initial(), 0x401E) == 0x82 && Get(Initial(), 0x400C) == 0x3_6DFF && Get(Initial(), 0x4012) == 0x13FF
    ensures Get(Initial(), 0x4004) == 0 && Get(Initial(), 0x2004) == 0
    ensures Get(Initial(), 0x2800) == 0xFFFF_FFFF_FFFF_FFFF
    ensures Get(Initial(), 0x4810) == 0 && Get(Initial(), 0x4812) == 0
    ensures Get(Initial(), 0x6816) == 0 && Get(Initial(), 0x6818) == 0
    ensures Get(Initial(), 0x4824) == 0 && Get(Initial(), 0x4826) == 0
  {
  }
}
