/**
 * The kernel's `scause` wrapper: a 64-bit value with `new` and `value`
 * that also decodes its cause. Unlike the architecture crate's version,
 * these decoders panic on a code they do not list, so they are only
 * defined on the listed codes.
 */
module Csr {
  import opened Trap
  import RiscvArch

  datatype Scause = Scause(value: bv64)

  /** `scause::is_interrupt`: bit 63. */
  function IsInterrupt(s: Scause): (b: bool)
    ensures b <==> s.value & RiscvArch.INTERRUPT_BIT != 0
  {
    s.value >> 63 == 1
  }

  /** `scause::code`: bit 63 cleared, every other bit kept. */
  function Code(s: Scause): (c: bv64)
    ensures c & RiscvArch.INTERRUPT_BIT == 0
    ensures c | (s.value & RiscvArch.INTERRUPT_BIT) == s.value
  {
    s.value & !RiscvArch.INTERRUPT_BIT
  }

  /** The interrupt table of `scause::interrupt_code`, defined where it does not panic. */
  function InterruptOfCode(code: nat): (c: InterruptCode)
    requires RiscvArch.KnownInterrupt(code)
    ensures InterruptNumber(c) == code
  {
    match code
    case 1 => SupervisorSoftwareInterrupt
    case 2 => VirtualSupervisorSoftwareInterrupt
    case 3 => MachineSoftwareInterrupt
    case 5 => SupervisorTimerInterrupt
    case 6 => VirtualSupervisorTimerInterrupt
    case 7 => MachineTimerInterrupt
    case 9 => SupervisorExternalInterrupt
    case 10 => VirtualSupervisorExternalInterrupt
    case 11 => MachineExternalInterrupt
    case 12 => SupervisorGuestExternalInterrupt
  }

  /** The exception table of `scause::exception_code`, defined where it does not panic. */
  function ExceptionOfCode(code: nat): (c: ExceptionCode)
    requires RiscvArch.KnownException(code)
    ensures ExceptionNumber(c) == code
  {
    match code
    case 0 => InstructionAddressMisaligned
    case 1 => InstructionAccessFault
    case 2 => IllegalInstruction
    case 3 => Breakpoint
    case 4 => LoadAddressMisaligned
    case 5 => LoadAccessFault
    case 6 => StoreAmoAddressMisaligned
    case 7 => StoreAmoAccessFault
    case 8 => EnvironmentCallFromUserMode
    case 9 => EnvironmentCallFromHypervisorMode
    case 10 => EnvironmentCallFromVirtualSupervisorMode
    case 11 => EnvironmentCallFromMachineMode
    case 12 => InstructionPageFault
    case 13 => LoadPageFault
    case 15 => StoreAmoPageFault
    case 16 => DoubleTrap
    case 18 => SoftwareCheck
    case 19 => HardwareError
    case 20 => InstructionGuestPageFault
    case 21 => LoadGuestPageFault
    case 22 => VirtualInstruction
    case 23 => StoreAmoGuestPageFault
  }

  /** `scause::interrupt_code`. */
  function InterruptCodeOf(s: Scause): (c: InterruptCode)
    requires RiscvArch.KnownInterrupt(Code(s) as nat)
    ensures InterruptNumber(c) == Code(s) as nat
  {
    InterruptOfCode(Code(s) as nat)
  }

  /** `scause::exception_code`. */
  function ExceptionCodeOf(s: Scause): (c: ExceptionCode)
    requires RiscvArch.KnownException(Code(s) as nat)
    ensures ExceptionNumber(c) == Code(s) as nat
  {
    ExceptionOfCode(Code(s) as nat)
  }

  /** On its domain each table gives the variant the architecture crate's total table gives. */
  lemma TablesAgree(code: nat)
    ensures RiscvArch.KnownInterrupt(code) ==> InterruptOfCode(code) == RiscvArch.InterruptOfCode(code)
    ensures RiscvArch.KnownException(code) ==> ExceptionOfCode(code) == RiscvArch.ExceptionOfCode(code)
  {
  }

  /** The two `scause` wrappers agree on bit 63 and on the code. */
  lemma CodesAgree(v: bv64)
    ensures IsInterrupt(Scause(v)) == RiscvArch.IsInterrupt(RiscvArch.Scause(v))
    ensures Code(Scause(v)) == RiscvArch.Code(RiscvArch.Scause(v))
  {
  }

  /**
   * Wherever the kernel's interrupt decoder is defined it gives the
   * variant the architecture crate's decoder gives; elsewhere the latter
   * says `Unknown`.
   */
  lemma InterruptAgreesWithArch(v: bv64)
    ensures RiscvArch.KnownInterrupt(Code(Scause(v)) as nat) ==>
              InterruptCodeOf(Scause(v)) == RiscvArch.InterruptCodeOf(RiscvArch.Scause(v))
    ensures !RiscvArch.KnownInterrupt(Code(Scause(v)) as nat) ==>
              RiscvArch.InterruptCodeOf(RiscvArch.Scause(v)) == InterruptCode.Unknown
  {
    CodesAgree(v);
    var code := Code(Scause(v)) as nat;
    assert RiscvArch.InterruptCodeOf(RiscvArch.Scause(v)) == RiscvArch.InterruptOfCode(code);
    TablesAgree(code);
  }

  /**
   * Wherever the kernel's exception decoder is defined it gives the
   * variant the architecture crate's decoder gives; elsewhere the latter
   * says `Unknown`.
   */
  lemma ExceptionAgreesWithArch(v: bv64)
    ensures RiscvArch.KnownException(Code(Scause(v)) as nat) ==>
              ExceptionCodeOf(Scause(v)) == RiscvArch.ExceptionCodeOf(RiscvArch.Scause(v))
    ensures !RiscvArch.KnownException(Code(Scause(v)) as nat) ==>
              RiscvArch.ExceptionCodeOf(RiscvArch.Scause(v)) == ExceptionCode.Unknown
  {
    CodesAgree(v);
    var code := Code(Scause(v)) as nat;
    assert RiscvArch.ExceptionCodeOf(RiscvArch.Scause(v)) == RiscvArch.ExceptionOfCode(code);
    TablesAgree(code);
  }
}
