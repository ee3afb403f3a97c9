/**
 * The `scause` register wrapper of the architecture crate: a raw 64-bit
 * value whose top bit says whether the trap was an interrupt and whose
 * other bits hold the cause code. Both decoders are total and answer
 * `Unknown` for codes they do not list.
 */
module RiscvArch {
  import opened Trap

  const INTERRUPT_BIT: bv64 := 1 << 63

  /** `Scause::new` is the constructor. */
  datatype Scause = Scause(raw: bv64)

  /** `is_interrupt`: bit 63 of the raw value. */
  function IsInterrupt(s: Scause): (b: bool)
    ensures b <==> s.raw & INTERRUPT_BIT != 0
  {
    s.raw >> 63 == 1
  }

  /** `code`: the raw value with bit 63 cleared. */
  function Code(s: Scause): (c: bv64)
    ensures c & INTERRUPT_BIT == 0
    ensures c | (s.raw & INTERRUPT_BIT) == s.raw
  {
    s.raw & !INTERRUPT_BIT
  }

  /** The codes `interrupt_code` names. */
  predicate KnownInterrupt(code: nat)
  {
    code in {1, 2, 3, 5, 6, 7, 9, 10, 11, 12}
  }

  /** The codes `exception_code` names. */
  predicate KnownException(code: nat)
  {
    code <= 13 || code == 15 || code == 16 || 18 <= code <= 23
  }

  /**
   * The interrupt table, on the code alone. It names exactly the listed
   * codes, each by the variant the architecture assigns that code, so
   * distinct codes give distinct variants.
   */
  function InterruptOfCode(code: nat): (c: InterruptCode)
    ensures c != InterruptCode.Unknown <==> KnownInterrupt(code)
    ensures KnownInterrupt(code) ==> InterruptNumber(c) == code
  {
    match code
    case 1 => SupervisorSoftwareInterrupt
    case 2 => VirtualSupervisorSoftwareInterrupt
    case 3 => MachineSoftwareInterrupt
    case 5 => SupervisorTimerInterrupt
    case 6 => VirtualSupervisorTimerInterrupt
    case 7 => MachineTimerInterrupt
    case 9 => SupervisorExternalInterrupt
    case 10 => VirtualSupervisorExternalInterrupt
    case 11 => MachineExternalInterrupt
    case 12 => SupervisorGuestExternalInterrupt
    case _ => InterruptCode.Unknown
  }

  /**
   * The exception table, on the code alone. It names exactly the listed
   * codes, each by the variant the architecture assigns that code.
   */
  function ExceptionOfCode(code: nat): (c: ExceptionCode)
    ensures c != ExceptionCode.Unknown <==> KnownException(code)
    ensures KnownException(code) ==> ExceptionNumber(c) == code
  {
    match code
    case 0 => InstructionAddressMisaligned
    case 1 => InstructionAccessFault
    case 2 => IllegalInstruction
    case 3 => Breakpoint
    case 4 => LoadAddressMisaligned
    case 5 => LoadAccessFault
    case 6 => StoreAmoAddressMisaligned
    case 7 => StoreAmoAccessFault
    case 8 => EnvironmentCallFromUserMode
    case 9 => EnvironmentCallFromHypervisorMode
    case 10 => EnvironmentCallFromVirtualSupervisorMode
    case 11 => EnvironmentCallFromMachineMode
    case 12 => InstructionPageFault
    case 13 => LoadPageFault
    case 15 => StoreAmoPageFault
    case 16 => DoubleTrap
    case 18 => SoftwareCheck
    case 19 => HardwareError
    case 20 => InstructionGuestPageFault
    case 21 => LoadGuestPageFault
    case 22 => VirtualInstruction
    case 23 => StoreAmoGuestPageFault
    case _ => ExceptionCode.Unknown
  }

  /** `Scause::interrupt_code`: the variant numbered by the code, or `Unknown`. */
  function InterruptCodeOf(s: Scause): (c: InterruptCode)
    ensures c != InterruptCode.Unknown <==> KnownInterrupt(Code(s) as nat)
    ensures c != InterruptCode.Unknown ==> InterruptNumber(c) == Code(s) as nat
  {
    InterruptOfCode(Code(s) as nat)
  }

  /** `Scause::exception_code`: the variant numbered by the code, or `Unknown`. */
  function ExceptionCodeOf(s: Scause): (c: ExceptionCode)
    ensures c != ExceptionCode.Unknown <==> KnownException(Code(s) as nat)
    ensures c != ExceptionCode.Unknown ==> ExceptionNumber(c) == Code(s) as nat
  {
    ExceptionOfCode(Code(s) as nat)
  }

  /**
   * Code 13 decodes to `Unknown` although the local-counter-overflow
   * interrupt, whose code it is, is a declared variant: that variant is
   * never produced.
   */
  lemma CounterOverflowNeverDecoded(s: Scause)
    ensures InterruptNumber(LocalCounterOverflowInterrupt) == 13
    ensures InterruptCodeOf(s) != LocalCounterOverflowInterrupt
  {
  }

  /** Both decoders ignore bit 63: flipping it changes neither. */
  lemma DecodersIgnoreInterruptBit(s: Scause)
    ensures Code(Scause(s.raw ^ INTERRUPT_BIT)) == Code(s)
    ensures InterruptCodeOf(Scause(s.raw ^ INTERRUPT_BIT)) == InterruptCodeOf(s)
    ensures ExceptionCodeOf(Scause(s.raw ^ INTERRUPT_BIT)) == ExceptionCodeOf(s)
  {
  }

  /** A cause code and the interrupt flag go into a raw value and come back out unchanged. */
  lemma CodeRoundTrip(code: bv64, interrupt: bool)
    requires code & INTERRUPT_BIT == 0
    ensures var s := Scause(if interrupt then code | INTERRUPT_BIT else code);
            Code(s) == code && IsInterrupt(s) == interrupt
  {
  }
}
