/**
 * Trap causes as the kernel names them. `Unknown` is the variant the
 * total decoders of the `scause` register return for a code they do not
 * recognise.
 */
module Trap {
  datatype InterruptCode =
    | SupervisorSoftwareInterrupt
    | VirtualSupervisorSoftwareInterrupt
    | MachineSoftwareInterrupt
    | SupervisorTimerInterrupt
    | VirtualSupervisorTimerInterrupt
    | MachineTimerInterrupt
    | SupervisorExternalInterrupt
    | VirtualSupervisorExternalInterrupt
    | MachineExternalInterrupt
    | SupervisorGuestExternalInterrupt
    | LocalCounterOverflowInterrupt
    | Unknown

  datatype ExceptionCode =
    | InstructionAddressMisaligned
    | InstructionAccessFault
    | InstructionPageFault
    | InstructionGuestPageFault
    | LoadPageFault
    | IllegalInstruction
    | Breakpoint
    | LoadAddressMisaligned
    | LoadAccessFault
    | LoadGuestPageFault
    | StoreAmoAddressMisaligned
    | StoreAmoAccessFault
    | StoreAmoPageFault
    | StoreAmoGuestPageFault
    | EnvironmentCallFromUserMode
    | EnvironmentCallFromHypervisorMode
    | EnvironmentCallFromVirtualSupervisorMode
    | EnvironmentCallFromMachineMode
    | DoubleTrap
    | SoftwareCheck
    | HardwareError
    | VirtualInstruction
    | Unknown

  /**
   * The interrupt's exception code in `scause`, as assigned by the RISC-V
   * Privileged Architecture (section 4.1.8 of version 1.12, and the
   * hypervisor extension for the virtual-supervisor and guest-external
   * interrupts). `Unknown` has none.
   */
  function InterruptNumber(c: InterruptCode): (n: int)
    ensures c.Unknown? <==> n < 0
  {
    match c
    case SupervisorSoftwareInterrupt => 1
    case VirtualSupervisorSoftwareInterrupt => 2
    case MachineSoftwareInterrupt => 3
    case SupervisorTimerInterrupt => 5
    case VirtualSupervisorTimerInterrupt => 6
    case MachineTimerInterrupt => 7
    case SupervisorExternalInterrupt => 9
    case VirtualSupervisorExternalInterrupt => 10
    case MachineExternalInterrupt => 11
    case SupervisorGuestExternalInterrupt => 12
    case LocalCounterOverflowInterrupt => 13
    case Unknown => -1
  }

  /** The exception's code in `scause`, as the architecture assigns it. `Unknown` has none. */
  function ExceptionNumber(c: ExceptionCode): (n: int)
    ensures c.Unknown? <==> n < 0
  {
    match c
    case InstructionAddressMisaligned => 0
    case InstructionAccessFault => 1
    case IllegalInstruction => 2
    case Breakpoint => 3
    case LoadAddressMisaligned => 4
    case LoadAccessFault => 5
    case StoreAmoAddressMisaligned => 6
    case StoreAmoAccessFault => 7
    case EnvironmentCallFromUserMode => 8
    case EnvironmentCallFromHypervisorMode => 9
    case EnvironmentCallFromVirtualSupervisorMode => 10
    case EnvironmentCallFromMachineMode => 11
    case InstructionPageFault => 12
    case LoadPageFault => 13
    case StoreAmoPageFault => 15
    case DoubleTrap => 16
    case SoftwareCheck => 18
    case HardwareError => 19
    case InstructionGuestPageFault => 20
    case LoadGuestPageFault => 21
    case VirtualInstruction => 22
    case StoreAmoGuestPageFault => 23
    case Unknown => -1
  }
}
