/** The control signals of the CPU schematic.

    A control is named by the component that owns it and by its operation; the phase in which it is
    active and the bus it uses follow from those two, as the HDL control templates fix them. */
module Hdl {

  /** Tick phases in execution order; `Rank` gives the order the compiler compares. */
  datatype Phase = NoPhase | ControlPhase | WritePhase | ReadPhase | ProcessPhase | ClearPhase {
    function Rank(): nat {
      match this
      case NoPhase => 0
      case ControlPhase => 1
      case WritePhase => 2
      case ReadPhase => 3
      case ProcessPhase => 4
      case ClearPhase => 5
    }
  }

  datatype BusType = DataBus | AddressBus | NoBus

  datatype Component =
    | Halt | Crash | IrqLine
    | A | X | Y | Sp | Tmp
    | Alu | AluLhs | AluRhs | AluResult
    | Pc | PcLow | PcHigh | PcOffset
    | Status | Flag(bit: nat) | Analyzer
    | Controller | Ir | Sc | Ipc
    | Memory | Mar | MarLow | MarHigh | MarOffset

  datatype Operation =
    | Write | Read
    | Reset | Increment | Decrement | Set | Clear
    | Raise | OpcodeBit(index: nat) | AddSignedOffset | InstructionStart | Latch
    | AddOffset | StackPage | InterruptVector

  /** The bus a component drives and samples, if it has a bus port. */
  function PortOf(component: Component): BusType {
    match component
    case A | X | Y | Sp | AluLhs | AluRhs | AluResult => DataBus
    case PcLow | PcHigh | PcOffset | Status | Analyzer | Ir => DataBus
    case Memory | MarLow | MarHigh | MarOffset => DataBus
    case Tmp | Pc | Mar => AddressBus
    case _ => NoBus
  }

  datatype ControlInfo = ControlInfo(component: Component, operation: Operation) {
    function Phase(): Phase {
      match operation
      case Write => WritePhase
      case Read => ReadPhase
      case _ => ProcessPhase
    }

    /** The bus of a bus control; process controls use none. */
    function Bus(): BusType {
      if operation.Write? || operation.Read? then PortOf(component) else NoBus
    }
  }

  /** Controls of the schematic: only components on a bus have read and write controls. */
  type Control = c: ControlInfo | (c.operation.Write? || c.operation.Read?) ==> PortOf(c.component) != NoBus
    witness ControlInfo(Halt, Raise)
}
