/** The simulated CPU: registers, buses, asserted controls and the five-phase tick.

    Components act in the order in which the CPU registers its children. An exception of the simulator is
    an `Err`; a tick that raises one has no next state. */
module Simulator {
  import opened Wrappers
  import opened Bits
  import opened Hdl
  import opened AluUnit

  datatype SimError =
    | BusAlreadyWritten | BusReadBeforeWrite | OutsidePhase
    | UnmappedWrite | RomWrite
    | MicrocodeOutOfBounds | MicrocodeBitsOutsideTable

  type Ram = data: seq<byte> | |data| == 0x2000 witness seq(0x2000, _ => 0)

  type Cartridge = data: seq<byte> | |data| == 0x8000 witness seq(0x8000, _ => 0)

  datatype Registers = Registers(
    a: byte, x: byte, y: byte, sp: byte, tmp: word,
    lhs: byte, rhs: byte, result: byte,
    pc: word, pcOffset: byte,
    status: byte, analyzer: byte,
    ir: byte, inject: bool, sc: byte, ipc: word,
    mar: word, marOffset: byte,
    ram: Ram, rom: Cartridge)

  datatype Bus<+T> = Bus(value: Option<T>, written: bool)

  datatype Buses = Buses(data: Bus<byte>, address: Bus<word>)

  const EMPTY_BUSES := Buses(Bus(None, false), Bus(None, false))

  datatype Machine = Machine(
    regs: Registers,
    buses: Buses,
    asserted: set<Control>,
    irqLine: bool,
    phase: Phase,
    halted: bool,
    crashed: bool,
    ipcValid: bool,
    cycles: nat)

  /** The components with tick behaviour, in registration order. */
  function RegistrationOrder(): seq<Component> {
    [A, X, Y, Sp, Tmp,
     Component.Alu, AluLhs, AluRhs, AluResult,
     Pc, PcLow, PcHigh, PcOffset,
     Status, Flag(7), Flag(6), Flag(5), Flag(4), Flag(3), Flag(2), Flag(1), Flag(0), Analyzer,
     Controller, Ir, Sc, Ipc,
     Memory, Mar, MarLow, MarHigh, MarOffset]
  }

  const CARRY := 0
  const ZERO := 1
  const INTERRUPT_DISABLE := 2
  const OVERFLOW := 6
  const NEGATIVE := 7

  function High(w: word): byte {
    w / 0x100
  }

  function Low(w: word): byte {
    w % 0x100
  }

  function MakeWord(high: byte, low: byte): word {
    high * 0x100 + low
  }

  // ---------------------------------------------------------------- buses

  function DriveBus<T>(bus: Bus<T>, phase: Phase, value: T): Result<Bus<T>, SimError> {
    if phase != WritePhase then Err(OutsidePhase)
    else if bus.written then Err(BusAlreadyWritten)
    else Ok(Bus(Some(value), true))
  }

  function SampleBus<T>(bus: Bus<T>, phase: Phase): Result<T, SimError> {
    if phase != ReadPhase then Err(OutsidePhase)
    else if !bus.written || bus.value.None? then Err(BusReadBeforeWrite)
    else Ok(bus.value.value)
  }

  // ---------------------------------------------------------------- memory: RAM and cartridge ROM

  function ReadMemory(r: Registers, address: word): byte {
    if address < 0x2000 then r.ram[address]
    else if address >= 0x8000 then r.rom[address - 0x8000]
    else 0xFF
  }

  function WriteMemory(r: Registers, address: word, value: byte): Result<Registers, SimError> {
    if address < 0x2000 then Ok(r.(ram := r.ram[address := value]))
    else if address >= 0x8000 then Err(RomWrite)
    else Err(UnmappedWrite)
  }

  // ---------------------------------------------------------------- write phase

  function DataValue(r: Registers, c: Component): byte {
    match c
    case A => r.a
    case X => r.x
    case Y => r.y
    case Sp => r.sp
    case AluLhs => r.lhs
    case AluRhs => r.rhs
    case AluResult => r.result
    case PcLow => Low(r.pc)
    case PcHigh => High(r.pc)
    case PcOffset => r.pcOffset
    case Status => r.status
    case Analyzer => r.analyzer
    case Ir => r.ir
    case Memory => ReadMemory(r, r.mar)
    case MarLow => Low(r.mar)
    case MarHigh => High(r.mar)
    case MarOffset => r.marOffset
    case _ => 0
  }

  function AddressValue(r: Registers, c: Component): word {
    match c
    case Tmp => r.tmp
    case Pc => r.pc
    case Mar => r.mar
    case _ => 0
  }

  predicate On(on: set<Control>, c: Component, op: Operation) {
    ControlInfo(c, op) in on
  }

  /** The controls that a phase looks at: a control may be read only in its own phase. */
  function OfPhase(asserted: set<Control>, phase: Phase): set<Control> {
    set c | c in asserted && c.Phase() == phase
  }

  function TickWriteOne(r: Registers, on: set<Control>, phase: Phase, b: Buses, c: Component): Result<Buses, SimError> {
    if !On(on, c, Write) then Ok(b)
    else
      match PortOf(c)
      case DataBus =>
        (match DriveBus(b.data, phase, DataValue(r, c))
         case Ok(bus) => Ok(b.(data := bus))
         case Err(e) => Err(e))
      case AddressBus =>
        (match DriveBus(b.address, phase, AddressValue(r, c))
         case Ok(bus) => Ok(b.(address := bus))
         case Err(e) => Err(e))
      case NoBus => Ok(b)
  }

  // ---------------------------------------------------------------- read phase

  function StoreData(r: Registers, c: Component, v: byte): Result<Registers, SimError> {
    match c
    case A => Ok(r.(a := v))
    case X => Ok(r.(x := v))
    case Y => Ok(r.(y := v))
    case Sp => Ok(r.(sp := v))
    case AluLhs => Ok(r.(lhs := v))
    case AluRhs => Ok(r.(rhs := v))
    case AluResult => Ok(r.(result := v))
    case PcLow => Ok(r.(pc := MakeWord(High(r.pc), v)))
    case PcHigh => Ok(r.(pc := MakeWord(v, Low(r.pc))))
    case PcOffset => Ok(r.(pcOffset := v))
    case Status => Ok(r.(status := v))
    case Analyzer => Ok(r.(analyzer := v, status := WithFlag(WithFlag(r.status, ZERO, v == 0), NEGATIVE, v >= 0x80)))
    case Ir => Ok(r.(ir := v))
    case Memory => WriteMemory(r, r.mar, v)
    case MarLow => Ok(r.(mar := MakeWord(High(r.mar), v)))
    case MarHigh => Ok(r.(mar := MakeWord(v, Low(r.mar))))
    case MarOffset => Ok(r.(marOffset := v))
    case _ => Ok(r)
  }

  function StoreAddress(r: Registers, c: Component, v: word): Registers {
    match c
    case Tmp => r.(tmp := v)
    case Pc => r.(pc := v)
    case Mar => r.(mar := v)
    case _ => r
  }

  function TickReadOne(r: Registers, on: set<Control>, phase: Phase, b: Buses, c: Component): Result<Registers, SimError> {
    if !On(on, c, Read) then Ok(r)
    else
      match PortOf(c)
      case DataBus =>
        (match SampleBus(b.data, phase)
         case Err(e) => Err(e)
         case Ok(v) => StoreData(r, c, v))
      case AddressBus =>
        (match SampleBus(b.address, phase)
         case Err(e) => Err(e)
         case Ok(v) => Ok(StoreAddress(r, c, v)))
      case NoBus => Ok(r)
  }

  // ---------------------------------------------------------------- process phase

  function AluOpcode(on: set<Control>): nat {
    (if On(on, Component.Alu, OpcodeBit(0)) then 1 else 0) + (if On(on, Component.Alu, OpcodeBit(1)) then 2 else 0)
    + (if On(on, Component.Alu, OpcodeBit(2)) then 4 else 0) + (if On(on, Component.Alu, OpcodeBit(3)) then 8 else 0)
  }

  function ProcessAlu(r: Registers, on: set<Control>): Registers {
    var opcode := AluOpcode(on);
    if opcode == 0 then r
    else
      var u := Operate(Alu.Alu(r.lhs, r.rhs, r.result, Bit(r.status, CARRY), Bit(r.status, OVERFLOW)), opcode);
      r.(result := u.result, status := WithFlag(WithFlag(r.status, CARRY, u.carry), OVERFLOW, u.overflow))
  }

  /** Whole-word reset wins; otherwise increment, then the signed offset, wrapping at 16 bits. */
  function ProcessPc(r: Registers, on: set<Control>): Registers {
    if On(on, Pc, Reset) then r.(pc := 0)
    else
      var stepped := if On(on, Pc, Increment) then (r.pc + 1) % 0x1_0000 else r.pc;
      r.(pc := if On(on, Pc, AddSignedOffset) then (stepped + SignedByte(r.pcOffset)) % 0x1_0000 else stepped)
  }

  /** The address register ignores its whole-word reset. */
  function ProcessMar(r: Registers, on: set<Control>): Registers {
    var w0 := if On(on, Mar, InterruptVector) then 0xFFFE else r.mar;
    var w1 := if On(on, Mar, StackPage) then MakeWord(0x01, Low(w0)) else w0;
    var w2 := if On(on, Mar, Increment) then (w1 + 1) % 0x1_0000 else w1;
    r.(mar := if On(on, Mar, AddOffset) then AddWithCarry(w2, r.marOffset) else w2)
  }

  /** Byte-wise addition: the carry of the low byte goes into the high byte, which wraps. */
  function AddWithCarry(w: word, offset: byte): word {
    var sum := Low(w) + offset;
    MakeWord((High(w) + (if sum > 0xFF then 1 else 0)) % 0x100, sum % 0x100)
  }

  function ProcessCounter(on: set<Control>, c: Component, v: byte): byte {
    if On(on, c, Reset) then 0
    else if On(on, c, Increment) then (v + 1) % 0x100
    else if On(on, c, Decrement) then (v - 1) % 0x100
    else v
  }

  function ProcessIr(r: Registers, on: set<Control>, irqLine: bool): Registers {
    if On(on, Ir, Reset) then r.(ir := 0, inject := false)
    else if On(on, Controller, InstructionStart) then
      r.(inject := irqLine && !Bit(r.status, INTERRUPT_DISABLE))
    else r
  }

  function ProcessFlag(r: Registers, on: set<Control>, bit: nat): Registers {
    if bit < 8 && (On(on, Flag(bit), Set) || On(on, Flag(bit), Clear))
    then r.(status := WithFlag(r.status, bit, On(on, Flag(bit), Set)))
    else r
  }

  /** The components that compute: the ALU, the counters and the two address registers. */
  function ProcessComputed(r: Registers, on: set<Control>, c: Component): Registers {
    match c
    case Alu => ProcessAlu(r, on)
    case Pc => ProcessPc(r, on)
    case Mar => ProcessMar(r, on)
    case Sp => r.(sp := ProcessCounter(on, Sp, r.sp))
    case Sc => r.(sc := ProcessCounter(on, Sc, r.sc))
    case _ => r
  }

  predicate Computes(c: Component) {
    c.Alu? || c.Pc? || c.Mar? || c.Sp? || c.Sc?
  }

  function ProcessOne(r: Registers, on: set<Control>, irqLine: bool, c: Component): Registers {
    if Computes(c) then ProcessComputed(r, on, c) else ProcessSimple(r, on, irqLine, c)
  }

  /** The components that only store, reset or latch. */
  function ProcessSimple(r: Registers, on: set<Control>, irqLine: bool, c: Component): Registers {
    match c
    case A => if On(on, A, Reset) then r.(a := 0) else r
    case X => if On(on, X, Reset) then r.(x := 0) else r
    case Y => if On(on, Y, Reset) then r.(y := 0) else r
    case Tmp => if On(on, Tmp, Reset) then r.(tmp := 0) else r
    case AluLhs => if On(on, AluLhs, Reset) then r.(lhs := 0) else r
    case AluRhs => if On(on, AluRhs, Reset) then r.(rhs := 0) else r
    case AluResult => if On(on, AluResult, Reset) then r.(result := 0) else r
    case PcLow => if On(on, PcLow, Reset) then r.(pc := MakeWord(High(r.pc), 0)) else r
    case PcHigh => if On(on, PcHigh, Reset) then r.(pc := MakeWord(0, Low(r.pc))) else r
    case PcOffset => if On(on, PcOffset, Reset) then r.(pcOffset := 0) else r
    case Status => if On(on, Status, Reset) then r.(status := 0) else r
    case Flag(bit) => ProcessFlag(r, on, bit)
    case Analyzer => if On(on, Analyzer, Reset) then r.(analyzer := 0) else r
    case Controller => if On(on, Controller, InstructionStart) then r.(ipc := r.pc) else r
    case Ir => ProcessIr(r, on, irqLine)
    case Ipc => if On(on, Ipc, Latch) then r.(ipc := r.pc) else r
    case MarLow => if On(on, MarLow, Reset) then r.(mar := MakeWord(High(r.mar), 0)) else r
    case MarHigh => if On(on, MarHigh, Reset) then r.(mar := MakeWord(0, Low(r.mar))) else r
    case MarOffset => if On(on, MarOffset, Reset) then r.(marOffset := 0) else r
    case _ => r
  }

  // ---------------------------------------------------------------- phases over the children

  function TickWrite(r: Registers, on: set<Control>, phase: Phase, b: Buses, children: seq<Component>): Result<Buses, SimError>
    decreases |children|
  {
    if children == [] then Ok(b)
    else
      match TickWriteOne(r, on, phase, b, children[0])
      case Ok(b1) => TickWrite(r, on, phase, b1, children[1..])
      case Err(e) => Err(e)
  }

  function TickRead(r: Registers, on: set<Control>, phase: Phase, b: Buses, children: seq<Component>): Result<Registers, SimError>
    decreases |children|
  {
    if children == [] then Ok(r)
    else
      match TickReadOne(r, on, phase, b, children[0])
      case Ok(r1) => TickRead(r1, on, phase, b, children[1..])
      case Err(e) => Err(e)
  }

  function TickProcess(r: Registers, on: set<Control>, irqLine: bool, children: seq<Component>): Registers
    decreases |children|
  {
    if children == [] then r else TickProcess(ProcessOne(r, on, irqLine, children[0]), on, irqLine, children[1..])
  }

  /** Assert the controls; the interrupt line latches, and an input device then drives it. */
  function AssertControls(m: Machine, controls: set<Control>, irq: Option<bool>): Machine {
    m.(phase := ControlPhase,
       asserted := m.asserted + controls,
       irqLine := if irq.Some? then irq.value else m.irqLine || ControlInfo(IrqLine, Raise) in controls)
  }

  /** After the children, the CPU looks at its own controls. */
  function FinishProcess(m: Machine, on: set<Control>): Machine {
    m.(halted := m.halted || On(on, Halt, Raise) || On(on, Crash, Raise),
       crashed := m.crashed || On(on, Crash, Raise),
       ipcValid := m.ipcValid || On(on, Controller, InstructionStart))
  }

  function ClearTick(m: Machine): Machine {
    m.(buses := EMPTY_BUSES, asserted := {}, phase := NoPhase, cycles := m.cycles + 1)
  }

  function RunWrite(children: seq<Component>, m: Machine): Result<Machine, SimError> {
    match TickWrite(m.regs, OfPhase(m.asserted, WritePhase), WritePhase, m.buses, children)
    case Ok(b) => Ok(m.(phase := WritePhase, buses := b))
    case Err(e) => Err(e)
  }

  function RunRead(children: seq<Component>, m: Machine): Result<Machine, SimError> {
    match TickRead(m.regs, OfPhase(m.asserted, ReadPhase), ReadPhase, m.buses, children)
    case Ok(r) => Ok(m.(phase := ReadPhase, regs := r))
    case Err(e) => Err(e)
  }

  function RunProcess(children: seq<Component>, m: Machine): Machine {
    var on := OfPhase(m.asserted, ProcessPhase);
    FinishProcess(m.(phase := ProcessPhase, regs := TickProcess(m.regs, on, m.irqLine, children)), on)
  }

  /** The phases after the controls have been asserted, over the registered children. */
  function RunPhases(children: seq<Component>, m: Machine): Result<Machine, SimError> {
    match RunWrite(children, m)
    case Err(e) => Err(e)
    case Ok(m1) =>
      match RunRead(children, m1)
      case Err(e) => Err(e)
      case Ok(m2) => Ok(ClearTick(RunProcess(children, m2)))
  }

  /** One tick in which the given controls are asserted; a halted machine does not move. */
  function Tick(children: seq<Component>, m: Machine, controls: set<Control>, irq: Option<bool>): Result<Machine, SimError> {
    if m.halted then Ok(m) else RunPhases(children, AssertControls(m, controls, irq))
  }

  /** Between ticks no control is asserted, no phase is running and both buses are empty. */
  predicate Idle(m: Machine) {
    m.asserted == {} && m.phase == NoPhase && m.buses == EMPTY_BUSES
  }

  // ---------------------------------------------------------------- the list of children

  /** Components that do something in the process phase or on a bus. */
  predicate HasTick(c: Component) {
    PortOf(c) != NoBus || c.Alu? || c.Controller? || c.Sc? || c.Ipc? || (c.Flag? && c.bit < 8)
  }

  /** Every component with tick behaviour is registered, and none twice. */
  ghost predicate ChildrenOk(children: seq<Component>) {
    && (forall i, j | 0 <= i < j < |children| :: children[i] != children[j])
    && (forall c | HasTick(c) :: c in children)
  }

  function Position(c: Component): int {
    match c
    case A => 0 case X => 1 case Y => 2 case Sp => 3 case Tmp => 4
    case Alu => 5 case AluLhs => 6 case AluRhs => 7 case AluResult => 8
    case Pc => 9 case PcLow => 10 case PcHigh => 11 case PcOffset => 12
    case Status => 13 case Flag(bit) => 21 - bit case Analyzer => 22
    case Controller => 23 case Ir => 24 case Sc => 25 case Ipc => 26
    case Memory => 27 case Mar => 28 case MarLow => 29 case MarHigh => 30 case MarOffset => 31
    case _ => -1
  }

  lemma RegistrationOk()
    ensures ChildrenOk(RegistrationOrder())
  {
    var children := RegistrationOrder();
    PositionsRight(children);
    forall c | HasTick(c) ensures c in children {
      EveryoneHasPosition(children, c);
    }
  }

  lemma PositionsRight(children: seq<Component>)
    requires children == RegistrationOrder()
    ensures forall i | 0 <= i < |children| :: Position(children[i]) == i
  {
  }

  lemma EveryoneHasPosition(children: seq<Component>, c: Component)
    requires children == RegistrationOrder() && HasTick(c)
    ensures 0 <= Position(c) < |children| && children[Position(c)] == c
  {
  }
}
