/** The assembler, the disassembler and the program counter agree on where a branch goes. */
module Branches {
  import opened Bits
  import opened Wrappers
  import opened Hdl
  import opened Ast
  import Assembler
  import Disassembler
  import opened Ir
  import opened Simulator
  import opened BusSafety
  import opened StepRuns
  import opened Deduplication
  import opened Execution
  import opened Datapath

  /** The assembler accepts exactly the targets within -128..127 of the next instruction. */
  lemma AcceptedTargets(operand: Operand, symbols: map<string, word>, constants: map<string, nat>, address: word)
    ensures var target := Assembler.Resolve(operand, symbols, constants);
            Assembler.ResolveRelative(operand, symbols, constants, address).Some?
            <==> target.Some? && target.value <= 0xFFFF && -128 <= target.value - (address + 2) <= 127
  {
  }

  /** The byte emitted for an accepted target brings the disassembler back to the target. */
  lemma DisassemblerReturns(target: word, address: word)
    requires Assembler.BranchByte(target, address).Some?
    ensures Disassembler.BranchTarget(address, Assembler.BranchByte(target, address).value) == target
  {
    var offset := target - (address + 2);
    if offset < 0 { assert offset % 0x100 == offset + 0x100; }
  }

  /** So does the program counter when it adds the byte as a signed offset: standing behind the branch, or on
      the operand byte and stepping over it in the same tick, as the machine does. */
  lemma ProgramCounterArrives(r: Registers, target: word, address: word, on: set<Control>)
    requires Assembler.BranchByte(target, address) == Some(r.pcOffset)
    requires r.pc == (address + if On(on, Pc, Increment) then 1 else 2) % 0x1_0000
    requires On(on, Pc, AddSignedOffset) && !On(on, Pc, Reset)
    ensures ProcessPc(r, on).pc == target
  {
    DisassemblerReturns(target, address);
    WrappedAdd(address + 1, 1);
    WrappedAdd(address + 2, SignedByte(r.pcOffset));
  }

  /** Without the offset it goes on behind the operand byte. */
  lemma ProgramCounterSkips(r: Registers, address: word, on: set<Control>)
    requires r.pc == (address + 1) % 0x1_0000
    requires On(on, Pc, Increment) && !On(on, Pc, AddSignedOffset) && !On(on, Pc, Reset)
    ensures ProcessPc(r, on).pc == (address + 2) % 0x1_0000
  {
    WrappedAdd(address + 1, 1);
  }

  /** A byte at an address reassembles to itself exactly when its target does not wrap around memory. */
  lemma ReturnsUnlessWrapped(address: word, offset: byte)
    ensures Assembler.BranchByte(Disassembler.BranchTarget(address, offset), address) == Some(offset)
            <==> 0 <= address + 2 + SignedByte(offset) <= 0xFFFF
    ensures Assembler.BranchByte(Disassembler.BranchTarget(address, offset), address).Some?
            <==> 0 <= address + 2 + SignedByte(offset) <= 0xFFFF
  {
    var reach := address + 2 + SignedByte(offset);
    if reach < 0 {
      assert reach % 0x1_0000 == reach + 0x1_0000;
    } else if reach > 0xFFFF {
      assert reach % 0x1_0000 == reach - 0x1_0000;
    }
  }

  /** The address register's byte-wise offset addition is 16-bit addition: the carry reaches the high byte. */
  lemma OffsetAddIsWordAdd(w: word, offset: byte)
    ensures AddWithCarry(w, offset) == (w + offset) % 0x1_0000
  {
    var low, high := w % 0x100, w / 0x100;
    var sum := low + offset;
    var carry := if sum > 0xFF then 1 else 0;
    assert sum % 0x100 == sum - 0x100 * carry;
    assert w + offset == 0x100 * (high + carry) + (sum - 0x100 * carry);
    if high + carry == 0x100 {
      assert (high + carry) % 0x100 == 0;
    }
  }

  // ---------------------------------------------------------------- a branch on the machine

  /** The body of a taken branch in the shipped microcode: fetch the operand byte, step over it and add it. */
  function TakenBranch(): seq<Step> {
    [Step(0, [ControlInfo(Pc, Write), ControlInfo(Mar, Read)]),
     Step(0, [ControlInfo(Memory, Write), ControlInfo(Pc, Increment), ControlInfo(PcOffset, Read),
              ControlInfo(Pc, AddSignedOffset)])]
  }

  /** The body of a branch not taken: step over the operand byte. */
  function SkippedBranch(): seq<Step> {
    [Step(0, [ControlInfo(Pc, Write), ControlInfo(Mar, Read)]),
     Step(0, [ControlInfo(Memory, Write), ControlInfo(Pc, Increment)])]
  }

  lemma OthersRest(r: Registers, on: set<Control>, irqLine: bool, d: Component)
    requires (forall c | c in on :: c.component.Pc?) && !d.Pc?
    ensures ProcessOne(r, on, irqLine, d) == r
  {
    assert AluOpcode(on) == 0;
  }

  lemma {:induction false} OnlyPcProcesses(r: Registers, on: set<Control>, irqLine: bool, children: seq<Component>)
    requires (forall c | c in on :: c.component.Pc?) && Apart(children)
    ensures TickProcess(r, on, irqLine, children) == if Pc in children then ProcessPc(r, on) else r
    decreases |children|
  {
    if children != [] {
      RestApart(children);
      if !children[0].Pc? { OthersRest(r, on, irqLine, children[0]); }
      OnlyPcProcesses(ProcessOne(r, on, irqLine, children[0]), on, irqLine, children[1..]);
    }
  }

  /** A step that moves a value from one component to another and otherwise only tells the program counter. */
  ghost predicate MovesAndCounts(s: set<Control>, writer: Component, reader: Component) {
    && ControlInfo(writer, Write) in s && ControlInfo(reader, Read) in s
    && PortOf(writer) == PortOf(reader) != NoBus
    && forall c | c in s :: c == ControlInfo(writer, Write) || c == ControlInfo(reader, Read)
                            || (c.component.Pc? && c.Phase() == ProcessPhase)
  }

  function Moved(r: Registers, writer: Component, reader: Component): Result<Registers, SimError> {
    if PortOf(writer) == DataBus then StoreData(r, reader, DataValue(r, writer))
    else Ok(StoreAddress(r, reader, AddressValue(r, writer)))
  }

  lemma MoveTransfers(children: seq<Component>, m: Machine, s: set<Control>, writer: Component, reader: Component)
    requires ChildrenOk(children) && Idle(m) && MovesAndCounts(s, writer, reader)
    ensures Transfers(children, m, s) == Moved(m.regs, writer, reader)
  {
    var write, read := OfPhase(s, WritePhase), OfPhase(s, ReadPhase);
    assert HasTick(writer) && HasTick(reader);
    assert On(write, writer, Write) && On(read, reader, Read);
    SoleWriter(m.regs, write, m.buses, children, writer);
    var w := TickWrite(m.regs, write, WritePhase, m.buses, children);
    SoleReader(m.regs, read, w.value, children, reader);
  }

  ghost predicate OnlyPcCounts(s: set<Control>) {
    forall c | c in s :: c.Phase() == ProcessPhase ==> c.component.Pc?
  }

  /** A tick whose process phase concerns the program counter only. */
  lemma PcTick(children: seq<Component>, m: Machine, s: set<Control>, r: Registers, on: set<Control>, x: Registers)
    requires Idle(m) && !m.halted && OnlyPcCounts(s) && Transfers(children, m, s) == Ok(r)
    requires on == OfPhase(s, ProcessPhase) && x == TickProcess(r, on, m.irqLine, children)
    ensures Tick(children, m, s, None) == Ok(m.(regs := x, cycles := m.cycles + 1))
  {
    var m0 := AssertControls(m, s, None);
    var raise: Control := ControlInfo(IrqLine, Raise);
    assert raise.Phase() == ProcessPhase && raise !in s;
    assert m0 == m.(phase := ControlPhase, asserted := s);
    TickShape(children, m, s);
    PcProcess(children, m0.(regs := r), s, on, x);
    ClearedAgain(m, s, x);
  }

  lemma PcProcess(children: seq<Component>, m: Machine, s: set<Control>, on: set<Control>, x: Registers)
    requires m.asserted == s && OnlyPcCounts(s) && on == OfPhase(s, ProcessPhase)
    requires x == TickProcess(m.regs, on, m.irqLine, children)
    ensures RunProcess(children, m) == m.(phase := ProcessPhase, regs := x)
  {
    PcFinish(m, on, x);
  }

  lemma ClearedAgain(m: Machine, s: set<Control>, x: Registers)
    requires Idle(m)
    ensures ClearTick(m.(phase := ProcessPhase, asserted := s, regs := x)) == m.(regs := x, cycles := m.cycles + 1)
  {
  }

  /** The program counter after the process phase. */
  lemma PcProcessed(children: seq<Component>, r: Registers, on: set<Control>, irqLine: bool) returns (x: Registers)
    requires ChildrenOk(children) && (forall c | c in on :: c.component.Pc?) && !On(on, Pc, Reset)
    ensures x == TickProcess(r, on, irqLine, children) && x == ProcessPc(r, on)
  {
    assert HasTick(Pc);
    OnlyPcProcesses(r, on, irqLine, children);
    x := ProcessPc(r, on);
  }

  lemma PcFinish(m: Machine, on: set<Control>, r: Registers)
    requires forall c | c in on :: c.component.Pc?
    ensures FinishProcess(m.(phase := ProcessPhase, regs := r), on) == m.(phase := ProcessPhase, regs := r)
  {
  }

  /** After the first step the address register holds the address of the operand byte. */
  lemma AddressStep(children: seq<Component>, m: Machine, step: Step)
    requires ChildrenOk(children) && Idle(m) && !m.halted && step == TakenBranch()[0]
    ensures Tick(children, m, AsSet(step.controls), None) == Ok(m.(regs := m.regs.(mar := m.regs.pc), cycles := m.cycles + 1))
  {
    var s := AsSet(step.controls);
    var r := m.regs.(mar := m.regs.pc);
    assert ControlInfo(Pc, Write) == step.controls[0] && ControlInfo(Mar, Read) == step.controls[1];
    MoveTransfers(children, m, s, Pc, Mar);
    ProcessNothing(r, m.irqLine, children);
    PcTick(children, m, s, r, {}, r);
  }

  lemma OperandTransfers(children: seq<Component>, m: Machine, s: set<Control>, on: set<Control>, step: Step)
    requires ChildrenOk(children) && Idle(m) && step == TakenBranch()[1] && s == AsSet(step.controls)
    requires on == OfPhase(s, ProcessPhase)
    ensures Transfers(children, m, s) == Ok(m.regs.(pcOffset := ReadMemory(m.regs, m.regs.mar)))
    ensures On(on, Pc, Increment) && On(on, Pc, AddSignedOffset) && !On(on, Pc, Reset) && OnlyPcCounts(s)
  {
    assert step.controls[0] == ControlInfo(Memory, Write) && step.controls[1] == ControlInfo(Pc, Increment);
    assert step.controls[2] == ControlInfo(PcOffset, Read) && step.controls[3] == ControlInfo(Pc, AddSignedOffset);
    MoveTransfers(children, m, s, Memory, PcOffset);
  }

  lemma OperandStep(children: seq<Component>, m: Machine, step: Step, target: word, address: word) returns (x: Registers)
    requires ChildrenOk(children) && Idle(m) && !m.halted && step == TakenBranch()[1]
    requires m.regs.pc == m.regs.mar == (address + 1) % 0x1_0000
    requires Assembler.BranchByte(target, address) == Some(ReadMemory(m.regs, m.regs.mar))
    ensures Tick(children, m, AsSet(step.controls), None) == Ok(m.(regs := x, cycles := m.cycles + 1)) && x.pc == target
  {
    var s := AsSet(step.controls);
    var on, r := OfPhase(s, ProcessPhase), m.regs.(pcOffset := ReadMemory(m.regs, m.regs.mar));
    OperandTransfers(children, m, s, on, step);
    x := PcProcessed(children, r, on, m.irqLine);
    PcTick(children, m, s, r, on, x);
    ProgramCounterArrives(r, target, address, on);
  }

  /** A taken branch on the machine: with the assembler's byte at the operand address, the two steps of the
      branch, also as the compiler completes them with counter controls, leave the program counter at the
      target. */
  lemma TakenBranchArrives(children: seq<Component>, m: Machine, steps: seq<Step>, target: word, address: word)
    requires ChildrenOk(children) && Idle(m) && !m.halted && StepsAgreeAside(steps, TakenBranch())
    requires m.regs.pc == (address + 1) % 0x1_0000
    requires Assembler.BranchByte(target, address) == Some(ReadMemory(m.regs, m.regs.pc))
    ensures Run(children, m, steps).Ok? && Run(children, m, steps).value.regs.pc == target
  {
    var raw := TakenBranch();
    var m1 := m.(regs := m.regs.(mar := m.regs.pc), cycles := m.cycles + 1);
    AddressStep(children, m, raw[0]);
    var x := OperandStep(children, m1, raw[1], target, address);
    EndsWith(children, m, steps, raw, m1, x);
  }

  /** Two steps, the second of which leaves the registers `x`. */
  lemma EndsWith(children: seq<Component>, m: Machine, steps: seq<Step>, raw: seq<Step>, m1: Machine, x: Registers)
    requires Idle(m) && StepsAgreeAside(steps, raw) && |raw| == 2
    requires Tick(children, m, AsSet(raw[0].controls), None) == Ok(m1)
    requires Tick(children, m1, AsSet(raw[1].controls), None) == Ok(m1.(regs := x, cycles := m1.cycles + 1))
    ensures Run(children, m, steps).Ok? && Run(children, m, steps).value.regs.pc == x.pc
  {
    assert raw == [raw[0]] + [raw[1]] && [raw[0]] == [] + [raw[0]];
    RunSnoc(children, m, [raw[0]], raw[1]);
    RunSnoc(children, m, [], raw[0]);
    RunsAside(children, m, steps, raw);
  }

  lemma SkipTransfers(children: seq<Component>, m: Machine, s: set<Control>, on: set<Control>, step: Step)
    requires ChildrenOk(children) && Idle(m) && step == SkippedBranch()[1] && s == AsSet(step.controls)
    requires on == OfPhase(s, ProcessPhase)
    ensures Transfers(children, m, s) == Ok(m.regs)
    ensures On(on, Pc, Increment) && !On(on, Pc, AddSignedOffset) && !On(on, Pc, Reset) && OnlyPcCounts(s)
  {
    assert step.controls[0] == ControlInfo(Memory, Write) && step.controls[1] == ControlInfo(Pc, Increment);
    SoleWriter(m.regs, OfPhase(s, WritePhase), m.buses, children, Memory);
    var w := TickWrite(m.regs, OfPhase(s, WritePhase), WritePhase, m.buses, children);
    assert OfPhase(s, ReadPhase) == {};
    ReadNothing(m.regs, ReadPhase, w.value, children);
  }

  lemma SkipStep(children: seq<Component>, m: Machine, step: Step, address: word) returns (x: Registers)
    requires ChildrenOk(children) && Idle(m) && !m.halted && step == SkippedBranch()[1]
    requires m.regs.pc == (address + 1) % 0x1_0000
    ensures Tick(children, m, AsSet(step.controls), None) == Ok(m.(regs := x, cycles := m.cycles + 1))
    ensures x.pc == (address + 2) % 0x1_0000
  {
    var s := AsSet(step.controls);
    var on := OfPhase(s, ProcessPhase);
    SkipTransfers(children, m, s, on, step);
    x := PcProcessed(children, m.regs, on, m.irqLine);
    PcTick(children, m, s, m.regs, on, x);
    ProgramCounterSkips(m.regs, address, on);
  }

  /** A branch not taken goes on behind its operand. */
  lemma SkippedBranchPasses(children: seq<Component>, m: Machine, steps: seq<Step>, address: word)
    requires ChildrenOk(children) && Idle(m) && !m.halted && StepsAgreeAside(steps, SkippedBranch())
    requires m.regs.pc == (address + 1) % 0x1_0000
    ensures Run(children, m, steps).Ok? && Run(children, m, steps).value.regs.pc == (address + 2) % 0x1_0000
  {
    var raw := SkippedBranch();
    var m1 := m.(regs := m.regs.(mar := m.regs.pc), cycles := m.cycles + 1);
    AddressStep(children, m, raw[0]);
    var x := SkipStep(children, m1, raw[1], address);
    EndsWith(children, m, steps, raw, m1, x);
  }
}
