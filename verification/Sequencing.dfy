/** The controller running compiled microcode: the sequence counter stays in step with the compiled lists. */
module Sequencing {
  import opened Wrappers
  import opened Bits
  import opened Hdl
  import opened Ir
  import opened Transformers
  import opened Validators
  import opened StatusEncoder
  import opened StatusValidator
  import opened Optimizers
  import opened Encoders
  import opened Compiler
  import opened Pipeline
  import opened InstructionMemory
  import opened Simulator
  import opened BusSafety

  // ---------------------------------------------------------------- one tick of the controller

  /** The opcode the controller sees: the interrupt opcode while an interrupt is injected. */
  function IrValue(r: Registers): byte {
    if r.inject then 0x00 else r.ir
  }

  /** The status byte as the controller encodes it: the configured flags, each at its own bit. */
  function EncodeStatus(bits: StatusBits, status: byte): nat {
    if bits == [] then 0
    else
      var n := |bits| - 1;
      var rest := EncodeStatus(bits[..n], status);
      if Bit(status, bits[n].bit) then Or(rest, Pow2(bits[n].bit)) else rest
  }

  lemma {:induction false} BitOfEncodedStatus(bits: StatusBits, status: byte, p: nat)
    ensures Bit(EncodeStatus(bits, status), p) <==> AtDefinedBit(bits, p) && Bit(status, p)
  {
    if bits == [] {
      ZeroHasNoBits(p);
    } else {
      var n := |bits| - 1;
      var before: StatusBits := bits[..n];
      BitOfEncodedStatus(before, status, p);
      if AtDefinedBit(before, p) {
        var i :| 0 <= i < |before| && before[i].bit == p;
        assert bits[i].bit == p;
      }
      BitOfOr(EncodeStatus(before, status), Pow2(bits[n].bit), p);
      BitOfPow2(bits[n].bit, p);
    }
  }

  /** The key the controller looks up: a byte whose bits are the configured flags. */
  function StatusKey(bits: StatusBits, status: byte): (key: byte)
    ensures Confined(bits, key)
    ensures forall p: nat :: Bit(key, p) <==> AtDefinedBit(bits, p) && Bit(status, p)
  {
    var key := EncodeStatus(bits, status);
    assert forall p: nat :: Bit(key, p) <==> AtDefinedBit(bits, p) && Bit(status, p) by {
      forall p: nat ensures Bit(key, p) <==> AtDefinedBit(bits, p) && Bit(status, p) { BitOfEncodedStatus(bits, status, p); }
    }
    assert key < 0x100 by {
      FitsWhenHighBitsClear(key, 8);
      Pow2Of8();
    }
    key
  }

  function KeyNow(cfg: Config, r: Registers): MicrocodeKey {
    MicrocodeKey(IrValue(r), r.sc, StatusKey(cfg.bits, r.status))
  }

  /** One tick with the controls that the instruction memory holds for the current key. */
  function CpuTick(cfg: Config, children: seq<Component>, rom: seq<nat>, m: Machine, irq: Option<bool>): Result<Machine, SimError> {
    if m.halted then Ok(m)
    else
      match Lookup(cfg.table, rom, KeyNow(cfg, m.regs))
      case Ok(controls) => Tick(children, m, AsSet(controls), irq)
      case Err(OutOfBounds) => Err(MicrocodeOutOfBounds)
      case Err(BitsOutsideTable) => Err(MicrocodeBitsOutsideTable)
  }

  // ---------------------------------------------------------------- hypotheses on the microcode

  /** Controls that change the opcode the controller sees. */
  predicate TouchesOpcode(c: Control) {
    || (c.component.Ir? && (c.operation.Read? || c.operation.Reset?))
    || (c.component.Controller? && c.operation.InstructionStart?)
  }

  predicate TouchesCounter(c: Control) {
    c.component.Sc?
  }

  /** Controls that change the flags. */
  predicate TouchesStatus(c: Control) {
    || (c.component.Status? && (c.operation.Read? || c.operation.Reset?))
    || (c.component.Flag? && (c.operation.Set? || c.operation.Clear?))
    || (c.component.Analyzer? && c.operation.Read?)
    || (c.component.Alu? && c.operation.OpcodeBit?)
  }

  predicate NoneOf(controls: seq<Control>, p: Control -> bool) {
    forall c | c in controls :: !p(c)
  }

  /** What the microcode must observe for the counter to stay in step. */
  ghost predicate WellBehaved(s: InstructionSet) {
    && (forall k | 0 <= k < |s.preamble| :: NoneOf(s.preamble[k].controls, TouchesCounter))
    && (forall i: nat, j: nat | VariantIndex(s, i, j) :: BodyBehaves(s.instructions[i].variants[j]))
  }

  /** A body exists, leaves the counter to the compiler and the opcode to the preamble, and, when it was
      chosen by a flag, leaves the flags alone before its last step. */
  ghost predicate BodyBehaves(v: Variant) {
    && v.steps != []
    && (forall k | 0 <= k < |v.steps| ::
          NoneOf(v.steps[k].controls, TouchesCounter) && NoneOf(v.steps[k].controls, TouchesOpcode))
    && (v.conditions != map[] ==> forall k | 0 <= k < |v.steps| - 1 :: NoneOf(v.steps[k].controls, TouchesStatus))
  }

  /** A compiled set and its instruction memory. */
  ghost predicate Loaded(cfg: Config, s: InstructionSet, rom: seq<nat>) {
    && CounterControls(cfg) && TableOk(cfg.table) && Distinct(cfg.bits) && cfg.bits != []
    && Accepted(cfg, s) && WellBehaved(s)
    && exists table :: TableOf(cfg, Compiled(cfg, s), table) && Burned(table, rom)
  }

  // ---------------------------------------------------------------- shape of compiled steps

  /** The controls a compiled step may assert beyond its raw step: the counter's increment. */
  predicate FromRaw(controls: seq<Control>, raw: seq<Control>) {
    forall c | c in controls :: c in raw || c == ControlInfo(Sc, Increment)
  }

  predicate Increments(controls: seq<Control>) {
    ControlInfo(Sc, Increment) in controls && forall c | c in controls && c.component.Sc? :: c.operation.Increment?
  }

  lemma CompiledPreambleStep(cfg: Config, s: InstructionSet, k: nat)
    requires CounterControls(cfg) && WellBehaved(s) && k < |FetchSteps(cfg, s)|
    ensures Increments(FetchSteps(cfg, s)[k].controls)
  {
    var steps := Incremented(cfg.increment, s.preamble);
    DeduplicatedEnds(steps);
    assert FetchSteps(cfg, s)[k] in steps;
    var t :| 0 <= t < |steps| && steps[t] == FetchSteps(cfg, s)[k];
    assert NoneOf(s.preamble[t].controls, TouchesCounter);
  }

  /** A compiled body step that is not the last comes from a raw step that is not the last. */
  lemma CompiledBodyStep(cfg: Config, s: InstructionSet, i: nat, j: nat, k: nat) returns (t: nat)
    requires CounterControls(cfg) && WellBehaved(s) && VariantIndex(s, i, j)
    requires k + 1 < |BodySteps(cfg, s, StepsOf(s, i, j))|
    ensures t + 1 < |StepsOf(s, i, j)|
    ensures FromRaw(BodySteps(cfg, s, StepsOf(s, i, j))[k].controls, StepsOf(s, i, j)[t].controls)
    ensures Increments(BodySteps(cfg, s, StepsOf(s, i, j))[k].controls)
  {
    var body := StepsOf(s, i, j);
    var steps := Sequenced(cfg.increment, cfg.reset, RaisedBody(s, body));
    KeptBeforeLast(steps, k);
    t :| t + 1 < |steps| && steps[t] == BodySteps(cfg, s, body)[k];
    assert BodyBehaves(s.instructions[i].variants[j]);
    assert NoneOf(body[t].controls, TouchesCounter);
  }

  // ---------------------------------------------------------------- what a tick does to counter, opcode and flags

  lemma {:induction false} ReadKeepsController(r: Registers, on: set<Control>, b: Buses, children: seq<Component>)
    requires TickRead(r, on, ReadPhase, b, children).Ok?
    ensures var x := TickRead(r, on, ReadPhase, b, children).value;
            && x.sc == r.sc && x.inject == r.inject
            && (ControlInfo(Ir, Read) !in on ==> x.ir == r.ir)
            && (ControlInfo(Status, Read) !in on && ControlInfo(Analyzer, Read) !in on ==> x.status == r.status)
    decreases |children|
  {
    if children != [] {
      ReadKeepsController(TickReadOne(r, on, ReadPhase, b, children[0]).value, on, b, children[1..]);
    }
  }

  ghost predicate NoOpcodeTouch(on: set<Control>) {
    forall c | c in on :: !TouchesOpcode(c)
  }

  ghost predicate NoStatusTouch(on: set<Control>) {
    forall c | c in on :: !TouchesStatus(c)
  }

  lemma ComputedKeepsController(r: Registers, on: set<Control>, c: Component)
    ensures ProcessComputed(r, on, c).ir == r.ir && ProcessComputed(r, on, c).inject == r.inject
    ensures ProcessComputed(r, on, c).sc == if c.Sc? then ProcessCounter(on, Sc, r.sc) else r.sc
    ensures NoStatusTouch(on) ==> ProcessComputed(r, on, c).status == r.status
  {
    if NoStatusTouch(on) && c.Alu? {
      forall k: nat ensures ControlInfo(Component.Alu, OpcodeBit(k)) !in on {
        assert TouchesStatus(ControlInfo(Component.Alu, OpcodeBit(k)));
      }
      assert AluOpcode(on) == 0;
    }
  }

  lemma SimpleKeepsController(r: Registers, on: set<Control>, irqLine: bool, c: Component)
    ensures ProcessSimple(r, on, irqLine, c).sc == r.sc
    ensures NoOpcodeTouch(on) ==> ProcessSimple(r, on, irqLine, c).ir == r.ir && ProcessSimple(r, on, irqLine, c).inject == r.inject
    ensures NoStatusTouch(on) ==> ProcessSimple(r, on, irqLine, c).status == r.status
  {
    var reset: Control, start: Control := ControlInfo(c, Reset), ControlInfo(Controller, InstructionStart);
    assert start in on ==> TouchesOpcode(start);
    var setFlag: Control, clear: Control := ControlInfo(c, Set), ControlInfo(c, Clear);
    assert c.Flag? ==> TouchesStatus(setFlag) && TouchesStatus(clear);
  }

  lemma {:induction false} ProcessKeepsOpcode(r: Registers, on: set<Control>, irqLine: bool, children: seq<Component>)
    ensures var x := TickProcess(r, on, irqLine, children);
            && (NoOpcodeTouch(on) ==> x.ir == r.ir && x.inject == r.inject)
            && (NoStatusTouch(on) ==> x.status == r.status)
            && (Sc !in children ==> x.sc == r.sc)
    decreases |children|
  {
    if children != [] {
      var c := children[0];
      ComputedKeepsController(r, on, c);
      SimpleKeepsController(r, on, irqLine, c);
      ProcessKeepsOpcode(ProcessOne(r, on, irqLine, c), on, irqLine, children[1..]);
    }
  }

  lemma {:induction false} ProcessCounts(r: Registers, on: set<Control>, irqLine: bool, children: seq<Component>, k: nat)
    requires k < |children| && children[k] == Sc
    requires forall i, j | 0 <= i < j < |children| :: children[i] != children[j]
    ensures TickProcess(r, on, irqLine, children).sc == ProcessCounter(on, Sc, r.sc)
    decreases |children|
  {
    var c, rest := children[0], children[1..];
    ComputedKeepsController(r, on, c);
    SimpleKeepsController(r, on, irqLine, c);
    if k == 0 {
      assert Sc !in rest;
      ProcessKeepsOpcode(ProcessOne(r, on, irqLine, c), on, irqLine, rest);
    } else {
      assert c != Sc;
      forall i, j | 0 <= i < j < |rest| ensures rest[i] != rest[j] {
        assert rest[i] == children[i + 1] && rest[j] == children[j + 1];
      }
      ProcessCounts(ProcessOne(r, on, irqLine, c), on, irqLine, rest, k - 1);
    }
  }

  lemma TouchesByPhase(s: set<Control>)
    ensures NoOpcodeTouch(s) ==> NoOpcodeTouch(OfPhase(s, ProcessPhase)) && ControlInfo(Ir, Read) !in OfPhase(s, ReadPhase)
    ensures NoStatusTouch(s) ==>
              && NoStatusTouch(OfPhase(s, ProcessPhase))
              && ControlInfo(Status, Read) !in OfPhase(s, ReadPhase) && ControlInfo(Analyzer, Read) !in OfPhase(s, ReadPhase)
  {
    assert TouchesOpcode(ControlInfo(Ir, Read)) && TouchesStatus(ControlInfo(Status, Read)) && TouchesStatus(ControlInfo(Analyzer, Read));
  }

  /** Counter, opcode and flags after the read and process phases. */
  lemma PhasesOnController(r: Registers, s: set<Control>, b: Buses, irqLine: bool, children: seq<Component>)
    requires ChildrenOk(children) && TickRead(r, OfPhase(s, ReadPhase), ReadPhase, b, children).Ok?
    ensures var r1 := TickRead(r, OfPhase(s, ReadPhase), ReadPhase, b, children).value;
            var x := TickProcess(r1, OfPhase(s, ProcessPhase), irqLine, children);
            && x.sc == ProcessCounter(OfPhase(s, ProcessPhase), Sc, r.sc)
            && (NoOpcodeTouch(s) ==> x.ir == r.ir && x.inject == r.inject)
            && (NoStatusTouch(s) ==> x.status == r.status)
  {
    ReadKeepsController(r, OfPhase(s, ReadPhase), b, children);
    var r1 := TickRead(r, OfPhase(s, ReadPhase), ReadPhase, b, children).value;
    assert HasTick(Sc);
    var k :| 0 <= k < |children| && children[k] == Sc;
    ProcessCounts(r1, OfPhase(s, ProcessPhase), irqLine, children, k);
    ProcessKeepsOpcode(r1, OfPhase(s, ProcessPhase), irqLine, children);
    TouchesByPhase(s);
  }

  /** What a tick with these controls leaves in the controller's part of the registers. */
  ghost predicate ControllerEffect(controls: seq<Control>, r: Registers, x: Registers) {
    && (Increments(controls) ==> x.sc == (r.sc + 1) % 0x100)
    && (ControlInfo(Sc, Reset) in controls ==> x.sc == 0)
    && (NoneOf(controls, TouchesOpcode) ==> IrValue(x) == IrValue(r))
    && (NoneOf(controls, TouchesStatus) ==> x.status == r.status)
  }

  lemma CounterControlsSeen(controls: seq<Control>, v: byte)
    ensures Increments(controls) ==> ProcessCounter(OfPhase(AsSet(controls), ProcessPhase), Sc, v) == (v + 1) % 0x100
    ensures ControlInfo(Sc, Reset) in controls ==> ProcessCounter(OfPhase(AsSet(controls), ProcessPhase), Sc, v) == 0
  {
    var inc: Control, rst: Control := ControlInfo(Sc, Increment), ControlInfo(Sc, Reset);
    assert inc in controls <==> inc in OfPhase(AsSet(controls), ProcessPhase);
    assert rst in controls <==> rst in OfPhase(AsSet(controls), ProcessPhase);
  }

  /** The registers after a tick that succeeds are those after its read and process phases. */
  lemma RegistersAfter(children: seq<Component>, m: Machine, s: set<Control>, irq: Option<bool>) returns (b: Buses, irqLine: bool)
    requires Idle(m) && !m.halted && Tick(children, m, s, irq).Ok?
    ensures TickRead(m.regs, OfPhase(s, ReadPhase), ReadPhase, b, children).Ok?
    ensures Tick(children, m, s, irq).value.regs
         == TickProcess(TickRead(m.regs, OfPhase(s, ReadPhase), ReadPhase, b, children).value, OfPhase(s, ProcessPhase), irqLine, children)
  {
    var m0 := AssertControls(m, s, irq);
    assert m0.asserted == s;
    b := TickWrite(m.regs, OfPhase(s, WritePhase), WritePhase, m.buses, children).value;
    irqLine := m0.irqLine;
  }

  /** Counter, opcode and flags after a tick with these controls. */
  lemma TickOnController(children: seq<Component>, m: Machine, controls: seq<Control>, irq: Option<bool>)
    requires ChildrenOk(children) && Idle(m) && !m.halted
    requires Tick(children, m, AsSet(controls), irq).Ok?
    ensures ControllerEffect(controls, m.regs, Tick(children, m, AsSet(controls), irq).value.regs)
  {
    var s := AsSet(controls);
    var b, irqLine := RegistersAfter(children, m, s, irq);
    PhasesOnController(m.regs, s, b, irqLine, children);
    CounterControlsSeen(controls, m.regs.sc);
    assert NoneOf(controls, TouchesOpcode) ==> NoOpcodeTouch(s);
    assert NoneOf(controls, TouchesStatus) ==> NoStatusTouch(s);
  }

  // ---------------------------------------------------------------- a compiled set in its memory

  /** The set has an instruction with variants for the opcode. */
  ghost predicate Known(c: InstructionSet, opcode: byte) {
    exists i: nat | i < |c.instructions| :: c.instructions[i].opcode == opcode && c.instructions[i].variants != []
  }

  /** What step `k` of a variant observes, `p` being the length of the compiled preamble: it increments the
      counter except on the last step, which resets it; past the preamble and before the last step it leaves
      the opcode alone, and the flags if those chose the variant. */
  ghost predicate StepRule(c: InstructionSet, i: nat, j: nat, k: nat, p: nat)
    requires VariantIndex(c, i, j) && k < |StepsOf(c, i, j)|
  {
    var controls, n := StepsOf(c, i, j)[k].controls, |StepsOf(c, i, j)|;
    && BusOk(controls)
    && (k + 1 < n ==> Increments(controls))
    && (k + 1 == n ==> ControlInfo(Sc, Reset) in controls)
    && (p <= k && k + 1 < n ==>
          && NoneOf(controls, TouchesOpcode)
          && (c.instructions[i].variants[j].conditions != map[] ==> NoneOf(controls, TouchesStatus)))
  }

  ghost predicate LookupIs(cfg: Config, rom: seq<nat>, key: MicrocodeKey, controls: seq<Control>) {
    Lookup(cfg.table, rom, key).Ok? && SameControls(Lookup(cfg.table, rom, key).value, controls)
  }

  /** The key selects this variant and no other, and the memory holds all its steps under the key. */
  ghost predicate Answers(cfg: Config, c: InstructionSet, rom: seq<nat>, opcode: byte, status: byte, i: nat, j: nat) {
    && Selects(cfg, c, opcode, status, i, j)
    && (forall m: nat, n: nat | Selects(cfg, c, opcode, status, m, n) :: m == i && n == j)
    && (forall k: byte | k < |StepsOf(c, i, j)| :: LookupIs(cfg, rom, MicrocodeKey(opcode, k, status), StepsOf(c, i, j)[k].controls))
  }

  ghost predicate Answered(cfg: Config, c: InstructionSet, rom: seq<nat>, opcode: byte, status: byte) {
    exists i: nat, j: nat | VariantIndex(c, i, j) :: Answers(cfg, c, rom, opcode, status, i, j)
  }

  /** A disciplined set in its instruction memory. */
  ghost predicate InMemory(cfg: Config, c: InstructionSet, p: nat, rom: seq<nat>) {
    && (forall i: nat, j: nat | VariantIndex(c, i, j) :: p < |StepsOf(c, i, j)| <= 0x100)
    && (forall i: nat, j: nat, k: nat | VariantIndex(c, i, j) && k < |StepsOf(c, i, j)| :: StepRule(c, i, j, k, p))
    && (forall opcode: byte, status: byte | Known(c, opcode) && Confined(cfg.bits, status) ::
          Answered(cfg, c, rom, opcode, status))
  }

  // ---------------------------------------------------------------- compilation gives a disciplined set

  lemma CompiledIndices(cfg: Config, s: InstructionSet)
    ensures |Compiled(cfg, s).instructions| == |s.instructions|
    ensures forall i | 0 <= i < |s.instructions| ::
              && Compiled(cfg, s).instructions[i].opcode == s.instructions[i].opcode
              && |Compiled(cfg, s).instructions[i].variants| == |s.instructions[i].variants|
              && forall j | 0 <= j < |s.instructions[i].variants| ::
                   Compiled(cfg, s).instructions[i].variants[j].conditions == s.instructions[i].variants[j].conditions
  {
  }

  lemma VariantShape(cfg: Config, s: InstructionSet, i: nat, j: nat)
    requires CounterControls(cfg) && Accepted(cfg, s) && WellBehaved(s) && VariantIndex(s, i, j)
    ensures VariantIndex(Compiled(cfg, s), i, j)
    ensures StepsOf(Compiled(cfg, s), i, j) == FetchSteps(cfg, s) + BodySteps(cfg, s, StepsOf(s, i, j))
    ensures BodySteps(cfg, s, StepsOf(s, i, j)) != []
    ensures StepsValid(cfg, StepsOf(Compiled(cfg, s), i, j))
  {
    assert BodyBehaves(s.instructions[i].variants[j]);
    FetchIsUniform(cfg, s, i, j);
    assert InstructionValid(cfg, Compiled(cfg, s).instructions[i]);
  }

  lemma StepDiscipline(cfg: Config, s: InstructionSet, i: nat, j: nat, k: nat)
    requires CounterControls(cfg) && Accepted(cfg, s) && WellBehaved(s) && VariantIndex(s, i, j)
    requires VariantIndex(Compiled(cfg, s), i, j) && k < |StepsOf(Compiled(cfg, s), i, j)|
    ensures StepRule(Compiled(cfg, s), i, j, k, |FetchSteps(cfg, s)|)
  {
    VariantShape(cfg, s, i, j);
    CompiledIndices(cfg, s);
    StepDisciplineOf(cfg, s, i, j, Compiled(cfg, s), k);
  }

  lemma StepDisciplineOf(cfg: Config, s: InstructionSet, i: nat, j: nat, c: InstructionSet, k: nat)
    requires CounterControls(cfg) && WellBehaved(s) && VariantIndex(s, i, j)
    requires VariantIndex(c, i, j) && k < |StepsOf(c, i, j)|
    requires StepsOf(c, i, j) == FetchSteps(cfg, s) + BodySteps(cfg, s, StepsOf(s, i, j)) && BodySteps(cfg, s, StepsOf(s, i, j)) != []
    requires StepsValid(cfg, StepsOf(c, i, j))
    requires c.instructions[i].variants[j].conditions == s.instructions[i].variants[j].conditions
    ensures StepRule(c, i, j, k, |FetchSteps(cfg, s)|)
  {
    var steps := StepsOf(c, i, j);
    var p := |FetchSteps(cfg, s)|;
    assert SequenceControl(cfg.increment, cfg.reset, k, |steps|) in steps[k].controls;
    var body := BodySteps(cfg, s, StepsOf(s, i, j));
    if k < p {
      CompiledPreambleStep(cfg, s, k);
      assert steps[k] == FetchSteps(cfg, s)[k];
    } else if k + 1 < |steps| {
      assert steps[k] == body[k - p];
      var t := CompiledBodyStep(cfg, s, i, j, k - p);
      assert BodyBehaves(s.instructions[i].variants[j]);
      assert NoneOf(StepsOf(s, i, j)[t].controls, TouchesOpcode);
    }
  }

  lemma KnownAnswered(cfg: Config, c: InstructionSet, rom: seq<nat>, table: Table, opcode: byte, status: byte)
    requires TableOk(cfg.table) && Distinct(cfg.bits) && cfg.bits != []
    requires Valid(cfg, c) && TableOf(cfg, c, table) && Burned(table, rom)
    requires Known(c, opcode) && Confined(cfg.bits, status)
    ensures Answered(cfg, c, rom, opcode, status)
  {
    var i: nat :| i < |c.instructions| && c.instructions[i].opcode == opcode && c.instructions[i].variants != [];
    var j := LookupExact(cfg, c, table, rom, i, status);
    forall k: byte | k < |StepsOf(c, i, j)|
      ensures LookupIs(cfg, rom, MicrocodeKey(opcode, k, status), StepsOf(c, i, j)[k].controls)
    {
    }
    assert Answers(cfg, c, rom, opcode, status, i, j);
  }

  /** Whatever the compiler accepts and the loader burns is disciplined. */
  lemma LoadedIsInMemory(cfg: Config, s: InstructionSet, rom: seq<nat>)
    requires Loaded(cfg, s, rom)
    ensures InMemory(cfg, Compiled(cfg, s), |FetchSteps(cfg, s)|, rom)
  {
    var c, p := Compiled(cfg, s), |FetchSteps(cfg, s)|;
    CompiledIndices(cfg, s);
    var table :| TableOf(cfg, c, table) && Burned(table, rom);
    forall i: nat, j: nat | VariantIndex(c, i, j) ensures p < |StepsOf(c, i, j)| <= 0x100 {
      VariantShape(cfg, s, i, j);
      assert Earlier(i, j, |c.instructions|, 0);
      assert Encodable(cfg, c.instructions[i].variants[j]);
    }
    forall i: nat, j: nat, k: nat | VariantIndex(c, i, j) && k < |StepsOf(c, i, j)| ensures StepRule(c, i, j, k, p) {
      StepDiscipline(cfg, s, i, j, k);
    }
    forall opcode: byte, status: byte | Known(c, opcode) && Confined(cfg.bits, status)
      ensures Answered(cfg, c, rom, opcode, status)
    {
      KnownAnswered(cfg, c, rom, table, opcode, status);
    }
  }

  // ---------------------------------------------------------------- the counter stays in step

  /** The variant that the opcode and the flags of the machine select. */
  ghost predicate Selected(cfg: Config, c: InstructionSet, r: Registers, i: nat, j: nat) {
    Selects(cfg, c, IrValue(r), StatusKey(cfg.bits, r.status), i, j)
  }

  /** The counter indexes an existing step of the selected variant. */
  ghost predicate InStep(cfg: Config, c: InstructionSet, r: Registers) {
    exists i: nat, j: nat | VariantIndex(c, i, j) :: Selected(cfg, c, r, i, j) && r.sc < |StepsOf(c, i, j)|
  }

  /** A known opcode selects exactly one variant, whatever the flags. */
  lemma SelectionExists(cfg: Config, c: InstructionSet, p: nat, rom: seq<nat>, r: Registers) returns (i: nat, j: nat)
    requires InMemory(cfg, c, p, rom) && Known(c, IrValue(r))
    ensures VariantIndex(c, i, j) && Answers(cfg, c, rom, IrValue(r), StatusKey(cfg.bits, r.status), i, j)
    ensures Selected(cfg, c, r, i, j) && p < |StepsOf(c, i, j)| <= 0x100
    ensures forall m: nat, n: nat | Selected(cfg, c, r, m, n) :: m == i && n == j
  {
    assert Answered(cfg, c, rom, IrValue(r), StatusKey(cfg.bits, r.status));
    i, j :| VariantIndex(c, i, j) && Answers(cfg, c, rom, IrValue(r), StatusKey(cfg.bits, r.status), i, j);
  }

  /** Same opcode, and same flags unless the variant is unconditional: the same variant is selected. */
  lemma SelectionStays(cfg: Config, c: InstructionSet, r: Registers, x: Registers, i: nat, j: nat)
    requires Selected(cfg, c, r, i, j) && IrValue(x) == IrValue(r)
    requires c.instructions[i].variants[j].conditions != map[] ==> x.status == r.status
    ensures Selected(cfg, c, x, i, j)
  {
  }

  lemma LookupNow(cfg: Config, children: seq<Component>, c: InstructionSet, p: nat, rom: seq<nat>, m: Machine, irq: Option<bool>,
                  i: nat, j: nat)
    requires InMemory(cfg, c, p, rom) && !m.halted && Known(c, IrValue(m.regs))
    requires Selected(cfg, c, m.regs, i, j) && m.regs.sc < |StepsOf(c, i, j)|
    ensures CpuTick(cfg, children, rom, m, irq) == Tick(children, m, AsSet(StepsOf(c, i, j)[m.regs.sc].controls), irq)
  {
    var i0, j0 := SelectionExists(cfg, c, p, rom, m.regs);
    var controls := StepsOf(c, i, j)[m.regs.sc].controls;
    assert LookupIs(cfg, rom, KeyNow(cfg, m.regs), controls);
    assert AsSet(Lookup(cfg.table, rom, KeyNow(cfg, m.regs)).value) == AsSet(controls);
  }

  /** The state after one tick in step. */
  ghost predicate Advanced(cfg: Config, c: InstructionSet, p: nat, r: Registers, x: Registers, i: nat, j: nat)
    requires VariantIndex(c, i, j)
  {
    var n := |StepsOf(c, i, j)|;
    && x.sc == (if r.sc + 1 == n then 0 else r.sc + 1)
    && (p <= r.sc && r.sc + 1 < n ==> Selected(cfg, c, x, i, j))
    && (Known(c, IrValue(x)) ==> InStep(cfg, c, x))
  }

  lemma EffectAdvances(cfg: Config, c: InstructionSet, p: nat, rom: seq<nat>, r: Registers, x: Registers, i: nat, j: nat)
    requires InMemory(cfg, c, p, rom) && Selected(cfg, c, r, i, j) && r.sc < |StepsOf(c, i, j)|
    requires ControllerEffect(StepsOf(c, i, j)[r.sc].controls, r, x)
    ensures Advanced(cfg, c, p, r, x, i, j)
  {
    var k, n := r.sc, |StepsOf(c, i, j)|;
    assert StepRule(c, i, j, k, p);
    assert n <= 0x100;
    if p <= k && k + 1 < n {
      SelectionStays(cfg, c, r, x, i, j);
    } else if Known(c, IrValue(x)) {
      var i1, j1 := SelectionExists(cfg, c, p, rom, x);
      assert x.sc < |StepsOf(c, i1, j1)|;
    }
  }

  /** One tick in step: the microcode lookup and the buses never fail, the counter moves to the next step of
      the selected variant or back to 0 at its end, past the preamble the selection does not change, and the
      machine is in step again. */
  lemma TickStaysInStep(cfg: Config, children: seq<Component>, c: InstructionSet, p: nat, rom: seq<nat>, m: Machine,
                        irq: Option<bool>, i: nat, j: nat)
    requires InMemory(cfg, c, p, rom) && ChildrenOk(children) && Idle(m) && !m.halted
    requires Known(c, IrValue(m.regs))
    requires Selected(cfg, c, m.regs, i, j) && m.regs.sc < |StepsOf(c, i, j)|
    ensures var r := CpuTick(cfg, children, rom, m, irq);
            if r.Err? then MemoryFault(r.error) else Idle(r.value) && Advanced(cfg, c, p, m.regs, r.value.regs, i, j)
  {
    var controls := StepsOf(c, i, j)[m.regs.sc].controls;
    assert StepRule(c, i, j, m.regs.sc, p);
    LookupNow(cfg, children, c, p, rom, m, irq, i, j);
    ValidStepNeverFaults(children, m, controls, irq);
    if CpuTick(cfg, children, rom, m, irq).Ok? {
      TickOnController(children, m, controls, irq);
      EffectAdvances(cfg, c, p, rom, m.regs, CpuTick(cfg, children, rom, m, irq).value.regs, i, j);
    }
  }

  // ---------------------------------------------------------------- whole runs

  /** Run the controller; `irqs[k]` is what an input device drives on the interrupt line in tick `k`. */
  function CpuRun(cfg: Config, children: seq<Component>, rom: seq<nat>, m: Machine, irqs: seq<Option<bool>>): Result<Machine, SimError> {
    if irqs == [] then Ok(m)
    else
      match CpuRun(cfg, children, rom, m, irqs[..|irqs| - 1])
      case Ok(m1) => CpuTick(cfg, children, rom, m1, irqs[|irqs| - 1])
      case Err(e) => Err(e)
  }

  /** The outcome of the run after its first `k` ticks. */
  ghost function Prefix(cfg: Config, children: seq<Component>, rom: seq<nat>, m: Machine, irqs: seq<Option<bool>>, k: nat)
    : Result<Machine, SimError>
    requires k <= |irqs|
  {
    CpuRun(cfg, children, rom, m, irqs[..k])
  }

  lemma PrefixStep(cfg: Config, children: seq<Component>, rom: seq<nat>, m: Machine, irqs: seq<Option<bool>>, k: nat)
    requires k < |irqs|
    ensures Prefix(cfg, children, rom, m, irqs, 0) == Ok(m)
    ensures var before, after := Prefix(cfg, children, rom, m, irqs, k), Prefix(cfg, children, rom, m, irqs, k + 1);
            after == if before.Ok? then CpuTick(cfg, children, rom, before.value, irqs[k]) else before
  {
    assert irqs[..k + 1][..k] == irqs[..k];
    assert irqs[..0] == [];
  }

  /** Along the run, every opcode the controller sees belongs to the set. */
  ghost predicate OpcodesKnown(cfg: Config, children: seq<Component>, c: InstructionSet, rom: seq<nat>, m: Machine,
                               irqs: seq<Option<bool>>) {
    forall k | 0 <= k <= |irqs| && Prefix(cfg, children, rom, m, irqs, k).Ok? ::
      Known(c, IrValue(Prefix(cfg, children, rom, m, irqs, k).value.regs))
  }

  ghost predicate GoodOutcome(cfg: Config, c: InstructionSet, r: Result<Machine, SimError>) {
    if r.Err? then MemoryFault(r.error) else Idle(r.value) && InStep(cfg, c, r.value.regs)
  }

  lemma StartInStep(cfg: Config, c: InstructionSet, p: nat, rom: seq<nat>, r: Registers)
    requires InMemory(cfg, c, p, rom) && Known(c, IrValue(r)) && r.sc == 0
    ensures InStep(cfg, c, r)
  {
    var i, j := SelectionExists(cfg, c, p, rom, r);
    assert r.sc < |StepsOf(c, i, j)|;
  }

  lemma {:induction false} PrefixesStayInStep(cfg: Config, children: seq<Component>, c: InstructionSet, p: nat, rom: seq<nat>,
                                              m: Machine, irqs: seq<Option<bool>>, k: nat)
    requires InMemory(cfg, c, p, rom) && ChildrenOk(children) && Idle(m) && m.regs.sc == 0
    requires OpcodesKnown(cfg, children, c, rom, m, irqs) && k <= |irqs|
    ensures GoodOutcome(cfg, c, Prefix(cfg, children, rom, m, irqs, k))
    decreases k
  {
    if k == 0 {
      assert irqs[..0] == [];
      assert Prefix(cfg, children, rom, m, irqs, 0) == Ok(m);
      StartInStep(cfg, c, p, rom, m.regs);
    } else {
      PrefixesStayInStep(cfg, children, c, p, rom, m, irqs, k - 1);
      PrefixStep(cfg, children, rom, m, irqs, k - 1);
      var before := Prefix(cfg, children, rom, m, irqs, k - 1);
      if before.Ok? && !before.value.halted {
        var i: nat, j: nat :| VariantIndex(c, i, j) && Selected(cfg, c, before.value.regs, i, j) && before.value.regs.sc < |StepsOf(c, i, j)|;
        assert Known(c, IrValue(before.value.regs));
        TickStaysInStep(cfg, children, c, p, rom, before.value, irqs[k - 1], i, j);
      }
    }
  }

  /** Over every run from step 0, with interrupts arriving at any time, the counter always indexes an existing
      step of the variant selected by opcode and flags, and the only fault is a store to ROM or unmapped
      memory: no microcode address is out of range and no bus rule is broken. */
  lemma RunsStayInStep(cfg: Config, children: seq<Component>, s: InstructionSet, rom: seq<nat>, m: Machine,
                       irqs: seq<Option<bool>>)
    requires Loaded(cfg, s, rom) && ChildrenOk(children) && Idle(m) && m.regs.sc == 0
    requires OpcodesKnown(cfg, children, Compiled(cfg, s), rom, m, irqs)
    ensures forall k | 0 <= k <= |irqs| :: GoodOutcome(cfg, Compiled(cfg, s), Prefix(cfg, children, rom, m, irqs, k))
  {
    LoadedIsInMemory(cfg, s, rom);
    forall k: nat | k <= |irqs| ensures GoodOutcome(cfg, Compiled(cfg, s), Prefix(cfg, children, rom, m, irqs, k)) {
      PrefixesStayInStep(cfg, children, Compiled(cfg, s), |FetchSteps(cfg, s)|, rom, m, irqs, k);
    }
  }

  /** A run that never faults, and does not halt before its last tick. */
  ghost predicate Lively(cfg: Config, children: seq<Component>, rom: seq<nat>, m: Machine, irqs: seq<Option<bool>>) {
    forall k | 0 <= k <= |irqs| ::
      Prefix(cfg, children, rom, m, irqs, k).Ok? && (k < |irqs| ==> !Prefix(cfg, children, rom, m, irqs, k).value.halted)
  }

  /** The registers after `k` ticks. */
  ghost function After(cfg: Config, children: seq<Component>, rom: seq<nat>, m: Machine, irqs: seq<Option<bool>>, k: nat): Registers
    requires k <= |irqs| && Lively(cfg, children, rom, m, irqs)
  {
    Prefix(cfg, children, rom, m, irqs, k).value.regs
  }

  /** Tick `k` of a run, seen from the state before it. */
  lemma TickOfRun(cfg: Config, children: seq<Component>, c: InstructionSet, p: nat, rom: seq<nat>, m: Machine,
                  irqs: seq<Option<bool>>, k: nat) returns (i: nat, j: nat)
    requires InMemory(cfg, c, p, rom) && ChildrenOk(children) && Idle(m) && m.regs.sc == 0
    requires Lively(cfg, children, rom, m, irqs) && OpcodesKnown(cfg, children, c, rom, m, irqs) && k < |irqs|
    ensures VariantIndex(c, i, j) && Selected(cfg, c, After(cfg, children, rom, m, irqs, k), i, j)
    ensures After(cfg, children, rom, m, irqs, k).sc < |StepsOf(c, i, j)| <= 0x100
    ensures Advanced(cfg, c, p, After(cfg, children, rom, m, irqs, k), After(cfg, children, rom, m, irqs, k + 1), i, j)
  {
    PrefixesStayInStep(cfg, children, c, p, rom, m, irqs, k);
    PrefixStep(cfg, children, rom, m, irqs, k);
    var m1 := Prefix(cfg, children, rom, m, irqs, k).value;
    i, j :| VariantIndex(c, i, j) && Selected(cfg, c, m1.regs, i, j) && m1.regs.sc < |StepsOf(c, i, j)|;
    assert Known(c, IrValue(m1.regs));
    TickStaysInStep(cfg, children, c, p, rom, m1, irqs[k], i, j);
  }

  /** Until it returns to 0, the counter equals the number of ticks since it was 0. */
  lemma {:induction false} CounterCountsTicks(cfg: Config, children: seq<Component>, c: InstructionSet, p: nat, rom: seq<nat>,
                                              m: Machine, irqs: seq<Option<bool>>, n: nat)
    requires InMemory(cfg, c, p, rom) && ChildrenOk(children) && Idle(m) && m.regs.sc == 0
    requires Lively(cfg, children, rom, m, irqs) && OpcodesKnown(cfg, children, c, rom, m, irqs)
    requires n <= |irqs| && forall k | 0 < k <= n :: After(cfg, children, rom, m, irqs, k).sc != 0
    ensures After(cfg, children, rom, m, irqs, n).sc == n
  {
    if n == 0 {
      assert irqs[..0] == [];
    } else {
      CounterCountsTicks(cfg, children, c, p, rom, m, irqs, n - 1);
      var i, j := TickOfRun(cfg, children, c, p, rom, m, irqs, n - 1);
    }
  }

  /** The variant selected in the last tick was selected ever since the end of the preamble. */
  lemma {:induction false} SelectedSincePreamble(cfg: Config, children: seq<Component>, c: InstructionSet, p: nat, rom: seq<nat>,
                                                 m: Machine, irqs: seq<Option<bool>>, k: nat, l: nat, i: nat, j: nat)
    requires InMemory(cfg, c, p, rom) && ChildrenOk(children) && Idle(m) && m.regs.sc == 0
    requires Lively(cfg, children, rom, m, irqs) && OpcodesKnown(cfg, children, c, rom, m, irqs)
    requires p <= k <= l < |irqs| && (forall t | k <= t <= l :: After(cfg, children, rom, m, irqs, t).sc == t)
    requires VariantIndex(c, i, j) && Selected(cfg, c, After(cfg, children, rom, m, irqs, l), i, j)
    ensures Selected(cfg, c, After(cfg, children, rom, m, irqs, k), i, j)
    decreases l - k
  {
    if k < l {
      SelectedSincePreamble(cfg, children, c, p, rom, m, irqs, k + 1, l, i, j);
      var i0, j0 := TickOfRun(cfg, children, c, p, rom, m, irqs, k);
      var r := After(cfg, children, rom, m, irqs, k + 1);
      assert Known(c, IrValue(Prefix(cfg, children, rom, m, irqs, k + 1).value.regs));
      var i1, j1 := SelectionExists(cfg, c, p, rom, r);
    }
  }

  /** An instruction takes exactly its compiled length: if the counter is 0 again after `n` ticks for the first
      time, then it went through 1, 2, ... without wrapping, and `n` is the length of the variant selected in
      the last tick, the one selected ever since the end of the preamble. */
  lemma InstructionTakesItsLength(cfg: Config, children: seq<Component>, s: InstructionSet, rom: seq<nat>, m: Machine,
                                  irqs: seq<Option<bool>>) returns (i: nat, j: nat)
    requires Loaded(cfg, s, rom) && ChildrenOk(children) && Idle(m) && m.regs.sc == 0 && irqs != []
    requires Lively(cfg, children, rom, m, irqs) && OpcodesKnown(cfg, children, Compiled(cfg, s), rom, m, irqs)
    requires forall k | 0 < k < |irqs| :: After(cfg, children, rom, m, irqs, k).sc != 0
    requires After(cfg, children, rom, m, irqs, |irqs|).sc == 0
    ensures VariantIndex(Compiled(cfg, s), i, j) && |irqs| == |StepsOf(Compiled(cfg, s), i, j)| <= 0x100
    ensures forall k | 0 <= k < |irqs| :: After(cfg, children, rom, m, irqs, k).sc == k
    ensures forall k | |FetchSteps(cfg, s)| <= k < |irqs| :: Selected(cfg, Compiled(cfg, s), After(cfg, children, rom, m, irqs, k), i, j)
  {
    LoadedIsInMemory(cfg, s, rom);
    i, j := CycleLength(cfg, children, Compiled(cfg, s), |FetchSteps(cfg, s)|, rom, m, irqs);
  }

  lemma CycleLength(cfg: Config, children: seq<Component>, c: InstructionSet, p: nat, rom: seq<nat>, m: Machine,
                    irqs: seq<Option<bool>>) returns (i: nat, j: nat)
    requires InMemory(cfg, c, p, rom) && ChildrenOk(children) && Idle(m) && m.regs.sc == 0 && irqs != []
    requires Lively(cfg, children, rom, m, irqs) && OpcodesKnown(cfg, children, c, rom, m, irqs)
    requires forall k | 0 < k < |irqs| :: After(cfg, children, rom, m, irqs, k).sc != 0
    requires After(cfg, children, rom, m, irqs, |irqs|).sc == 0
    ensures VariantIndex(c, i, j) && |irqs| == |StepsOf(c, i, j)| <= 0x100
    ensures forall k | 0 <= k < |irqs| :: After(cfg, children, rom, m, irqs, k).sc == k
    ensures forall k | p <= k < |irqs| :: Selected(cfg, c, After(cfg, children, rom, m, irqs, k), i, j)
  {
    var n := |irqs|;
    forall k: nat | k < n ensures After(cfg, children, rom, m, irqs, k).sc == k {
      CounterCountsTicks(cfg, children, c, p, rom, m, irqs, k);
    }
    i, j := TickOfRun(cfg, children, c, p, rom, m, irqs, n - 1);
    forall k: nat | p <= k < n ensures Selected(cfg, c, After(cfg, children, rom, m, irqs, k), i, j) {
      SelectedSincePreamble(cfg, children, c, p, rom, m, irqs, k, n - 1, i, j);
    }
  }

  /** The counter always comes back: no run of 256 ticks stays away from 0. */
  lemma CounterReturns(cfg: Config, children: seq<Component>, s: InstructionSet, rom: seq<nat>, m: Machine, irqs: seq<Option<bool>>)
    requires Loaded(cfg, s, rom) && ChildrenOk(children) && Idle(m) && m.regs.sc == 0 && |irqs| >= 0x100
    requires Lively(cfg, children, rom, m, irqs) && OpcodesKnown(cfg, children, Compiled(cfg, s), rom, m, irqs)
    ensures exists k | 0 < k <= 0x100 :: After(cfg, children, rom, m, irqs, k).sc == 0
  {
    LoadedIsInMemory(cfg, s, rom);
    if forall k | 0 < k <= 0x100 :: After(cfg, children, rom, m, irqs, k).sc != 0 {
      CounterCountsTicks(cfg, children, Compiled(cfg, s), |FetchSteps(cfg, s)|, rom, m, irqs, 0x100);
    }
  }
}
