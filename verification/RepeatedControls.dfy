/** Which single controls may be repeated: the exact line between overwriting and advancing. */
module RepeatedControls {
  import opened Wrappers
  import opened Bits
  import opened Hdl
  import opened Validators
  import opened AluUnit
  import opened Simulator
  import opened BusSafety
  import opened StepRuns
  import opened Deduplication

  /** Controls whose effect depends on what the same control did before: counting, adding an offset, and
      the ALU operations that consume the carry they produce. */
  predicate Advances(c: Control) {
    || ((c.component.Sp? || c.component.Pc? || c.component.Mar?) && c.operation.Increment?)
    || (c.component.Sp? && c.operation.Decrement?)
    || (c.component.Pc? && c.operation.AddSignedOffset?)
    || (c.component.Mar? && c.operation.AddOffset?)
    || (c.component.Alu? && (c.operation == OpcodeBit(0) || c.operation == OpcodeBit(1)))
  }

  lemma {:induction false} NobodyActs(r: Registers, c: Control, irqLine: bool, children: seq<Component>)
    requires !Overwrites(c) && c.component !in children
    ensures TickProcess(r, {c}, irqLine, children) == r
    decreases |children|
  {
    if children != [] {
      OthersIdle(r, c, irqLine, children[0]);
      NobodyActs(r, c, irqLine, children[1..]);
    }
  }

  /** A computing control acts in its own component only. */
  lemma OthersIdle(r: Registers, c: Control, irqLine: bool, d: Component)
    requires !Overwrites(c) && d != c.component
    ensures ProcessOne(r, {c}, irqLine, d) == r
  {
    if Computes(d) {
      ComputedIdle(r, c, d);
    } else {
      SimpleIdle(r, c, irqLine, d);
    }
  }

  lemma ComputedIdle(r: Registers, c: Control, d: Component)
    requires d != c.component
    ensures ProcessComputed(r, {c}, d) == r
  {
    assert d.Alu? ==> AluOpcode({c}) == 0;
  }

  lemma SimpleIdle(r: Registers, c: Control, irqLine: bool, d: Component)
    requires !Overwrites(c)
    ensures ProcessSimple(r, {c}, irqLine, d) == r
  {
  }

  lemma {:induction false} SoleActor(r: Registers, c: Control, irqLine: bool, children: seq<Component>, k: nat)
    requires !Overwrites(c) && k < |children| && children[k] == c.component
    requires forall i, j | 0 <= i < j < |children| :: children[i] != children[j]
    ensures TickProcess(r, {c}, irqLine, children) == ProcessComputed(r, {c}, c.component)
    decreases |children|
  {
    var rest := children[1..];
    if k == 0 {
      assert c.component !in rest;
      if !Computes(c.component) { SimpleIdle(r, c, irqLine, c.component); }
      NobodyActs(ProcessOne(r, {c}, irqLine, c.component), c, irqLine, rest);
    } else {
      OthersIdle(r, c, irqLine, children[0]);
      forall i, j | 0 <= i < j < |rest| ensures rest[i] != rest[j] {
        assert rest[i] == children[i + 1] && rest[j] == children[j + 1];
      }
      SoleActor(r, c, irqLine, rest, k - 1);
    }
  }

  /** The effect of one tick of a computing control on the registers. */
  lemma EffectOfOne(children: seq<Component>, r: Registers, c: Control, irqLine: bool)
    requires ChildrenOk(children) && !Overwrites(c)
    ensures TickProcess(r, {c}, irqLine, children) == ProcessComputed(r, {c}, c.component)
  {
    if c.component in children {
      var k :| 0 <= k < |children| && children[k] == c.component;
      SoleActor(r, c, irqLine, children, k);
    } else {
      NobodyActs(r, c, irqLine, children);
      assert !HasTick(c.component);
    }
  }

  /** A tick of a computing control, alone. */
  lemma TickOfOne(children: seq<Component>, m: Machine, c: Control)
    requires ChildrenOk(children) && Idle(m) && !m.halted && !Overwrites(c)
    ensures Tick(children, m, {c}, None) == Ok(m.(regs := ProcessComputed(m.regs, {c}, c.component), cycles := m.cycles + 1))
  {
    assert c.Phase() == ProcessPhase;
    assert OfPhase({c}, WritePhase) == {} && OfPhase({c}, ReadPhase) == {} && OfPhase({c}, ProcessPhase) == {c};
    assert AssertControls(m, {c}, None).asserted == {c};
    TickShape(children, m, {c});
    WriteNothing(m.regs, WritePhase, m.buses, children);
    ReadNothing(m.regs, ReadPhase, m.buses, children);
    EffectOfOne(children, m.regs, c, m.irqLine);
  }

  lemma TwoTicksOfOne(children: seq<Component>, m: Machine, c: Control)
    requires ChildrenOk(children) && Idle(m) && !m.halted && !Overwrites(c)
    ensures var r1 := ProcessComputed(m.regs, {c}, c.component);
            SameCore(TickTwice(children, m, {c}, {c}), Tick(children, m, {c}, None)) <==>
            NoCounter(ProcessComputed(r1, {c}, c.component)) == NoCounter(r1)
  {
    TickOfOne(children, m, c);
    TickOfOne(children, Tick(children, m, {c}, None).value, c);
  }

  // ---------------------------------------------------------------- the computed effects

  lemma AluRepeats(r: Registers, c: Control)
    requires c.component.Alu? && !Overwrites(c) && !Advances(c)
    ensures ProcessAlu(ProcessAlu(r, {c}), {c}) == ProcessAlu(r, {c})
  {
    var opcode := AluOpcode({c});
    if opcode != 0 {
      assert c.operation == OpcodeBit(2) || c.operation == OpcodeBit(3);
      var r1 := ProcessAlu(r, {c});
      FlagsSetTwice(r.status, if opcode == 4 then false else r.lhs % 2 == 1, false);
    }
  }

  lemma FlagsSetTwice(status: byte, carry: bool, overflow: bool)
    ensures var s := WithFlag(WithFlag(status, CARRY, carry), OVERFLOW, overflow);
            WithFlag(WithFlag(s, CARRY, carry), OVERFLOW, overflow) == s
  {
    var a := WithFlag(status, CARRY, carry);
    var s := WithFlag(a, OVERFLOW, overflow);
    var b := WithFlag(s, CARRY, carry);
    var t := WithFlag(b, OVERFLOW, overflow);
    forall i: nat ensures Bit(t, i) == Bit(s, i) {
      BitOfWithBit(status, CARRY, carry, i);
      BitOfWithBit(a, OVERFLOW, overflow, i);
      BitOfWithBit(s, CARRY, carry, i);
      BitOfWithBit(b, OVERFLOW, overflow, i);
    }
    SameBits(t, s);
  }

  lemma ComputedRepeats(r: Registers, c: Control)
    requires !Overwrites(c) && !Advances(c)
    ensures ProcessComputed(ProcessComputed(r, {c}, c.component), {c}, c.component) == ProcessComputed(r, {c}, c.component)
  {
    if c.component.Alu? {
      AluRepeats(r, c);
    }
  }

  /** Registers for the counterexamples: everything zero but the given values. */
  function Sample(lhs: byte, rhs: byte, pcOffset: byte, marOffset: byte, status: byte): Registers {
    Registers(0, 0, 0, 0, 0, lhs, rhs, 0, 0, pcOffset, status, 0, 0, false, 0, 0, 0, marOffset,
              seq(0x2000, _ => 0), seq(0x8000, _ => 0))
  }

  function SampleMachine(r: Registers): Machine {
    Machine(r, EMPTY_BUSES, {}, false, NoPhase, false, false, false, 0)
  }

  function AluView(r: Registers): Alu {
    Alu.Alu(r.lhs, r.rhs, r.result, Bit(r.status, CARRY), Bit(r.status, OVERFLOW))
  }

  /** The ALU sees its own result and flags the next time. */
  lemma AluChains(r: Registers, c: Control)
    requires AluOpcode({c}) != 0
    ensures AluView(ProcessAlu(r, {c})) == Operate(AluView(r), AluOpcode({c}))
  {
    var u := Operate(AluView(r), AluOpcode({c}));
    var s := WithFlag(r.status, CARRY, u.carry);
    BitOfWithBit(r.status, CARRY, u.carry, CARRY);
    BitOfWithBit(s, OVERFLOW, u.overflow, CARRY);
    BitOfWithBit(s, OVERFLOW, u.overflow, OVERFLOW);
    OperandsKept(AluView(r), AluOpcode({c}));
  }

  lemma OperandsKept(u: Alu, opcode: nat)
    ensures Operate(u, opcode).lhs == u.lhs && Operate(u, opcode).rhs == u.rhs
  {
  }

  /** Adding and subtracting consume the carry that they produce. */
  lemma CarryIsConsumed(u: Alu)
    ensures u.lhs == 0x80 && u.rhs == 0x80 && !u.carry ==> Operate(Operate(u, 1), 1).result == 1 && Operate(u, 1).result == 0
    ensures u.lhs == 0 && u.rhs == 1 && u.carry ==> Operate(Operate(u, 2), 2).result == 0xFE && Operate(u, 2).result == 0xFF
  {
  }

  lemma AluTwice(r: Registers, c: Control, opcode: nat)
    requires AluOpcode({c}) == opcode != 0
    ensures var u, r1 := AluView(r), ProcessAlu(r, {c});
            ProcessAlu(r1, {c}).result == Operate(Operate(u, opcode), opcode).result && r1.result == Operate(u, opcode).result
  {
    AluChains(r, c);
    AluChains(ProcessAlu(r, {c}), c);
  }

  lemma AluAdvances(c: Control) returns (r: Registers)
    requires c.component.Alu? && Advances(c)
    ensures var r1 := ProcessAlu(r, {c}); ProcessAlu(r1, {c}).result != r1.result
  {
    var opcode := AluOpcode({c});
    assert opcode == if c.operation == OpcodeBit(0) then 1 else 2;
    r := if opcode == 1 then Sample(0x80, 0x80, 0, 0, 0) else Sample(0, 1, 0, 0, 1);
    assert Bit(r.status, CARRY) <==> opcode == 2;
    AluTwice(r, c, opcode);
    CarryIsConsumed(AluView(r));
  }

  lemma SpAdvances(c: Control, r: Registers)
    requires c.component.Sp? && Advances(c)
    ensures ProcessCounter({c}, Sp, ProcessCounter({c}, Sp, r.sp)) != ProcessCounter({c}, Sp, r.sp)
  {
    assert On({c}, Sp, Increment) || On({c}, Sp, Decrement);
    assert !On({c}, Sp, Reset);
  }

  /** With nothing but a signed offset of 1, adding it is counting. */
  lemma PcAdvances(c: Control, r: Registers)
    requires c.component.Pc? && Advances(c) && r.pcOffset == 1
    ensures ProcessPc(r, {c}).pc == (r.pc + 1) % 0x1_0000
  {
    assert On({c}, Pc, Increment) != On({c}, Pc, AddSignedOffset);
    assert !On({c}, Pc, Reset);
  }

  lemma MarAdvances(c: Control, r: Registers)
    requires c.component.Mar? && Advances(c) && r.marOffset == 1 && r.mar < 2
    ensures ProcessMar(r, {c}).mar == r.mar + 1
  {
    assert On({c}, Mar, Increment) != On({c}, Mar, AddOffset);
    assert !On({c}, Mar, StackPage) && !On({c}, Mar, InterruptVector);
  }

  lemma ComputedAdvances(c: Control) returns (r: Registers)
    requires Advances(c)
    ensures var r1 := ProcessComputed(r, {c}, c.component);
            NoCounter(ProcessComputed(r1, {c}, c.component)) != NoCounter(r1)
  {
    if c.component.Alu? {
      r := AluAdvances(c);
    } else {
      r := Sample(0, 0, 1, 1, 0);
      var r1 := ProcessComputed(r, {c}, c.component);
      match c.component
      case Sp => SpAdvances(c, r);
      case Pc => PcAdvances(c, r); PcAdvances(c, r1);
      case Mar => MarAdvances(c, r); MarAdvances(c, r1);
    }
  }

  lemma SingleControl(children: seq<Component>, c: Control)
    requires ChildrenOk(children)
    ensures Idempotent(children, {c}) <==> !Advances(c)
  {
    if Overwrites(c) {
      SettledIsIdempotent(children, {c});
    } else if Advances(c) {
      var r := ComputedAdvances(c);
      var m := SampleMachine(r);
      assert Idle(m) && !m.halted;
      TwoTicksOfOne(children, m, c);
    } else {
      forall m | Idle(m) && !m.halted ensures SameCore(TickTwice(children, m, {c}, {c}), Tick(children, m, {c}, None)) {
        TwoTicksOfOne(children, m, c);
        ComputedRepeats(m.regs, c);
      }
    }
  }

  /** The steps with one control as the compiler sees them: beside it they may tell the sequence counter to
      count or to restart. Repeating such a step is harmless for every machine exactly when its control does
      not advance. The compiler's collapsing of repeated steps is therefore not meaning-preserving for the
      advancing controls. */
  lemma SingleControlRepeatExact(children: seq<Component>, c: Control, s: set<Control>)
    requires ChildrenOk(children) && c in s && forall d | d in s :: d == c || d.component.Sc?
    ensures Idempotent(children, s) <==> !Advances(c)
  {
    SingleControl(children, c);
    forall d: Component, op: Operation | !d.Sc? ensures On(s, d, op) == On({c}, d, op) {
    }
    IdempotentAside(children, s, {c});
  }

  // ---------------------------------------------------------------- counting among other controls

  /** The registers that count. */
  predicate CountsAt(c: Component) {
    c.Sp? || c.Pc? || c.Mar?
  }

  function CountOf(r: Registers, c: Component): word {
    match c
    case Sp => r.sp
    case Pc => r.pc
    case Mar => r.mar
    case _ => 0
  }

  predicate PortsLeft(on: set<Control>, low: Component, high: Component) {
    !On(on, low, Read) && !On(on, low, Reset) && !On(on, high, Read) && !On(on, high, Reset)
  }

  /** The step advances the counting register, and nothing else in the step writes it. */
  predicate OnlyCounts(on: set<Control>, c: Component) {
    match c
    case Sp => (On(on, Sp, Increment) || On(on, Sp, Decrement)) && !On(on, Sp, Read) && !On(on, Sp, Reset)
    case Pc =>
      On(on, Pc, Increment) && !On(on, Pc, Read) && !On(on, Pc, Reset) && !On(on, Pc, AddSignedOffset)
      && PortsLeft(on, PcLow, PcHigh)
    case Mar =>
      On(on, Mar, Increment) && !On(on, Mar, Read) && !On(on, Mar, AddOffset) && !On(on, Mar, StackPage)
      && !On(on, Mar, InterruptVector) && PortsLeft(on, MarLow, MarHigh)
    case _ => false
  }

  /** One count. */
  function Next(on: set<Control>, c: Component, v: word): word {
    if !c.Sp? then (v + 1) % 0x1_0000
    else if On(on, Sp, Increment) then (v + 1) % 0x100
    else (v - 1) % 0x100
  }

  /** No control reads a bus into the counting register. */
  predicate NotRead(on: set<Control>, c: Component) {
    && !On(on, c, Read)
    && (c.Pc? ==> !On(on, PcLow, Read) && !On(on, PcHigh, Read))
    && (c.Mar? ==> !On(on, MarLow, Read) && !On(on, MarHigh, Read))
  }

  lemma ReadOneLeaves(r: Registers, on: set<Control>, b: Buses, d: Component, c: Component)
    requires CountsAt(c) && NotRead(on, c) && TickReadOne(r, on, ReadPhase, b, d).Ok?
    ensures CountOf(TickReadOne(r, on, ReadPhase, b, d).value, c) == CountOf(r, c)
  {
  }

  lemma {:induction false} ReadLeaves(r: Registers, on: set<Control>, b: Buses, children: seq<Component>, c: Component)
    requires CountsAt(c) && NotRead(on, c) && TickRead(r, on, ReadPhase, b, children).Ok?
    ensures CountOf(TickRead(r, on, ReadPhase, b, children).value, c) == CountOf(r, c)
    decreases |children|
  {
    if children != [] {
      ReadOneLeaves(r, on, b, children[0], c);
      ReadLeaves(TickReadOne(r, on, ReadPhase, b, children[0]).value, on, b, children[1..], c);
    }
  }

  lemma ComputedCounts(r: Registers, on: set<Control>, d: Component, c: Component)
    requires OnlyCounts(on, c)
    ensures CountOf(ProcessComputed(r, on, d), c) == if d == c then Next(on, c, CountOf(r, c)) else CountOf(r, c)
  {
  }

  lemma SimpleLeaves(r: Registers, on: set<Control>, irqLine: bool, d: Component, c: Component)
    requires OnlyCounts(on, c)
    ensures CountOf(ProcessSimple(r, on, irqLine, d), c) == CountOf(r, c)
  {
  }

  lemma ProcessOneCounts(r: Registers, on: set<Control>, irqLine: bool, d: Component, c: Component)
    requires OnlyCounts(on, c)
    ensures CountOf(ProcessOne(r, on, irqLine, d), c) == if d == c then Next(on, c, CountOf(r, c)) else CountOf(r, c)
  {
    if Computes(d) {
      ComputedCounts(r, on, d, c);
    } else {
      SimpleLeaves(r, on, irqLine, d, c);
    }
  }

  lemma {:induction false} ProcessLeaves(r: Registers, on: set<Control>, irqLine: bool, children: seq<Component>, c: Component)
    requires OnlyCounts(on, c) && c !in children
    ensures CountOf(TickProcess(r, on, irqLine, children), c) == CountOf(r, c)
    decreases |children|
  {
    if children != [] {
      ProcessOneCounts(r, on, irqLine, children[0], c);
      ProcessLeaves(ProcessOne(r, on, irqLine, children[0]), on, irqLine, children[1..], c);
    }
  }

  lemma {:induction false} ProcessCountsOnce(r: Registers, on: set<Control>, irqLine: bool, children: seq<Component>, c: Component)
    requires OnlyCounts(on, c) && c in children
    requires forall i, j | 0 <= i < j < |children| :: children[i] != children[j]
    ensures CountOf(TickProcess(r, on, irqLine, children), c) == Next(on, c, CountOf(r, c))
    decreases |children|
  {
    var d, rest := children[0], children[1..];
    ProcessOneCounts(r, on, irqLine, d, c);
    forall i, j | 0 <= i < j < |rest| ensures rest[i] != rest[j] {
      assert rest[i] == children[i + 1] && rest[j] == children[j + 1];
    }
    if d == c {
      forall i | 0 <= i < |rest| ensures rest[i] != c {
        assert rest[i] == children[i + 1];
      }
      ProcessLeaves(ProcessOne(r, on, irqLine, d), on, irqLine, rest, c);
    } else {
      ProcessCountsOnce(ProcessOne(r, on, irqLine, d), on, irqLine, rest, c);
    }
  }

  lemma CountsByPhase(s: set<Control>, c: Component)
    requires OnlyCounts(s, c)
    ensures NotRead(OfPhase(s, ReadPhase), c) && OnlyCounts(OfPhase(s, ProcessPhase), c)
    ensures forall v :: Next(OfPhase(s, ProcessPhase), c, v) == Next(s, c, v)
  {
    var on := OfPhase(s, ProcessPhase);
    forall d: Component, op: Operation | !op.Read? && !op.Write? ensures On(on, d, op) == On(s, d, op) {
      var x: Control := ControlInfo(d, op);
      assert x.Phase() == ProcessPhase;
    }
  }

  /** A tick of a counting step counts, whatever else the step does. */
  lemma TickCounts(children: seq<Component>, m: Machine, s: set<Control>, c: Component)
    requires ChildrenOk(children) && Idle(m) && !m.halted && OnlyCounts(s, c)
    requires Tick(children, m, s, None).Ok?
    ensures CountOf(Tick(children, m, s, None).value.regs, c) == Next(s, c, CountOf(m.regs, c))
  {
    TickShape(children, m, s);
    CountsByPhase(s, c);
    var b := TickWrite(m.regs, OfPhase(s, WritePhase), WritePhase, m.buses, children).value;
    var r := Transfers(children, m, s).value;
    ReadLeaves(m.regs, OfPhase(s, ReadPhase), b, children, c);
    assert HasTick(c);
    var m0 := AssertControls(m, s, None);
    assert m0.asserted == s;
    ProcessCountsOnce(r, OfPhase(s, ProcessPhase), m0.irqLine, children, c);
  }

  lemma NextMoves(s: set<Control>, c: Component, v: word)
    requires CountsAt(c) && (c.Sp? ==> v < 0x100)
    ensures Next(s, c, v) != v && (c.Sp? ==> Next(s, c, v) < 0x100)
  {
  }

  /** A step that counts somewhere, and does not otherwise write the counting register, may not be repeated:
      from every machine on which it neither faults nor halts, a second tick ends elsewhere than the first. */
  lemma CountingStepNeverRepeats(children: seq<Component>, m: Machine, s: set<Control>, c: Component)
    requires ChildrenOk(children) && Idle(m) && !m.halted && OnlyCounts(s, c)
    requires Tick(children, m, s, None).Ok? && !Tick(children, m, s, None).value.halted
    ensures !SameCore(TickTwice(children, m, s, s), Tick(children, m, s, None))
  {
    var m1 := Tick(children, m, s, None).value;
    TickEndsIdle(children, m, s);
    TickCounts(children, m, s, c);
    if TickTwice(children, m, s, s).Ok? {
      TickCounts(children, m1, s, c);
      NextMoves(s, c, CountOf(m1.regs, c));
    }
  }

  // ---------------------------------------------------------------- the reset that is not one

  /** No control of the address register but its whole-word reset. */
  predicate OnlyResetsMar(on: set<Control>) {
    && !On(on, Mar, Increment) && !On(on, Mar, AddOffset) && !On(on, Mar, StackPage) && !On(on, Mar, InterruptVector)
    && PortsLeft(on, MarLow, MarHigh)
  }

  lemma MarLeft(r: Registers, on: set<Control>, irqLine: bool, d: Component)
    requires OnlyResetsMar(on)
    ensures ProcessOne(r, on, irqLine, d).mar == r.mar
  {
  }

  lemma {:induction false} ProcessLeavesMar(r: Registers, on: set<Control>, irqLine: bool, children: seq<Component>)
    requires OnlyResetsMar(on)
    ensures TickProcess(r, on, irqLine, children).mar == r.mar
    decreases |children|
  {
    if children != [] {
      MarLeft(r, on, irqLine, children[0]);
      ProcessLeavesMar(ProcessOne(r, on, irqLine, children[0]), on, irqLine, children[1..]);
    }
  }

  lemma ResetByPhase(s: set<Control>)
    requires OnlyResetsMar(s) && !On(s, Mar, Read)
    ensures NotRead(OfPhase(s, ReadPhase), Mar) && OnlyResetsMar(OfPhase(s, ProcessPhase))
  {
  }

  /** The whole-word reset of the address register does nothing: a step that tells the register nothing else
      leaves it as it was. */
  lemma MarResetIsIgnored(children: seq<Component>, m: Machine, s: set<Control>)
    requires Idle(m) && !m.halted && OnlyResetsMar(s) && !On(s, Mar, Read) && Tick(children, m, s, None).Ok?
    ensures Tick(children, m, s, None).value.regs.mar == m.regs.mar
  {
    var r, x, irqLine := TickRegisters(children, m, s);
    ResetByPhase(s);
    var b := TickWrite(m.regs, OfPhase(s, WritePhase), WritePhase, m.buses, children).value;
    ReadLeaves(m.regs, OfPhase(s, ReadPhase), b, children, Mar);
    ProcessLeavesMar(r, OfPhase(s, ProcessPhase), irqLine, children);
  }

  // ---------------------------------------------------------------- such a step can run

  /** The step stores nothing, or to an address that it does not change before. */
  predicate StoresPlainly(on: set<Control>) {
    On(on, Memory, Read) ==> NotRead(on, Mar)
  }

  lemma ReadOneInRam(r: Registers, on: set<Control>, b: Buses, d: Component)
    requires StoresPlainly(on) && (On(on, Memory, Read) ==> r.mar == 0)
    ensures var x := TickReadOne(r, on, ReadPhase, b, d);
            if x.Err? then !MemoryFault(x.error) else On(on, Memory, Read) ==> x.value.mar == 0
  {
  }

  lemma {:induction false} ReadsInRam(r: Registers, on: set<Control>, b: Buses, children: seq<Component>)
    requires StoresPlainly(on) && (On(on, Memory, Read) ==> r.mar == 0)
    ensures var x := TickRead(r, on, ReadPhase, b, children); x.Err? ==> !MemoryFault(x.error)
    decreases |children|
  {
    if children != [] {
      ReadOneInRam(r, on, b, children[0]);
      var x := TickReadOne(r, on, ReadPhase, b, children[0]);
      if x.Ok? { ReadsInRam(x.value, on, b, children[1..]); }
    }
  }

  /** A bus-valid step of that kind runs on every machine, if it stores then where the address is 0. */
  lemma StepRunsOn(children: seq<Component>, m: Machine, controls: seq<Control>)
    requires ChildrenOk(children) && Idle(m) && !m.halted && BusOk(controls) && StoresPlainly(AsSet(controls))
    requires ControlInfo(Memory, Read) in controls ==> m.regs.mar == 0
    requires ControlInfo(Halt, Raise) !in controls && ControlInfo(Crash, Raise) !in controls
    ensures Tick(children, m, AsSet(controls), None).Ok? && !Tick(children, m, AsSet(controls), None).value.halted
  {
    var s := AsSet(controls);
    ValidStepNeverFaults(children, m, controls, None);
    TickShape(children, m, s);
    assert AssertControls(m, s, None).asserted == s;
    var w := TickWrite(m.regs, OfPhase(s, WritePhase), WritePhase, m.buses, children);
    if w.Ok? { ReadsInRam(m.regs, OfPhase(s, ReadPhase), w.value, children); }
    WriteErrorIsNoMemoryFault(m.regs, OfPhase(s, WritePhase), m.buses, children);
  }

  lemma {:induction false} WriteErrorIsNoMemoryFault(r: Registers, on: set<Control>, b: Buses, children: seq<Component>)
    ensures var x := TickWrite(r, on, WritePhase, b, children); x.Err? ==> !MemoryFault(x.error)
    decreases |children|
  {
    if children != [] && TickWriteOne(r, on, WritePhase, b, children[0]).Ok? {
      WriteErrorIsNoMemoryFault(r, on, TickWriteOne(r, on, WritePhase, b, children[0]).value, children[1..]);
    }
  }

  /** A necessary condition for steps of any number of controls: the step of an idempotent repeat does not
      count in a register that nothing else in it writes. */
  lemma CountingStepIsNotIdempotent(children: seq<Component>, controls: seq<Control>, c: Component)
    requires ChildrenOk(children) && BusOk(controls) && StoresPlainly(AsSet(controls))
    requires ControlInfo(Halt, Raise) !in controls && ControlInfo(Crash, Raise) !in controls
    requires OnlyCounts(AsSet(controls), c)
    ensures !Idempotent(children, AsSet(controls))
  {
    var m := SampleMachine(Sample(0, 0, 0, 0, 0));
    assert Idle(m) && !m.halted;
    StepRunsOn(children, m, controls);
    CountingStepNeverRepeats(children, m, AsSet(controls), c);
  }
}
