/** When collapsing repeated steps keeps the run of a step list. */
module Deduplication {
  import opened Wrappers
  import opened Bits
  import opened Hdl
  import opened Ir
  import opened Validators
  import opened Optimizers
  import opened AluUnit
  import opened Simulator
  import opened BusSafety
  import opened StepRuns

  // ---------------------------------------------------------------- the sequence counter aside

  function NoCounter(r: Registers): Registers {
    r.(sc := 0)
  }

  /** The machine without its cycle count and sequence counter. */
  function Core(m: Machine): Machine {
    m.(cycles := 0, regs := NoCounter(m.regs))
  }

  predicate SameCore(a: Result<Machine, SimError>, b: Result<Machine, SimError>) {
    match a
    case Ok(m) => b.Ok? && Core(m) == Core(b.value)
    case Err(e) => b == Err(e)
  }

  lemma {:induction false} WriteIgnoresCounter(r: Registers, k: byte, on: set<Control>, phase: Phase, b: Buses, children: seq<Component>)
    ensures TickWrite(r.(sc := k), on, phase, b, children) == TickWrite(r, on, phase, b, children)
    decreases |children|
  {
    if children != [] {
      var c := children[0];
      assert DataValue(r.(sc := k), c) == DataValue(r, c) && AddressValue(r.(sc := k), c) == AddressValue(r, c);
      match TickWriteOne(r, on, phase, b, c)
      case Err(e) =>
      case Ok(b1) => WriteIgnoresCounter(r, k, on, phase, b1, children[1..]);
    }
  }

  lemma ReadOneIgnoresCounter(r: Registers, k: byte, on: set<Control>, phase: Phase, b: Buses, c: Component)
    ensures match TickReadOne(r, on, phase, b, c)
            case Err(e) => TickReadOne(r.(sc := k), on, phase, b, c) == Err(e)
            case Ok(r1) => TickReadOne(r.(sc := k), on, phase, b, c) == Ok(r1.(sc := k))
  {
  }

  lemma {:induction false} ReadIgnoresCounter(r: Registers, k: byte, on: set<Control>, phase: Phase, b: Buses, children: seq<Component>)
    ensures match TickRead(r, on, phase, b, children)
            case Err(e) => TickRead(r.(sc := k), on, phase, b, children) == Err(e)
            case Ok(r1) => TickRead(r.(sc := k), on, phase, b, children) == Ok(r1.(sc := k))
    decreases |children|
  {
    if children != [] {
      ReadOneIgnoresCounter(r, k, on, phase, b, children[0]);
      match TickReadOne(r, on, phase, b, children[0])
      case Err(e) =>
      case Ok(r1) => ReadIgnoresCounter(r1, k, on, phase, b, children[1..]);
    }
  }

  lemma AluIgnoresCounter(r: Registers, k: byte, on: set<Control>)
    ensures ProcessAlu(r.(sc := k), on) == ProcessAlu(r, on).(sc := k)
  {
  }

  lemma AddressesIgnoreCounter(r: Registers, k: byte, on: set<Control>)
    ensures ProcessPc(r.(sc := k), on) == ProcessPc(r, on).(sc := k)
    ensures ProcessMar(r.(sc := k), on) == ProcessMar(r, on).(sc := k)
  {
  }

  lemma SimpleIgnoresCounter(r: Registers, k: byte, on: set<Control>, irqLine: bool, c: Component)
    ensures ProcessSimple(r.(sc := k), on, irqLine, c) == ProcessSimple(r, on, irqLine, c).(sc := k)
  {
    match c
    case Flag(_) => case Ir => case Controller => case Ipc =>
    case PcLow => case PcHigh => case MarLow => case MarHigh =>
    case _ =>
  }

  lemma ComputedIgnoresCounter(r: Registers, k: byte, on: set<Control>, c: Component)
    ensures NoCounter(ProcessComputed(r.(sc := k), on, c)) == NoCounter(ProcessComputed(r, on, c))
  {
    match c
    case Alu => AluIgnoresCounter(r, k, on);
    case Pc => AddressesIgnoreCounter(r, k, on);
    case Mar => AddressesIgnoreCounter(r, k, on);
    case _ =>
  }

  lemma ProcessOneIgnoresCounter(r: Registers, k: byte, on: set<Control>, irqLine: bool, c: Component)
    ensures NoCounter(ProcessOne(r.(sc := k), on, irqLine, c)) == NoCounter(ProcessOne(r, on, irqLine, c))
  {
    if Computes(c) {
      ComputedIgnoresCounter(r, k, on, c);
    } else {
      SimpleIgnoresCounter(r, k, on, irqLine, c);
    }
  }

  lemma {:induction false} ProcessIgnoresCounter(r: Registers, k: byte, on: set<Control>, irqLine: bool, children: seq<Component>)
    ensures NoCounter(TickProcess(r.(sc := k), on, irqLine, children)) == NoCounter(TickProcess(r, on, irqLine, children))
    decreases |children|
  {
    if children != [] {
      ProcessOneIgnoresCounter(r, k, on, irqLine, children[0]);
      var r1 := ProcessOne(r, on, irqLine, children[0]);
      var q1 := ProcessOne(r.(sc := k), on, irqLine, children[0]);
      assert q1 == r1.(sc := q1.sc);
      ProcessIgnoresCounter(r1, q1.sc, on, irqLine, children[1..]);
    }
  }

  /** With the controls given, the sequence counter and the cycle count influence nothing else. */
  lemma TickIgnoresCounter(children: seq<Component>, m: Machine, n: Machine, controls: set<Control>)
    requires Core(m) == Core(n)
    ensures SameCore(Tick(children, m, controls, None), Tick(children, n, controls, None))
  {
    if !m.halted {
      assert n.regs == m.regs.(sc := n.regs.sc);
      var s := m.asserted + controls;
      var k := n.regs.sc;
      WriteIgnoresCounter(m.regs, k, OfPhase(s, WritePhase), WritePhase, m.buses, children);
      var w := TickWrite(m.regs, OfPhase(s, WritePhase), WritePhase, m.buses, children);
      if w.Ok? {
        ReadIgnoresCounter(m.regs, k, OfPhase(s, ReadPhase), ReadPhase, w.value, children);
        var r := TickRead(m.regs, OfPhase(s, ReadPhase), ReadPhase, w.value, children);
        if r.Ok? {
          ProcessIgnoresCounter(r.value, k, OfPhase(s, ProcessPhase), AssertControls(m, controls, None).irqLine, children);
        }
      }
    }
  }

  // ---------------------------------------------------------------- the sequence counter's controls aside

  /** The same controls, those of the sequence counter aside. */
  ghost predicate AgreeAside(on: set<Control>, other: set<Control>) {
    forall c: Component, op: Operation | !c.Sc? :: On(on, c, op) == On(other, c, op)
  }

  lemma AluOpcodeAside(on: set<Control>, other: set<Control>)
    requires AgreeAside(on, other)
    ensures AluOpcode(on) == AluOpcode(other)
  {
  }

  lemma ComputedAside(r: Registers, on: set<Control>, other: set<Control>, c: Component)
    requires AgreeAside(on, other)
    ensures NoCounter(ProcessComputed(r, on, c)) == NoCounter(ProcessComputed(r, other, c))
  {
    AluOpcodeAside(on, other);
  }

  lemma SimpleAside(r: Registers, on: set<Control>, other: set<Control>, irqLine: bool, c: Component)
    requires AgreeAside(on, other)
    ensures ProcessSimple(r, on, irqLine, c) == ProcessSimple(r, other, irqLine, c)
  {
  }

  lemma {:induction false} ProcessAside(r: Registers, on: set<Control>, other: set<Control>, irqLine: bool,
                                        children: seq<Component>)
    requires AgreeAside(on, other)
    ensures NoCounter(TickProcess(r, on, irqLine, children)) == NoCounter(TickProcess(r, other, irqLine, children))
    decreases |children|
  {
    if children != [] {
      var c := children[0];
      var r1, r2 := ProcessOne(r, on, irqLine, c), ProcessOne(r, other, irqLine, c);
      if Computes(c) {
        ComputedAside(r, on, other, c);
      } else {
        SimpleAside(r, on, other, irqLine, c);
      }
      assert r2 == r1.(sc := r2.sc);
      ProcessAside(r1, on, other, irqLine, children[1..]);
      ProcessIgnoresCounter(r1, r2.sc, other, irqLine, children[1..]);
    }
  }

  /** Counter controls are seen in the process phase only. */
  lemma PhasesAside(s: set<Control>, t: set<Control>)
    requires AgreeAside(s, t)
    ensures OfPhase(s, WritePhase) == OfPhase(t, WritePhase) && OfPhase(s, ReadPhase) == OfPhase(t, ReadPhase)
    ensures AgreeAside(OfPhase(s, ProcessPhase), OfPhase(t, ProcessPhase))
  {
    forall c: Control | c.Phase() != ProcessPhase ensures c in s <==> c in t {
      assert On(s, c.component, c.operation) == On(t, c.component, c.operation);
    }
    var on, other := OfPhase(s, ProcessPhase), OfPhase(t, ProcessPhase);
    forall c: Component, op: Operation | !c.Sc? ensures On(on, c, op) == On(other, c, op) {
      assert On(s, c, op) == On(t, c, op);
    }
  }

  /** What the sequence counter is told influences nothing but the counter: a raw step and the step with the
      compiler's increment or reset do the same. */
  lemma CounterControlsAside(children: seq<Component>, m: Machine, s: set<Control>, t: set<Control>)
    requires Idle(m) && AgreeAside(s, t)
    ensures SameCore(Tick(children, m, s, None), Tick(children, m, t, None))
  {
    if !m.halted {
      PhasesAside(s, t);
      TickShape(children, m, s);
      TickShape(children, m, t);
      var m1, m2 := AssertControls(m, s, None), AssertControls(m, t, None);
      assert m1.asserted == s && m2.asserted == t;
      assert m1.irqLine == m2.irqLine by { assert On(s, IrqLine, Raise) == On(t, IrqLine, Raise); }
      var on, other := OfPhase(s, ProcessPhase), OfPhase(t, ProcessPhase);
      if Transfers(children, m, s).Ok? {
        ProcessAside(Transfers(children, m, s).value, on, other, m1.irqLine, children);
        assert On(on, Halt, Raise) == On(other, Halt, Raise) && On(on, Crash, Raise) == On(other, Crash, Raise);
        assert On(on, Controller, InstructionStart) == On(other, Controller, InstructionStart);
      }
    }
  }

  // ---------------------------------------------------------------- idempotent steps

  /** Repeating the tick changes nothing but the cycle count and the sequence counter. */
  ghost predicate Idempotent(children: seq<Component>, s: set<Control>) {
    forall m | Idle(m) && !m.halted :: SameCore(TickTwice(children, m, s, s), Tick(children, m, s, None))
  }

  lemma TwiceAside(children: seq<Component>, m: Machine, s: set<Control>, t: set<Control>)
    requires Idle(m) && AgreeAside(s, t)
    ensures SameCore(TickTwice(children, m, s, s), TickTwice(children, m, t, t))
  {
    var once, other := Tick(children, m, s, None), Tick(children, m, t, None);
    CounterControlsAside(children, m, s, t);
    if once.Ok? {
      OneMoreTick(children, once, other, s);
      TickEndsIdle(children, m, t);
      CounterControlsAside(children, other.value, s, t);
      SameCoreThrough(TickTwice(children, m, s, s), Tick(children, other.value, s, None), TickTwice(children, m, t, t));
    }
  }

  lemma TickEndsIdle(children: seq<Component>, m: Machine, s: set<Control>)
    requires Idle(m)
    ensures Tick(children, m, s, None).Ok? ==> Idle(Tick(children, m, s, None).value)
  {
  }

  lemma IdempotentCarries(children: seq<Component>, s: set<Control>, t: set<Control>)
    requires AgreeAside(s, t) && Idempotent(children, s)
    ensures Idempotent(children, t)
  {
    forall m | Idle(m) && !m.halted ensures SameCore(TickTwice(children, m, t, t), Tick(children, m, t, None)) {
      TwiceAside(children, m, s, t);
      CounterControlsAside(children, m, s, t);
      assert SameCore(TickTwice(children, m, s, s), Tick(children, m, s, None));
    }
  }

  /** Whether a step may be repeated does not depend on what it tells the sequence counter. */
  lemma IdempotentAside(children: seq<Component>, s: set<Control>, t: set<Control>)
    requires AgreeAside(s, t)
    ensures Idempotent(children, s) <==> Idempotent(children, t)
  {
    if Idempotent(children, s) { IdempotentCarries(children, s, t); }
    if Idempotent(children, t) {
      assert AgreeAside(t, s);
      IdempotentCarries(children, t, s);
    }
  }

  /** Every adjacent repeated step is idempotent. */
  ghost predicate RepeatsIdempotent(children: seq<Component>, steps: seq<Step>) {
    forall i | 0 < i < |steps| && steps[i] == steps[i - 1] :: Idempotent(children, AsSet(steps[i].controls))
  }

  lemma {:induction false} DeduplicatedLast(steps: seq<Step>)
    requires steps != []
    ensures Deduplicated(steps) != [] && Last(Deduplicated(steps)) == Last(steps)
  {
  }

  lemma OneMoreTick(children: seq<Component>, a: Result<Machine, SimError>, b: Result<Machine, SimError>, s: set<Control>)
    requires SameCore(a, b)
    ensures a.Ok? ==> SameCore(Tick(children, a.value, s, None), Tick(children, b.value, s, None))
  {
    if a.Ok? { TickIgnoresCounter(children, a.value, b.value, s); }
  }

  lemma SameCoreThrough(a: Result<Machine, SimError>, b: Result<Machine, SimError>, c: Result<Machine, SimError>)
    requires SameCore(a, b) && SameCore(b, c)
    ensures SameCore(a, c)
  {
  }

  /** Running a list with one more step is running that step afterwards. */
  lemma RunSnoc(children: seq<Component>, m: Machine, steps: seq<Step>, last: Step)
    ensures Run(children, m, steps + [last])
         == match Run(children, m, steps) case Ok(m1) => Tick(children, m1, AsSet(last.controls), None) case Err(e) => Err(e)
  {
    assert (steps + [last])[..|steps|] == steps;
  }

  /** Dropping a repeat of an idempotent last step keeps the run. */
  lemma DropRepeat(children: seq<Component>, m: Machine, steps: seq<Step>, last: Step, once: seq<Step>, twice: seq<Step>)
    requires ChildrenOk(children) && Idle(m) && Idempotent(children, AsSet(last.controls))
    requires forall i | 0 <= i < |steps| :: BusOk(steps[i].controls)
    requires once == steps + [last] && twice == once + [last]
    ensures SameCore(Run(children, m, once), Run(children, m, twice))
  {
    var s := AsSet(last.controls);
    RunSnoc(children, m, steps, last);
    RunSnoc(children, m, once, last);
    RunStaysIdle(children, m, steps);
    if Run(children, m, steps).Ok? {
      var m1 := Run(children, m, steps).value;
      if !m1.halted {
        assert SameCore(TickTwice(children, m1, s, s), Tick(children, m1, s, None));
      }
    }
  }

  lemma OneMoreStep(children: seq<Component>, m: Machine, a: seq<Step>, b: seq<Step>, last: Step, a1: seq<Step>, b1: seq<Step>)
    requires SameCore(Run(children, m, a), Run(children, m, b)) && a1 == a + [last] && b1 == b + [last]
    ensures SameCore(Run(children, m, a1), Run(children, m, b1))
  {
    RunSnoc(children, m, a, last);
    RunSnoc(children, m, b, last);
    OneMoreTick(children, Run(children, m, a), Run(children, m, b), AsSet(last.controls));
  }

  ghost predicate AllBusOk(steps: seq<Step>) {
    forall i | 0 <= i < |steps| :: BusOk(steps[i].controls)
  }

  lemma PrefixKeeps(children: seq<Component>, steps: seq<Step>, n: nat)
    requires RepeatsIdempotent(children, steps) && AllBusOk(steps) && n <= |steps|
    ensures RepeatsIdempotent(children, steps[..n]) && AllBusOk(steps[..n])
  {
  }

  lemma DropLastRepeat(children: seq<Component>, m: Machine, steps: seq<Step>, n: nat)
    requires ChildrenOk(children) && Idle(m) && RepeatsIdempotent(children, steps) && AllBusOk(steps)
    requires |steps| == n + 1 && n > 0 && steps[n] == steps[n - 1]
    ensures SameCore(Run(children, m, steps[..n]), Run(children, m, steps))
  {
    assert Idempotent(children, AsSet(steps[n].controls));
    PrefixKeeps(children, steps, n - 1);
    DropRepeat(children, m, steps[..n - 1], steps[n], steps[..n], steps);
  }

  lemma DeduplicatedCases(steps: seq<Step>, n: nat)
    requires |steps| == n + 1
    ensures (Deduplicated(steps) == Deduplicated(steps[..n]) && n > 0 && steps[n] == steps[n - 1])
         || Deduplicated(steps) == Deduplicated(steps[..n]) + [steps[n]]
  {
    if n > 0 { DeduplicatedLast(steps[..n]); }
  }

  /** From the collapsed list without the last step to the one with it. */
  lemma CollapseLast(children: seq<Component>, m: Machine, steps: seq<Step>, n: nat, before: seq<Step>, rest: seq<Step>,
                     all: seq<Step>)
    requires ChildrenOk(children) && Idle(m) && RepeatsIdempotent(children, steps) && AllBusOk(steps)
    requires |steps| == n + 1 && before == steps[..n] && SameCore(Run(children, m, rest), Run(children, m, before))
    requires (all == rest && n > 0 && steps[n] == steps[n - 1]) || all == rest + [steps[n]]
    ensures SameCore(Run(children, m, all), Run(children, m, steps))
  {
    if all == rest + [steps[n]] {
      assert steps == before + [steps[n]];
      OneMoreStep(children, m, rest, before, steps[n], all, steps);
    } else {
      DropLastRepeat(children, m, steps, n);
      SameCoreThrough(Run(children, m, rest), Run(children, m, before), Run(children, m, steps));
    }
  }

  /** Collapsing adjacent repeated steps keeps the run when each repeated step is idempotent. */
  lemma {:induction false} DeduplicationPreservesRuns(children: seq<Component>, m: Machine, steps: seq<Step>)
    requires ChildrenOk(children) && Idle(m) && RepeatsIdempotent(children, steps) && AllBusOk(steps)
    ensures SameCore(Run(children, m, Deduplicated(steps)), Run(children, m, steps))
    decreases |steps|
  {
    if steps != [] {
      var n := |steps| - 1;
      DeduplicatedCases(steps, n);
      PrefixKeeps(children, steps, n);
      DeduplicationPreservesRuns(children, m, steps[..n]);
      CollapseLast(children, m, steps, n, steps[..n], Deduplicated(steps[..n]), Deduplicated(steps));
    }
  }

  // ---------------------------------------------------------------- footprints

  /** What a control may depend on or change. */
  datatype Part = PA | PX | PY | PSp | PTmp | PLhs | PRhs | PResult | PPc | PPcOffset | PStatus | PAnalyzer
    | PIr | PInject | PIpc | PMar | PMarOffset | PRam | Nothing

  function PartOf(c: Component): Part {
    match c
    case A => PA
    case X => PX
    case Y => PY
    case Sp => PSp
    case Tmp => PTmp
    case AluLhs => PLhs
    case AluRhs => PRhs
    case AluResult => PResult
    case Pc | PcLow | PcHigh => PPc
    case PcOffset => PPcOffset
    case Status | Flag(_) => PStatus
    case Analyzer => PAnalyzer
    case Ir => PIr
    case Memory => PRam
    case Mar | MarLow | MarHigh => PMar
    case MarOffset => PMarOffset
    case _ => Nothing
  }

  predicate SamePart(r: Registers, q: Registers, p: Part) {
    match p
    case PA => r.a == q.a
    case PX => r.x == q.x
    case PY => r.y == q.y
    case PSp => r.sp == q.sp
    case PTmp => r.tmp == q.tmp
    case PLhs => r.lhs == q.lhs
    case PRhs => r.rhs == q.rhs
    case PResult => r.result == q.result
    case PPc => r.pc == q.pc
    case PPcOffset => r.pcOffset == q.pcOffset
    case PStatus => r.status == q.status
    case PAnalyzer => r.analyzer == q.analyzer
    case PIr => r.ir == q.ir
    case PInject => r.inject == q.inject
    case PIpc => r.ipc == q.ipc
    case PMar => r.mar == q.mar
    case PMarOffset => r.marOffset == q.marOffset
    case PRam => r.ram == q.ram
    case Nothing => true
  }

  /** The parts whose value a control passes on: the source of a bus transfer, or an address. */
  predicate Uses(c: Control, p: Part) {
    || (c.operation.Write? && (p == PartOf(c.component) || (c.component.Memory? && p == PMar)))
    || (c.operation.Read? && c.component.Memory? && p == PMar)
    || (c.operation.InstructionStart? && (p == PPc || p == PStatus))
    || (c.operation.Latch? && p == PPc)
  }

  /** The parts a control overwrites. */
  predicate Changes(c: Control, p: Part) {
    || ((c.operation.Read? || c.operation.Reset? || c.operation.Set? || c.operation.Clear?) && p == PartOf(c.component))
    || (c.operation.Read? && c.component.Analyzer? && p == PStatus)
    || (c.operation.Reset? && c.component.Ir? && p == PInject)
    || (c.operation.InstructionStart? && (p == PInject || p == PIpc))
    || (c.operation.Latch? && p == PIpc)
  }

  /** Operations that overwrite with a value of their own: no arithmetic, except on the counter set aside. */
  predicate Overwrites(c: Control) {
    || c.component.Sc?
    || c.operation.Write? || c.operation.Read? || c.operation.Reset? || c.operation.Set? || c.operation.Clear?
    || c.operation.Raise? || c.operation.InstructionStart? || c.operation.Latch?
  }

  /** The syntactic class: overwriting controls only, and nothing that is used is also changed. In
      particular no address-register port is fed from memory, whose next read would use the new address. */
  ghost predicate Settled(s: set<Control>) {
    && (forall c | c in s :: Overwrites(c))
    && (forall c, d, p | c in s && d in s && Uses(c, p) && Changes(d, p) :: p == Nothing)
  }

  ghost predicate Unchanged(s: set<Control>, p: Part) {
    p != Nothing && forall d | d in s :: !Changes(d, p)
  }

  // ---------------------------------------------------------------- parts that a settled step leaves alone

  lemma ReadOneFrame(s: set<Control>, r: Registers, on: set<Control>, phase: Phase, b: Buses, c: Component, p: Part)
    requires on <= s && Unchanged(s, p) && TickReadOne(r, on, phase, b, c).Ok?
    ensures SamePart(r, TickReadOne(r, on, phase, b, c).value, p)
  {
    if On(on, c, Read) && PortOf(c) != NoBus {
      var d: Control := ControlInfo(c, Read);
      assert !Changes(d, p);
    }
  }

  lemma {:induction false} ReadFrame(s: set<Control>, r: Registers, on: set<Control>, phase: Phase, b: Buses,
                                     children: seq<Component>, p: Part)
    requires on <= s && Unchanged(s, p) && TickRead(r, on, phase, b, children).Ok?
    ensures SamePart(r, TickRead(r, on, phase, b, children).value, p)
    decreases |children|
  {
    if children != [] {
      ReadOneFrame(s, r, on, phase, b, children[0], p);
      var r1 := TickReadOne(r, on, phase, b, children[0]).value;
      ReadFrame(s, r1, on, phase, b, children[1..], p);
    }
  }

  /** Arithmetic operations do nothing when none of their controls is asserted. */
  lemma NoArithmetic(r: Registers, on: set<Control>)
    requires forall c | c in on :: Overwrites(c)
    ensures ProcessAlu(r, on) == r
    ensures ProcessPc(r, on) == if On(on, Pc, Reset) then r.(pc := 0) else r
    ensures ProcessMar(r, on) == r
    ensures ProcessCounter(on, Sp, r.sp) == if On(on, Sp, Reset) then 0 else r.sp
  {
    forall c: Control | !Overwrites(c) ensures c !in on {
    }
    assert !On(on, Component.Alu, OpcodeBit(0)) && !On(on, Component.Alu, OpcodeBit(1));
    assert !On(on, Component.Alu, OpcodeBit(2)) && !On(on, Component.Alu, OpcodeBit(3));
    assert AluOpcode(on) == 0;
    assert !On(on, Pc, Increment) && !On(on, Pc, AddSignedOffset);
    assert !On(on, Mar, InterruptVector) && !On(on, Mar, StackPage);
    assert !On(on, Mar, Increment) && !On(on, Mar, AddOffset);
    assert !On(on, Sp, Increment) && !On(on, Sp, Decrement);
  }

  lemma ComputedFrame(s: set<Control>, r: Registers, on: set<Control>, c: Component, p: Part)
    requires on <= s && Unchanged(s, p) && forall d | d in on :: Overwrites(d)
    ensures SamePart(r, ProcessComputed(r, on, c), p)
  {
    var reset: Control := ControlInfo(c, Reset);
    assert reset in on ==> !Changes(reset, p);
    NoArithmetic(r, on);
  }

  lemma SimpleFrame(s: set<Control>, r: Registers, on: set<Control>, irqLine: bool, c: Component, p: Part)
    requires on <= s && Unchanged(s, p) && !Computes(c)
    ensures SamePart(r, ProcessSimple(r, on, irqLine, c), p)
  {
    var reset: Control := ControlInfo(c, Reset);
    var start: Control := ControlInfo(Controller, InstructionStart);
    assert reset in on ==> !Changes(reset, p);
    match c
    case Flag(bit) =>
      var setFlag: Control, clear: Control := ControlInfo(c, Set), ControlInfo(c, Clear);
      assert setFlag in on ==> !Changes(setFlag, p);
      assert clear in on ==> !Changes(clear, p);
    case Controller => assert start in on ==> !Changes(start, p);
    case Ir => assert start in on ==> !Changes(start, p);
    case Ipc =>
      var latch: Control := ControlInfo(Ipc, Latch);
      assert latch in on ==> !Changes(latch, p);
    case _ =>
  }

  lemma ProcessOneFrame(s: set<Control>, r: Registers, on: set<Control>, irqLine: bool, c: Component, p: Part)
    requires on <= s && Unchanged(s, p) && forall d | d in on :: Overwrites(d)
    ensures SamePart(r, ProcessOne(r, on, irqLine, c), p)
  {
    if Computes(c) {
      ComputedFrame(s, r, on, c, p);
    } else {
      SimpleFrame(s, r, on, irqLine, c, p);
    }
  }

  lemma {:induction false} ProcessFrame(s: set<Control>, r: Registers, on: set<Control>, irqLine: bool,
                                        children: seq<Component>, p: Part)
    requires on <= s && Unchanged(s, p) && forall d | d in on :: Overwrites(d)
    ensures SamePart(r, TickProcess(r, on, irqLine, children), p)
    decreases |children|
  {
    if children != [] {
      ProcessOneFrame(s, r, on, irqLine, children[0], p);
      ProcessFrame(s, ProcessOne(r, on, irqLine, children[0]), on, irqLine, children[1..], p);
    }
  }

  /** Registers that agree on every part that a step leaves alone. */
  ghost predicate AgreeOutside(s: set<Control>, r: Registers, q: Registers) {
    r.rom == q.rom && forall p | Unchanged(s, p) :: SamePart(r, q, p)
  }

  lemma WriteOneFromParts(s: set<Control>, r: Registers, q: Registers, on: set<Control>, b: Buses, c: Component)
    requires on <= s && Settled(s) && AgreeOutside(s, r, q)
    ensures TickWriteOne(q, on, WritePhase, b, c) == TickWriteOne(r, on, WritePhase, b, c)
  {
    if On(on, c, Write) && PortOf(c) != NoBus {
      var d: Control := ControlInfo(c, Write);
      assert Uses(d, PartOf(c)) && PartOf(c) != Nothing;
      assert Unchanged(s, PartOf(c));
      if c.Memory? {
        assert Uses(d, PMar);
        assert Unchanged(s, PMar);
      }
    }
  }

  /** The write phase of a settled step puts the same values on the buses the second time. */
  lemma {:induction false} WriteFromParts(s: set<Control>, r: Registers, q: Registers, on: set<Control>, b: Buses,
                                          children: seq<Component>)
    requires on <= s && Settled(s) && AgreeOutside(s, r, q)
    ensures TickWrite(q, on, WritePhase, b, children) == TickWrite(r, on, WritePhase, b, children)
    decreases |children|
  {
    if children != [] {
      WriteOneFromParts(s, r, q, on, b, children[0]);
      match TickWriteOne(r, on, WritePhase, b, children[0])
      case Err(e) =>
      case Ok(b1) => WriteFromParts(s, r, q, on, b1, children[1..]);
    }
  }

  // ---------------------------------------------------------------- the second run catches up with the first

  ghost predicate MixStatus(r: byte, q: byte, t: byte) {
    forall i: nat | i < 8 :: Bit(q, i) == Bit(r, i) || Bit(q, i) == Bit(t, i)
  }

  predicate MixWord(r: word, q: word, t: word) {
    (Low(q) == Low(r) || Low(q) == Low(t)) && (High(q) == High(r) || High(q) == High(t))
  }

  ghost predicate MixRam(r: Ram, q: Ram, t: Ram) {
    forall i | 0 <= i < 0x2000 :: q[i] == r[i] || q[i] == t[i]
  }

  /** In this part, every separately writable piece of `q` is that of `r` or that of `t`. */
  ghost predicate MixPart(r: Registers, q: Registers, t: Registers, p: Part) {
    match p
    case PA => q.a == r.a || q.a == t.a
    case PX => q.x == r.x || q.x == t.x
    case PY => q.y == r.y || q.y == t.y
    case PSp => q.sp == r.sp || q.sp == t.sp
    case PTmp => q.tmp == r.tmp || q.tmp == t.tmp
    case PLhs => q.lhs == r.lhs || q.lhs == t.lhs
    case PRhs => q.rhs == r.rhs || q.rhs == t.rhs
    case PResult => q.result == r.result || q.result == t.result
    case PPc => MixWord(r.pc, q.pc, t.pc)
    case PPcOffset => q.pcOffset == r.pcOffset || q.pcOffset == t.pcOffset
    case PStatus => MixStatus(r.status, q.status, t.status)
    case PAnalyzer => q.analyzer == r.analyzer || q.analyzer == t.analyzer
    case PIr => q.ir == r.ir || q.ir == t.ir
    case PInject => q.inject == r.inject || q.inject == t.inject
    case PIpc => q.ipc == r.ipc || q.ipc == t.ipc
    case PMar => MixWord(r.mar, q.mar, t.mar)
    case PMarOffset => q.marOffset == r.marOffset || q.marOffset == t.marOffset
    case PRam => MixRam(r.ram, q.ram, t.ram)
    case Nothing => q.rom == r.rom == t.rom
  }

  ghost predicate Mix(r: Registers, q: Registers, t: Registers) {
    forall p :: MixPart(r, q, t, p)
  }

  lemma MixFlag(r: byte, q: byte, t: byte, bit: nat, value: bool)
    requires bit < 8 && MixStatus(r, q, t)
    ensures MixStatus(WithFlag(r, bit, value), WithFlag(q, bit, value), t)
  {
    forall i: nat | i < 8
      ensures var r1, q1 := WithFlag(r, bit, value), WithFlag(q, bit, value); Bit(q1, i) == Bit(r1, i) || Bit(q1, i) == Bit(t, i)
    {
      BitOfWithBit(r, bit, value, i);
      BitOfWithBit(q, bit, value, i);
    }
  }

  lemma WordParts(high: byte, low: byte)
    ensures High(MakeWord(high, low)) == high && Low(MakeWord(high, low)) == low
  {
  }

  lemma MixLow(r: word, q: word, t: word, v: byte)
    requires MixWord(r, q, t)
    ensures MixWord(MakeWord(High(r), v), MakeWord(High(q), v), t)
  {
    WordParts(High(r), v);
    WordParts(High(q), v);
  }

  lemma MixHigh(r: word, q: word, t: word, v: byte)
    requires MixWord(r, q, t)
    ensures MixWord(MakeWord(v, Low(r)), MakeWord(v, Low(q)), t)
  {
    WordParts(v, Low(r));
    WordParts(v, Low(q));
  }

  /** The parts that storing into, resetting or latching a component can change. */
  predicate Touches(c: Component, p: Part) {
    || (p == PartOf(c) && p != Nothing)
    || (c.Analyzer? && p.PStatus?) || (c.Ir? && p.PInject?) || ((c.Controller? || c.Ipc?) && p.PIpc?)
  }

  /** A part that neither run changes stays mixed. */
  lemma MixSame(r: Registers, q: Registers, r1: Registers, q1: Registers, t: Registers, p: Part)
    requires MixPart(r, q, t, p) && SamePart(r, r1, p) && SamePart(q, q1, p) && r1.rom == r.rom && q1.rom == q.rom
    ensures MixPart(r1, q1, t, p)
  {
  }

  lemma StoreElsewhere(r: Registers, c: Component, v: byte, p: Part)
    requires StoreData(r, c, v).Ok?
    ensures !Touches(c, p) ==> SamePart(r, StoreData(r, c, v).value, p)
    ensures StoreData(r, c, v).value.rom == r.rom
  {
    match c
    case A => case X => case Y => case Sp => case AluLhs => case AluRhs => case AluResult =>
    case PcOffset => case Status => case Analyzer => case MarOffset => case Ir =>
    case PcLow => case PcHigh => case MarLow => case MarHigh => case Memory =>
    case _ => SameItself(r, p);
  }

  lemma MixStoreOwn(r: Registers, q: Registers, t: Registers, c: Component, v: byte, p: Part)
    requires MixPart(r, q, t, p) && StoreData(r, c, v).Ok? && StoreData(q, c, v).Ok? && (c.Memory? ==> r.mar == q.mar)
    requires Touches(c, p)
    ensures MixPart(StoreData(r, c, v).value, StoreData(q, c, v).value, t, p)
  {
    match c
    case PcLow => MixLow(r.pc, q.pc, t.pc, v);
    case PcHigh => MixHigh(r.pc, q.pc, t.pc, v);
    case MarLow => MixLow(r.mar, q.mar, t.mar, v);
    case MarHigh => MixHigh(r.mar, q.mar, t.mar, v);
    case Analyzer =>
      if p == PStatus {
        MixFlag(r.status, q.status, t.status, ZERO, v == 0);
        MixFlag(WithFlag(r.status, ZERO, v == 0), WithFlag(q.status, ZERO, v == 0), t.status, NEGATIVE, v >= 0x80);
      }
    case Memory => MixRamStore(r.ram, q.ram, t.ram, r.mar, v);
    case _ =>
  }

  lemma MixRamStore(r: Ram, q: Ram, t: Ram, a: word, v: byte)
    requires MixRam(r, q, t)
    ensures a < 0x2000 ==> MixRam(r[a := v], q[a := v], t)
  {
  }

  lemma SameStoreOk(r: Registers, q: Registers, c: Component, v: byte)
    requires StoreData(r, c, v).Ok? && (c.Memory? ==> r.mar == q.mar)
    ensures StoreData(q, c, v).Ok?
  {
  }

  lemma MixStoreData(r: Registers, q: Registers, t: Registers, c: Component, v: byte, p: Part)
    requires MixPart(r, q, t, p) && StoreData(r, c, v).Ok? && (c.Memory? ==> r.mar == q.mar)
    ensures StoreData(q, c, v).Ok?
    ensures MixPart(StoreData(r, c, v).value, StoreData(q, c, v).value, t, p)
  {
    SameStoreOk(r, q, c, v);
    if Touches(c, p) {
      MixStoreOwn(r, q, t, c, v, p);
    } else {
      StoreElsewhere(r, c, v, p);
      StoreElsewhere(q, c, v, p);
      MixSame(r, q, StoreData(r, c, v).value, StoreData(q, c, v).value, t, p);
    }
  }

  lemma MixStoreAddress(r: Registers, q: Registers, t: Registers, c: Component, v: word, p: Part)
    requires MixPart(r, q, t, p)
    ensures MixPart(StoreAddress(r, c, v), StoreAddress(q, c, v), t, p)
  {
    StoreAddressElsewhere(r, c, v, p);
    StoreAddressElsewhere(q, c, v, p);
    if p != PartOf(c) || p == Nothing {
      MixSame(r, q, StoreAddress(r, c, v), StoreAddress(q, c, v), t, p);
    } else {
      match c
      case Tmp =>
      case Pc =>
      case Mar =>
      case _ => MixSame(r, q, r, q, t, p);
    }
  }

  lemma StoreAddressElsewhere(r: Registers, c: Component, v: word, p: Part)
    ensures p != PartOf(c) || p == Nothing ==> SamePart(r, StoreAddress(r, c, v), p)
    ensures StoreAddress(r, c, v).rom == r.rom
  {
    match c
    case Tmp =>
    case Pc =>
    case Mar =>
    case _ => SameItself(r, p);
  }

  lemma SameItself(r: Registers, p: Part)
    ensures SamePart(r, r, p)
  {
  }

  lemma MixReadOne(s: set<Control>, r: Registers, q: Registers, t: Registers, on: set<Control>, b: Buses, c: Component)
    requires on <= s && Settled(s) && AgreeOutside(s, r, q) && Mix(r, q, t)
    requires TickReadOne(r, on, ReadPhase, b, c).Ok?
    ensures TickReadOne(q, on, ReadPhase, b, c).Ok?
    ensures Mix(TickReadOne(r, on, ReadPhase, b, c).value, TickReadOne(q, on, ReadPhase, b, c).value, t)
  {
    if On(on, c, Read) && PortOf(c) != NoBus {
      var d: Control := ControlInfo(c, Read);
      if c.Memory? {
        assert Uses(d, PMar);
        assert Unchanged(s, PMar);
        assert SamePart(r, q, PMar);
      }
      forall p
        ensures TickReadOne(q, on, ReadPhase, b, c).Ok?
        ensures MixPart(TickReadOne(r, on, ReadPhase, b, c).value, TickReadOne(q, on, ReadPhase, b, c).value, t, p)
      {
        assert MixPart(r, q, t, p);
        if PortOf(c) == DataBus {
          MixStoreData(r, q, t, c, SampleBus(b.data, ReadPhase).value, p);
        } else {
          MixStoreAddress(r, q, t, c, SampleBus(b.address, ReadPhase).value, p);
        }
      }
    }
  }

  lemma AgreeKept(s: set<Control>, r: Registers, q: Registers, r1: Registers, q1: Registers)
    requires AgreeOutside(s, r, q) && r1.rom == r.rom && q1.rom == q.rom
    requires forall p | Unchanged(s, p) :: SamePart(r, r1, p) && SamePart(q, q1, p)
    ensures AgreeOutside(s, r1, q1)
  {
    forall p | Unchanged(s, p) ensures SamePart(r1, q1, p) {
      SameThrough(r, q, r1, q1, p);
    }
  }

  lemma SameThrough(r: Registers, q: Registers, r1: Registers, q1: Registers, p: Part)
    requires SamePart(r, q, p) && SamePart(r, r1, p) && SamePart(q, q1, p)
    ensures SamePart(r1, q1, p)
  {
  }

  lemma ReadOneKeepsRom(r: Registers, on: set<Control>, b: Buses, c: Component)
    requires TickReadOne(r, on, ReadPhase, b, c).Ok?
    ensures TickReadOne(r, on, ReadPhase, b, c).value.rom == r.rom
  {
  }

  lemma AgreeAfterRead(s: set<Control>, r: Registers, q: Registers, on: set<Control>, b: Buses, c: Component)
    requires on <= s && AgreeOutside(s, r, q)
    requires TickReadOne(r, on, ReadPhase, b, c).Ok? && TickReadOne(q, on, ReadPhase, b, c).Ok?
    ensures AgreeOutside(s, TickReadOne(r, on, ReadPhase, b, c).value, TickReadOne(q, on, ReadPhase, b, c).value)
  {
    var r1, q1 := TickReadOne(r, on, ReadPhase, b, c).value, TickReadOne(q, on, ReadPhase, b, c).value;
    forall p | Unchanged(s, p) ensures SamePart(r, r1, p) && SamePart(q, q1, p) {
      ReadOneFrame(s, r, on, ReadPhase, b, c, p);
      ReadOneFrame(s, q, on, ReadPhase, b, c, p);
    }
    ReadOneKeepsRom(r, on, b, c);
    ReadOneKeepsRom(q, on, b, c);
    AgreeKept(s, r, q, r1, q1);
  }

  lemma {:induction false} MixRead(s: set<Control>, r: Registers, q: Registers, t: Registers, on: set<Control>, b: Buses,
                                   children: seq<Component>)
    requires on <= s && Settled(s) && AgreeOutside(s, r, q) && Mix(r, q, t)
    requires TickRead(r, on, ReadPhase, b, children).Ok?
    ensures TickRead(q, on, ReadPhase, b, children).Ok?
    ensures Mix(TickRead(r, on, ReadPhase, b, children).value, TickRead(q, on, ReadPhase, b, children).value, t)
    ensures AgreeOutside(s, TickRead(r, on, ReadPhase, b, children).value, TickRead(q, on, ReadPhase, b, children).value)
    decreases |children|
  {
    if children != [] {
      var c := children[0];
      MixReadOne(s, r, q, t, on, b, c);
      AgreeAfterRead(s, r, q, on, b, c);
      MixRead(s, TickReadOne(r, on, ReadPhase, b, c).value, TickReadOne(q, on, ReadPhase, b, c).value, t, on, b, children[1..]);
    }
  }

  lemma UsedAgrees(s: set<Control>, r: Registers, q: Registers, d: Control, p: Part)
    requires Settled(s) && AgreeOutside(s, r, q) && d in s && Uses(d, p) && p != Nothing
    ensures SamePart(r, q, p)
  {
    assert Unchanged(s, p);
  }

  lemma MixQuietOne(r: Registers, q: Registers, t: Registers, on: set<Control>, c: Component, p: Part)
    requires MixPart(r, q, t, p) && forall d | d in on :: Overwrites(d)
    ensures MixPart(ProcessComputed(r, on, c), ProcessComputed(q, on, c), t, p)
  {
    QuietElsewhere(r, on, c, p);
    QuietElsewhere(q, on, c, p);
    if (c.Pc? && p.PPc?) || (c.Sp? && p.PSp?) {
      NoArithmetic(r, on);
      NoArithmetic(q, on);
    } else {
      MixSame(r, q, ProcessComputed(r, on, c), ProcessComputed(q, on, c), t, p);
    }
  }

  lemma QuietElsewhere(r: Registers, on: set<Control>, c: Component, p: Part)
    requires forall d | d in on :: Overwrites(d)
    ensures !(c.Pc? && p.PPc?) && !(c.Sp? && p.PSp?) ==> SamePart(r, ProcessComputed(r, on, c), p)
    ensures ProcessComputed(r, on, c).rom == r.rom
  {
    NoArithmetic(r, on);
    match c
    case Alu | Pc | Mar | Sp | Sc =>
    case _ =>
  }

  /** The instruction-start and latch controls pass on the same program counter and flags. */
  ghost predicate SameInputs(r: Registers, q: Registers, on: set<Control>) {
    && (On(on, Controller, InstructionStart) ==> r.pc == q.pc && r.status == q.status)
    && (On(on, Ipc, Latch) ==> r.pc == q.pc)
  }

  lemma MixFlagOne(r: Registers, q: Registers, t: Registers, on: set<Control>, bit: nat, p: Part)
    requires MixPart(r, q, t, p)
    ensures MixPart(ProcessFlag(r, on, bit), ProcessFlag(q, on, bit), t, p)
  {
    if bit < 8 && p == PStatus { MixFlag(r.status, q.status, t.status, bit, On(on, Flag(bit), Set)); }
  }

  /** The components whose process phase only resets their own register. */
  predicate OnlyResets(c: Component) {
    c.A? || c.X? || c.Y? || c.Tmp? || c.AluLhs? || c.AluRhs? || c.AluResult? || c.PcOffset? || c.Analyzer? || c.MarOffset?
  }

  lemma ResetElsewhere(r: Registers, on: set<Control>, irqLine: bool, c: Component, p: Part)
    requires OnlyResets(c)
    ensures !Touches(c, p) ==> SamePart(r, ProcessSimple(r, on, irqLine, c), p)
    ensures ProcessSimple(r, on, irqLine, c).rom == r.rom
  {
    match c
    case A => case X => case Y => case Tmp => case AluLhs => case AluRhs => case AluResult =>
    case PcOffset => case Analyzer => case MarOffset =>
  }

  lemma SimpleElsewhere(r: Registers, on: set<Control>, irqLine: bool, c: Component, p: Part)
    ensures !Touches(c, p) ==> SamePart(r, ProcessSimple(r, on, irqLine, c), p)
    ensures ProcessSimple(r, on, irqLine, c).rom == r.rom
  {
    if OnlyResets(c) {
      ResetElsewhere(r, on, irqLine, c, p);
    } else {
      match c
      case Status => case Flag(_) => case Ir => case Controller => case Ipc =>
      case PcLow => case PcHigh => case MarLow => case MarHigh =>
      case _ => SameItself(r, p);
    }
  }

  lemma MixIrOwn(r: Registers, q: Registers, t: Registers, on: set<Control>, irqLine: bool, p: Part)
    requires MixPart(r, q, t, p) && MixStatusBit(r, q, on) && (p.PIr? || p.PInject?)
    ensures MixPart(ProcessIr(r, on, irqLine), ProcessIr(q, on, irqLine), t, p)
  {
  }

  /** The interrupt-disable flag read at instruction start is the same. */
  ghost predicate MixStatusBit(r: Registers, q: Registers, on: set<Control>) {
    On(on, Controller, InstructionStart) ==> r.status == q.status
  }

  lemma MixIpcOwn(r: Registers, q: Registers, t: Registers, on: set<Control>, irqLine: bool, c: Component)
    requires MixPart(r, q, t, PIpc) && SameInputs(r, q, on) && (c.Controller? || c.Ipc?)
    ensures MixPart(ProcessSimple(r, on, irqLine, c), ProcessSimple(q, on, irqLine, c), t, PIpc)
  {
  }

  lemma MixResetOwn(r: Registers, q: Registers, t: Registers, on: set<Control>, irqLine: bool, c: Component)
    requires MixPart(r, q, t, PartOf(c)) && OnlyResets(c)
    ensures MixPart(ProcessSimple(r, on, irqLine, c), ProcessSimple(q, on, irqLine, c), t, PartOf(c))
  {
    match c
    case A => case X => case Y => case Tmp => case AluLhs => case AluRhs => case AluResult =>
    case PcOffset => case Analyzer => case MarOffset =>
  }

  lemma MixPortOwn(r: Registers, q: Registers, t: Registers, on: set<Control>, irqLine: bool, c: Component, p: Part)
    requires MixPart(r, q, t, p) && p == PartOf(c) && (c.PcLow? || c.PcHigh? || c.MarLow? || c.MarHigh?)
    ensures MixPart(ProcessSimple(r, on, irqLine, c), ProcessSimple(q, on, irqLine, c), t, p)
  {
    match c
    case PcLow => MixLow(r.pc, q.pc, t.pc, 0);
    case PcHigh => MixHigh(r.pc, q.pc, t.pc, 0);
    case MarLow => MixLow(r.mar, q.mar, t.mar, 0);
    case MarHigh => MixHigh(r.mar, q.mar, t.mar, 0);
  }

  lemma MixStatusOwn(r: Registers, q: Registers, t: Registers, on: set<Control>, irqLine: bool, c: Component)
    requires MixPart(r, q, t, PStatus) && (c.Status? || c.Flag?)
    ensures MixPart(ProcessSimple(r, on, irqLine, c), ProcessSimple(q, on, irqLine, c), t, PStatus)
  {
    if c.Flag? { MixFlagOne(r, q, t, on, c.bit, PStatus); }
  }

  lemma MixPlainOwn(r: Registers, q: Registers, t: Registers, on: set<Control>, irqLine: bool, c: Component, p: Part)
    requires MixPart(r, q, t, p) && SameInputs(r, q, on) && Touches(c, p) && !Computes(c)
    ensures MixPart(ProcessSimple(r, on, irqLine, c), ProcessSimple(q, on, irqLine, c), t, p)
  {
    if OnlyResets(c) && p == PartOf(c) {
      MixResetOwn(r, q, t, on, irqLine, c);
    } else if c.PcLow? || c.PcHigh? || c.MarLow? || c.MarHigh? {
      MixPortOwn(r, q, t, on, irqLine, c, p);
    } else if c.Status? || c.Flag? {
      MixStatusOwn(r, q, t, on, irqLine, c);
    } else if c.Controller? || c.Ipc? {
      MixIpcOwn(r, q, t, on, irqLine, c);
    } else if c.Ir? {
      MixIrOwn(r, q, t, on, irqLine, p);
    } else {
      MixUntouched(r, q, t, on, irqLine, c, p);
    }
  }

  /** Memory is not processed, and resetting the analyzer leaves the flags alone. */
  lemma MixUntouched(r: Registers, q: Registers, t: Registers, on: set<Control>, irqLine: bool, c: Component, p: Part)
    requires MixPart(r, q, t, p) && (c.Memory? || (c.Analyzer? && p.PStatus?))
    ensures MixPart(ProcessSimple(r, on, irqLine, c), ProcessSimple(q, on, irqLine, c), t, p)
  {
  }

  lemma MixPlainOne(r: Registers, q: Registers, t: Registers, on: set<Control>, irqLine: bool, c: Component, p: Part)
    requires MixPart(r, q, t, p) && SameInputs(r, q, on) && !Computes(c)
    ensures MixPart(ProcessSimple(r, on, irqLine, c), ProcessSimple(q, on, irqLine, c), t, p)
  {
    if Touches(c, p) {
      MixPlainOwn(r, q, t, on, irqLine, c, p);
    } else {
      SimpleElsewhere(r, on, irqLine, c, p);
      SimpleElsewhere(q, on, irqLine, c, p);
      MixSame(r, q, ProcessSimple(r, on, irqLine, c), ProcessSimple(q, on, irqLine, c), t, p);
    }
  }

  lemma InputsAgree(s: set<Control>, r: Registers, q: Registers, on: set<Control>)
    requires on <= s && Settled(s) && AgreeOutside(s, r, q)
    ensures SameInputs(r, q, on)
  {
    var start: Control, latch: Control := ControlInfo(Controller, InstructionStart), ControlInfo(Ipc, Latch);
    if start in on {
      UsedAgrees(s, r, q, start, PPc);
      UsedAgrees(s, r, q, start, PStatus);
    }
    if latch in on { UsedAgrees(s, r, q, latch, PPc); }
  }

  lemma MixProcessOne(r: Registers, q: Registers, t: Registers, on: set<Control>, irqLine: bool, c: Component)
    requires Mix(r, q, t) && SameInputs(r, q, on) && forall d | d in on :: Overwrites(d)
    ensures Mix(ProcessOne(r, on, irqLine, c), ProcessOne(q, on, irqLine, c), t)
  {
    forall p ensures MixPart(ProcessOne(r, on, irqLine, c), ProcessOne(q, on, irqLine, c), t, p) {
      assert MixPart(r, q, t, p);
      if Computes(c) {
        MixQuietOne(r, q, t, on, c, p);
      } else {
        MixPlainOne(r, q, t, on, irqLine, c, p);
      }
    }
  }

  lemma AgreeAfterProcess(s: set<Control>, r: Registers, q: Registers, on: set<Control>, irqLine: bool, c: Component)
    requires on <= s && Settled(s) && AgreeOutside(s, r, q)
    ensures AgreeOutside(s, ProcessOne(r, on, irqLine, c), ProcessOne(q, on, irqLine, c))
  {
    var r1, q1 := ProcessOne(r, on, irqLine, c), ProcessOne(q, on, irqLine, c);
    forall p | Unchanged(s, p) ensures SamePart(r, r1, p) && SamePart(q, q1, p) {
      ProcessOneFrame(s, r, on, irqLine, c, p);
      ProcessOneFrame(s, q, on, irqLine, c, p);
    }
    RomStays(r, on, irqLine, c);
    RomStays(q, on, irqLine, c);
    AgreeKept(s, r, q, r1, q1);
  }

  lemma RomStays(r: Registers, on: set<Control>, irqLine: bool, c: Component)
    ensures ProcessOne(r, on, irqLine, c).rom == r.rom
  {
  }

  lemma {:induction false} MixProcess(s: set<Control>, r: Registers, q: Registers, t: Registers, on: set<Control>, irqLine: bool,
                                      children: seq<Component>)
    requires on <= s && Settled(s) && AgreeOutside(s, r, q) && Mix(r, q, t)
    ensures Mix(TickProcess(r, on, irqLine, children), TickProcess(q, on, irqLine, children), t)
    decreases |children|
  {
    if children != [] {
      var c := children[0];
      InputsAgree(s, r, q, on);
      MixProcessOne(r, q, t, on, irqLine, c);
      AgreeAfterProcess(s, r, q, on, irqLine, c);
      MixProcess(s, ProcessOne(r, on, irqLine, c), ProcessOne(q, on, irqLine, c), t, on, irqLine, children[1..]);
    }
  }

  lemma MixedPart(q: Registers, t: Registers, p: Part)
    requires MixPart(t, q, t, p)
    ensures SamePart(q, t, p)
  {
    if p == PStatus {
      Pow2Of8();
      SameLowBits(q.status, t.status, 8);
    }
  }

  lemma SameParts(q: Registers, t: Registers)
    requires q.rom == t.rom && forall p :: SamePart(q, t, p)
    ensures NoCounter(q) == NoCounter(t)
  {
    assert q.a == t.a by { assert SamePart(q, t, PA); }
    assert q.x == t.x by { assert SamePart(q, t, PX); }
    assert q.y == t.y by { assert SamePart(q, t, PY); }
    assert q.sp == t.sp by { assert SamePart(q, t, PSp); }
    assert q.tmp == t.tmp by { assert SamePart(q, t, PTmp); }
    assert q.lhs == t.lhs by { assert SamePart(q, t, PLhs); }
    assert q.rhs == t.rhs by { assert SamePart(q, t, PRhs); }
    assert q.result == t.result by { assert SamePart(q, t, PResult); }
    assert q.pc == t.pc by { assert SamePart(q, t, PPc); }
    assert q.pcOffset == t.pcOffset by { assert SamePart(q, t, PPcOffset); }
    assert q.status == t.status by { assert SamePart(q, t, PStatus); }
    assert q.analyzer == t.analyzer by { assert SamePart(q, t, PAnalyzer); }
    assert q.ir == t.ir by { assert SamePart(q, t, PIr); }
    assert q.inject == t.inject by { assert SamePart(q, t, PInject); }
    assert q.ipc == t.ipc by { assert SamePart(q, t, PIpc); }
    assert q.mar == t.mar by { assert SamePart(q, t, PMar); }
    assert q.marOffset == t.marOffset by { assert SamePart(q, t, PMarOffset); }
    assert q.ram == t.ram by { assert SamePart(q, t, PRam); }
  }

  lemma MixedWithItself(q: Registers, t: Registers)
    requires Mix(t, q, t)
    ensures NoCounter(q) == NoCounter(t)
  {
    assert MixPart(t, q, t, Nothing);
    forall p ensures SamePart(q, t, p) {
      assert MixPart(t, q, t, p);
      MixedPart(q, t, p);
    }
    SameParts(q, t);
  }

  // ---------------------------------------------------------------- settled steps are idempotent

  lemma AgreeAfterPhases(s: set<Control>, r: Registers, b: Buses, irqLine: bool, children: seq<Component>)
    requires Settled(s) && TickRead(r, OfPhase(s, ReadPhase), ReadPhase, b, children).Ok?
    ensures var r1 := TickRead(r, OfPhase(s, ReadPhase), ReadPhase, b, children).value;
            AgreeOutside(s, r, TickProcess(r1, OfPhase(s, ProcessPhase), irqLine, children))
  {
    var r1 := TickRead(r, OfPhase(s, ReadPhase), ReadPhase, b, children).value;
    var r2 := TickProcess(r1, OfPhase(s, ProcessPhase), irqLine, children);
    forall p | Unchanged(s, p) ensures SamePart(r, r2, p) {
      ReadFrame(s, r, OfPhase(s, ReadPhase), ReadPhase, b, children, p);
      ProcessFrame(s, r1, OfPhase(s, ProcessPhase), irqLine, children, p);
    }
    ReadKeepsRom(r, OfPhase(s, ReadPhase), b, children);
    ProcessKeepsRom(r1, OfPhase(s, ProcessPhase), irqLine, children);
  }

  lemma {:induction false} ReadKeepsRom(r: Registers, on: set<Control>, b: Buses, children: seq<Component>)
    ensures var x := TickRead(r, on, ReadPhase, b, children); x.Ok? ==> x.value.rom == r.rom
    decreases |children|
  {
    if children != [] && TickReadOne(r, on, ReadPhase, b, children[0]).Ok? {
      ReadKeepsRom(TickReadOne(r, on, ReadPhase, b, children[0]).value, on, b, children[1..]);
    }
  }

  lemma {:induction false} ProcessKeepsRom(r: Registers, on: set<Control>, irqLine: bool, children: seq<Component>)
    ensures TickProcess(r, on, irqLine, children).rom == r.rom
    decreases |children|
  {
    if children != [] {
      RomStays(r, on, irqLine, children[0]);
      ProcessKeepsRom(ProcessOne(r, on, irqLine, children[0]), on, irqLine, children[1..]);
    }
  }

  /** Starting the transfers and processing again from their own result changes nothing. */
  lemma SecondTimeSame(s: set<Control>, r: Registers, irqLine: bool, children: seq<Component>)
    requires Settled(s)
    requires TickWrite(r, OfPhase(s, WritePhase), WritePhase, EMPTY_BUSES, children).Ok?
    requires var b := TickWrite(r, OfPhase(s, WritePhase), WritePhase, EMPTY_BUSES, children).value;
             TickRead(r, OfPhase(s, ReadPhase), ReadPhase, b, children).Ok?
    ensures var b := TickWrite(r, OfPhase(s, WritePhase), WritePhase, EMPTY_BUSES, children).value;
            var r1 := TickRead(r, OfPhase(s, ReadPhase), ReadPhase, b, children).value;
            var t := TickProcess(r1, OfPhase(s, ProcessPhase), irqLine, children);
            && TickWrite(t, OfPhase(s, WritePhase), WritePhase, EMPTY_BUSES, children) == Ok(b)
            && TickRead(t, OfPhase(s, ReadPhase), ReadPhase, b, children).Ok?
            && NoCounter(TickProcess(TickRead(t, OfPhase(s, ReadPhase), ReadPhase, b, children).value,
                                     OfPhase(s, ProcessPhase), irqLine, children)) == NoCounter(t)
  {
    var b := TickWrite(r, OfPhase(s, WritePhase), WritePhase, EMPTY_BUSES, children).value;
    var r1 := TickRead(r, OfPhase(s, ReadPhase), ReadPhase, b, children).value;
    var t := TickProcess(r1, OfPhase(s, ProcessPhase), irqLine, children);
    AgreeAfterPhases(s, r, b, irqLine, children);
    WriteFromParts(s, r, t, OfPhase(s, WritePhase), EMPTY_BUSES, children);
    forall p ensures MixPart(r, t, t, p) {
    }
    MixRead(s, r, t, t, OfPhase(s, ReadPhase), b, children);
    var q1 := TickRead(t, OfPhase(s, ReadPhase), ReadPhase, b, children).value;
    MixProcess(s, r1, q1, t, OfPhase(s, ProcessPhase), irqLine, children);
    MixedWithItself(TickProcess(q1, OfPhase(s, ProcessPhase), irqLine, children), t);
  }

  /** A step of bus transfers, resets and flag operations in which nothing is both used and changed is
      idempotent. */
  lemma SettledIsIdempotent(children: seq<Component>, s: set<Control>)
    requires Settled(s)
    ensures Idempotent(children, s)
  {
    forall m | Idle(m) && !m.halted ensures SameCore(TickTwice(children, m, s, s), Tick(children, m, s, None)) {
      TickShape(children, m, s);
      if Transfers(children, m, s).Ok? {
        var m1 := Tick(children, m, s, None).value;
        var irqLine := AssertControls(m, s, None).irqLine;
        assert AssertControls(m, s, None).asserted == s && AssertControls(m1, s, None).irqLine == irqLine;
        SecondTimeSame(s, m.regs, irqLine, children);
        if !m1.halted {
          TickShape(children, m1, s);
          assert AssertControls(m1, s, None).asserted == s;
        }
      }
    }
  }
}
