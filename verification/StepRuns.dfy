/** Running step lists on the machine, and what step merging keeps. */
module StepRuns {
  import opened Wrappers
  import opened Bits
  import opened Hdl
  import opened Ir
  import opened Validators
  import opened Optimizers
  import opened Pipeline
  import opened Simulator
  import opened BusSafety

  // ---------------------------------------------------------------- phases with nothing asserted

  lemma {:induction false} WriteNothing(r: Registers, phase: Phase, b: Buses, children: seq<Component>)
    ensures TickWrite(r, {}, phase, b, children) == Ok(b)
    decreases |children|
  {
    if children != [] { WriteNothing(r, phase, b, children[1..]); }
  }

  lemma {:induction false} ReadNothing(r: Registers, phase: Phase, b: Buses, children: seq<Component>)
    ensures TickRead(r, {}, phase, b, children) == Ok(r)
    decreases |children|
  {
    if children != [] { ReadNothing(r, phase, b, children[1..]); }
  }

  lemma {:induction false} ProcessNothing(r: Registers, irqLine: bool, children: seq<Component>)
    ensures TickProcess(r, {}, irqLine, children) == r
    decreases |children|
  {
    if children != [] {
      assert ProcessOne(r, {}, irqLine, children[0]) == r;
      ProcessNothing(r, irqLine, children[1..]);
    }
  }

  // ---------------------------------------------------------------- equality up to the cycle count

  function Untimed(m: Machine): Machine {
    m.(cycles := 0)
  }

  /** The same machine up to the cycle count, or the same error. */
  predicate SameOutcome(a: Result<Machine, SimError>, b: Result<Machine, SimError>) {
    match a
    case Ok(m) => b.Ok? && Untimed(m) == Untimed(b.value)
    case Err(e) => b == Err(e)
  }

  /** The cycle count influences nothing. */
  lemma TickIgnoresCycles(children: seq<Component>, m: Machine, n: Machine, controls: set<Control>, irq: Option<bool>)
    requires Untimed(m) == Untimed(n)
    ensures SameOutcome(Tick(children, m, controls, irq), Tick(children, n, controls, irq))
  {
    assert n == m.(cycles := n.cycles);
  }

  /** Run steps over RAM and ROM only: nothing drives the interrupt line from outside. */
  function Run(children: seq<Component>, m: Machine, steps: seq<Step>): Result<Machine, SimError>
    decreases |steps|
  {
    if steps == [] then Ok(m)
    else
      match Run(children, m, steps[..|steps| - 1])
      case Ok(m1) => Tick(children, m1, AsSet(steps[|steps| - 1].controls), None)
      case Err(e) => Err(e)
  }

  lemma {:induction false} RunStaysIdle(children: seq<Component>, m: Machine, steps: seq<Step>)
    requires ChildrenOk(children) && Idle(m) && forall i | 0 <= i < |steps| :: BusOk(steps[i].controls)
    ensures Run(children, m, steps).Ok? ==> Idle(Run(children, m, steps).value)
    decreases |steps|
  {
    if steps != [] {
      var n := |steps| - 1;
      RunStaysIdle(children, m, steps[..n]);
      if Run(children, m, steps[..n]).Ok? {
        ValidStepNeverFaults(children, Run(children, m, steps[..n]).value, steps[n].controls, None);
      }
    }
  }

  /** Running one more step after equal outcomes gives equal outcomes. */
  lemma RunOneMore(children: seq<Component>, a: Result<Machine, SimError>, b: Result<Machine, SimError>, controls: set<Control>)
    requires SameOutcome(a, b)
    ensures a.Ok? ==> SameOutcome(Tick(children, a.value, controls, None), Tick(children, b.value, controls, None))
  {
    if a.Ok? { TickIgnoresCycles(children, a.value, b.value, controls, None); }
  }

  // ---------------------------------------------------------------- merging two steps

  lemma EmptyTick(children: seq<Component>, m: Machine)
    requires Idle(m) && !m.halted
    ensures Tick(children, m, {}, None) == Ok(m.(cycles := m.cycles + 1))
  {
    assert OfPhase({}, WritePhase) == {} && OfPhase({}, ReadPhase) == {} && OfPhase({}, ProcessPhase) == {};
    assert AssertControls(m, {}, None).asserted == {};
    WriteNothing(m.regs, WritePhase, m.buses, children);
    ReadNothing(m.regs, ReadPhase, m.buses, children);
    ProcessNothing(m.regs, m.irqLine, children);
  }

  ghost predicate OnlyTransfers(s: set<Control>) {
    forall c | c in s :: c.Phase() != ProcessPhase
  }

  ghost predicate OnlyProcess(s: set<Control>) {
    forall c | c in s :: c.Phase() == ProcessPhase
  }

  /** Two ticks, one after the other. */
  function TickTwice(children: seq<Component>, m: Machine, a: set<Control>, b: set<Control>): Result<Machine, SimError> {
    match Tick(children, m, a, None)
    case Err(e) => Err(e)
    case Ok(m1) => Tick(children, m1, b, None)
  }

  /** The write and read phases of a tick with these controls. */
  function Transfers(children: seq<Component>, m: Machine, s: set<Control>): Result<Registers, SimError> {
    match TickWrite(m.regs, OfPhase(s, WritePhase), WritePhase, m.buses, children)
    case Err(e) => Err(e)
    case Ok(b) => TickRead(m.regs, OfPhase(s, ReadPhase), ReadPhase, b, children)
  }

  /** A tick is its transfers followed by its process phase. */
  lemma TickShape(children: seq<Component>, m: Machine, s: set<Control>)
    requires Idle(m) && !m.halted
    ensures Transfers(children, m, s).Err? ==> Tick(children, m, s, None) == Err(Transfers(children, m, s).error)
    ensures Transfers(children, m, s).Ok? ==>
              Tick(children, m, s, None) ==
              Ok(ClearTick(RunProcess(children, AssertControls(m, s, None).(regs := Transfers(children, m, s).value))))
  {
    var m0 := AssertControls(m, s, None);
    assert m0.asserted == s;
    var w := TickWrite(m.regs, OfPhase(s, WritePhase), WritePhase, m.buses, children);
    if w.Ok? {
      var r := TickRead(m.regs, OfPhase(s, ReadPhase), ReadPhase, w.value, children);
      if r.Ok? { ClearForgetsBuses(children, m0, r.value, w.value); }
    }
  }

  /** What was on the buses is gone after the tick. */
  lemma ClearForgetsBuses(children: seq<Component>, m: Machine, r: Registers, b: Buses)
    ensures ClearTick(RunProcess(children, m.(phase := WritePhase, buses := b).(phase := ReadPhase, regs := r)))
         == ClearTick(RunProcess(children, m.(regs := r)))
  {
  }

  /** The registers after the transfers and at the end of a tick that succeeds. */
  lemma TickRegisters(children: seq<Component>, m: Machine, s: set<Control>) returns (r: Registers, x: Registers, irqLine: bool)
    requires Idle(m) && !m.halted && Tick(children, m, s, None).Ok?
    ensures Transfers(children, m, s) == Ok(r) && x == TickProcess(r, OfPhase(s, ProcessPhase), irqLine, children)
    ensures x == Tick(children, m, s, None).value.regs
  {
    TickShape(children, m, s);
    r := Transfers(children, m, s).value;
    var m0 := AssertControls(m, s, None);
    assert m0.asserted == s;
    irqLine := m0.irqLine;
    x := TickProcess(r, OfPhase(s, ProcessPhase), irqLine, children);
  }

  /** A tick without process controls is its transfers. */
  lemma TransferTick(children: seq<Component>, m: Machine, a: set<Control>)
    requires Idle(m) && !m.halted && OnlyTransfers(a)
    ensures Transfers(children, m, a).Err? ==> Tick(children, m, a, None) == Err(Transfers(children, m, a).error)
    ensures Transfers(children, m, a).Ok? ==>
              Tick(children, m, a, None) == Ok(m.(regs := Transfers(children, m, a).value, cycles := m.cycles + 1))
  {
    TickShape(children, m, a);
    if Transfers(children, m, a).Ok? {
      assert OfPhase(a, ProcessPhase) == {};
      var raise: Control := ControlInfo(IrqLine, Raise);
      assert raise.Phase() == ProcessPhase && raise !in a;
      assert AssertControls(m, a, None) == m.(phase := ControlPhase, asserted := a);
      ProcessNothing(Transfers(children, m, a).value, m.irqLine, children);
    }
  }

  /** A tick without transfers is its process phase. */
  lemma ProcessTick(children: seq<Component>, m: Machine, b: set<Control>)
    requires Idle(m) && !m.halted && OnlyProcess(b)
    ensures Tick(children, m, b, None) == Ok(ClearTick(RunProcess(children, AssertControls(m, b, None))))
  {
    assert OfPhase(b, WritePhase) == {} && OfPhase(b, ReadPhase) == {};
    WriteNothing(m.regs, WritePhase, m.buses, children);
    ReadNothing(m.regs, ReadPhase, m.buses, children);
    TickShape(children, m, b);
    assert AssertControls(m, b, None).(regs := m.regs) == AssertControls(m, b, None);
  }

  /** The transfer controls do not reach the process phase. */
  lemma LateControls(children: seq<Component>, m: Machine, a: set<Control>, b: set<Control>, r: Registers)
    requires Idle(m) && OnlyTransfers(a) && OnlyProcess(b)
    ensures var both, later := AssertControls(m, a + b, None).(regs := r), AssertControls(m.(regs := r, cycles := m.cycles + 1), b, None);
            Untimed(ClearTick(RunProcess(children, both))) == Untimed(ClearTick(RunProcess(children, later)))
  {
    assert OfPhase(a + b, ProcessPhase) == OfPhase(b, ProcessPhase);
    var raise: Control := ControlInfo(IrqLine, Raise);
    assert raise.Phase() == ProcessPhase && raise !in a;
    var both, later := AssertControls(m, a + b, None).(regs := r), AssertControls(m.(regs := r, cycles := m.cycles + 1), b, None);
    assert both.asserted == a + b && later.asserted == b && both.irqLine == later.irqLine;
    assert RunProcess(children, both).regs == RunProcess(children, later).regs;
  }

  /** Bus transfers followed by process controls: one tick does what two do. */
  lemma SplitTick(children: seq<Component>, m: Machine, a: set<Control>, b: set<Control>)
    requires Idle(m) && !m.halted && OnlyTransfers(a) && OnlyProcess(b)
    ensures SameOutcome(Tick(children, m, a + b, None), TickTwice(children, m, a, b))
  {
    assert OfPhase(a + b, WritePhase) == OfPhase(a, WritePhase) && OfPhase(a + b, ReadPhase) == OfPhase(a, ReadPhase);
    TickShape(children, m, a + b);
    TransferTick(children, m, a);
    if Transfers(children, m, a).Ok? {
      var r := Transfers(children, m, a).value;
      ProcessTick(children, m.(regs := r, cycles := m.cycles + 1), b);
      LateControls(children, m, a, b, r);
    }
  }

  /** Merging two bus-valid steps: the merged step does in one tick what the two do in two. */
  lemma MergedTick(children: seq<Component>, m: Machine, a: Step, b: Step)
    requires Idle(m) && Mergeable(a, b) && BusOk(a.controls) && BusOk(b.controls)
    ensures SameOutcome(Tick(children, m, AsSet(Merge2(a, b).controls), None),
                        TickTwice(children, m, AsSet(a.controls), AsSet(b.controls)))
  {
    MergeableShape(a, b);
    assert AsSet(Merge2(a, b).controls) == AsSet(a.controls) + AsSet(b.controls);
    if !m.halted {
      if a.controls == [] {
        assert AsSet(a.controls) == {};
        EmptyTick(children, m);
        TickIgnoresCycles(children, m, m.(cycles := m.cycles + 1), AsSet(b.controls), None);
      } else {
        SplitTick(children, m, AsSet(a.controls), AsSet(b.controls));
      }
    }
  }

  lemma MergeKeepsBusOk(a: Step, b: Step)
    requires Mergeable(a, b) && BusOk(a.controls) && BusOk(b.controls)
    ensures BusOk(Merge2(a, b).controls)
  {
    MergeableShape(a, b);
    if a.controls == [] {
      AddingToNothing(b.controls);
    } else {
      AddingProcessControls(a.controls, b.controls);
    }
  }

  lemma {:induction false} MergedBusOk(steps: seq<Step>)
    requires forall i | 0 <= i < |steps| :: BusOk(steps[i].controls)
    ensures forall i | 0 <= i < |Merged(steps)| :: BusOk(Merged(steps)[i].controls)
  {
    if steps != [] {
      var n := |steps| - 1;
      MergedBusOk(steps[..n]);
      var rest := Merged(steps[..n]);
      if rest != [] && Mergeable(Last(rest), Last(steps)) {
        MergeKeepsBusOk(Last(rest), Last(steps));
      }
    }
  }

  /** The step that merging adds last, run after equal outcomes. */
  lemma MergeStep(children: seq<Component>, m: Machine, rest: seq<Step>, before: seq<Step>, last: Step)
    requires ChildrenOk(children) && Idle(m) && rest != [] && Mergeable(Last(rest), last) && BusOk(last.controls)
    requires forall i | 0 <= i < |rest| :: BusOk(rest[i].controls)
    requires SameOutcome(Run(children, m, rest), Run(children, m, before))
    ensures SameOutcome(Run(children, m, rest[|rest| - 1 := Merge2(Last(rest), last)]), Run(children, m, before + [last]))
  {
    var k := |rest| - 1;
    var merged := rest[k := Merge2(Last(rest), last)];
    assert merged[..k] == rest[..k] && (before + [last])[..|before|] == before;
    RunStaysIdle(children, m, rest[..k]);
    if Run(children, m, rest[..k]).Ok? {
      MergedTick(children, Run(children, m, rest[..k]).value, Last(rest), last);
      RunOneMore(children, Run(children, m, rest), Run(children, m, before), AsSet(last.controls));
    }
  }

  /** Running the merged list ends in the same machine (registers, flags, RAM, interrupt and halt state),
      or the same fault, as running the original list; only the cycle count differs. */
  lemma {:induction false} MergingPreservesRuns(children: seq<Component>, m: Machine, steps: seq<Step>)
    requires ChildrenOk(children) && Idle(m) && forall i | 0 <= i < |steps| :: BusOk(steps[i].controls)
    ensures SameOutcome(Run(children, m, Merged(steps)), Run(children, m, steps))
    decreases |steps|
  {
    if steps != [] {
      var n := |steps| - 1;
      var before := steps[..n];
      MergingPreservesRuns(children, m, before);
      MergedBusOk(before);
      var rest := Merged(before);
      var last := Last(steps);
      assert steps == before + [last];
      if rest != [] && Mergeable(Last(rest), last) {
        MergeStep(children, m, rest, before, last);
      } else {
        assert (rest + [last])[..|rest|] == rest;
        RunOneMore(children, Run(children, m, rest), Run(children, m, before), AsSet(last.controls));
      }
    }
  }
}
