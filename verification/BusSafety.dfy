/** What the bus validator promises about a tick of the machine. */
module BusSafety {
  import opened Wrappers
  import opened Bits
  import opened Hdl
  import opened Ir
  import opened Validators
  import opened Simulator

  predicate Written(b: Buses, bus: BusType) {
    match bus
    case DataBus => b.data.written
    case AddressBus => b.address.written
    case NoBus => false
  }

  /** A bus holds a value exactly when it has been written. */
  predicate Consistent(b: Buses) {
    (b.data.written <==> b.data.value.Some?) && (b.address.written <==> b.address.value.Some?)
  }

  predicate Drives(on: set<Control>, c: Component, bus: BusType) {
    On(on, c, Write) && PortOf(c) == bus
  }

  predicate Samples(on: set<Control>, c: Component, bus: BusType) {
    On(on, c, Read) && PortOf(c) == bus
  }

  ghost predicate Driver(on: set<Control>, children: seq<Component>, bus: BusType) {
    exists c | c in children :: Drives(on, c, bus)
  }

  /** At most one of the children drives each bus, and none drives a bus already written. */
  ghost predicate WritersFit(on: set<Control>, b: Buses, children: seq<Component>) {
    && (forall c, bus | c in children && bus != NoBus && Drives(on, c, bus) :: !Written(b, bus))
    && (forall i, j, bus | 0 <= i < j < |children| && bus != NoBus && Drives(on, children[i], bus) ::
          !Drives(on, children[j], bus))
  }

  /** What the write phase of one child does: it writes the bus it drives, if any. */
  lemma WriteOneSafe(r: Registers, on: set<Control>, b: Buses, c: Component)
    requires Consistent(b)
    requires forall bus | bus != NoBus && Drives(on, c, bus) :: !Written(b, bus)
    ensures TickWriteOne(r, on, WritePhase, b, c).Ok?
    ensures var b1 := TickWriteOne(r, on, WritePhase, b, c).value;
            && Consistent(b1)
            && (forall bus | bus != NoBus :: Written(b1, bus) <==> Written(b, bus) || Drives(on, c, bus))
  {
    assert PortOf(c) != NoBus && Drives(on, c, PortOf(c)) ==> !Written(b, PortOf(c));
  }

  lemma WritersStillFit(on: set<Control>, b: Buses, children: seq<Component>, b1: Buses)
    requires children != [] && WritersFit(on, b, children)
    requires forall bus | bus != NoBus :: Written(b1, bus) <==> Written(b, bus) || Drives(on, children[0], bus)
    ensures WritersFit(on, b1, children[1..])
  {
    var rest := children[1..];
    forall c, bus | c in rest && bus != NoBus && Drives(on, c, bus) ensures !Written(b1, bus) {
      var j :| 0 < j < |children| && children[j] == c;
      assert c in children;
      assert !Drives(on, children[0], bus);
    }
    forall i, j, bus | 0 <= i < j < |rest| && bus != NoBus && Drives(on, rest[i], bus) ensures !Drives(on, rest[j], bus) {
      assert rest[i] == children[i + 1] && rest[j] == children[j + 1];
    }
  }

  /** When the writers fit, the write phase succeeds and writes exactly the buses that someone drives. */
  lemma {:induction false} WritePhaseSafe(r: Registers, on: set<Control>, b: Buses, children: seq<Component>)
    requires Consistent(b) && WritersFit(on, b, children)
    ensures TickWrite(r, on, WritePhase, b, children).Ok?
    ensures var b1 := TickWrite(r, on, WritePhase, b, children).value;
            && Consistent(b1)
            && (forall bus | bus != NoBus :: Written(b1, bus) <==> Written(b, bus) || Driver(on, children, bus))
    decreases |children|
  {
    if children != [] {
      var c, rest := children[0], children[1..];
      assert c in children;
      WriteOneSafe(r, on, b, c);
      var b1 := TickWriteOne(r, on, WritePhase, b, c).value;
      WritersStillFit(on, b, children, b1);
      WritePhaseSafe(r, on, b1, rest);
      forall bus ensures Driver(on, children, bus) <==> Drives(on, c, bus) || Driver(on, rest, bus) {
        if d :| d in rest && Drives(on, d, bus) { assert d in children; }
        if d :| d in children && Drives(on, d, bus) { assert d == c || d in rest; }
      }
    }
  }

  /** Two children driving one bus make the write phase fail. */
  lemma {:induction false} TwoWritersFail(r: Registers, on: set<Control>, b: Buses, children: seq<Component>,
                                          i: nat, j: nat, bus: BusType)
    requires i < j < |children| && bus != NoBus
    requires Drives(on, children[i], bus) && Drives(on, children[j], bus)
    ensures TickWrite(r, on, WritePhase, b, children) == Err(BusAlreadyWritten)
    decreases |children|
  {
    match TickWriteOne(r, on, WritePhase, b, children[0])
    case Err(e) =>
    case Ok(b1) =>
      if i == 0 {
        WriterAfterWritten(r, on, b1, children[1..], j - 1, bus);
      } else {
        TwoWritersFail(r, on, b1, children[1..], i - 1, j - 1, bus);
      }
  }

  lemma {:induction false} WriterAfterWritten(r: Registers, on: set<Control>, b: Buses, children: seq<Component>,
                                              j: nat, bus: BusType)
    requires j < |children| && bus != NoBus
    requires Written(b, bus) && Drives(on, children[j], bus)
    ensures TickWrite(r, on, WritePhase, b, children) == Err(BusAlreadyWritten)
    decreases |children|
  {
    match TickWriteOne(r, on, WritePhase, b, children[0])
    case Err(e) =>
    case Ok(b1) =>
      if j > 0 { WriterAfterWritten(r, on, b1, children[1..], j - 1, bus); }
  }

  predicate MemoryFault(e: SimError) {
    e.RomWrite? || e.UnmappedWrite?
  }

  /** With every sampled bus written, the read phase fails only for a bad memory store. */
  lemma {:induction false} ReadPhaseSafe(r: Registers, on: set<Control>, b: Buses, children: seq<Component>)
    requires Consistent(b)
    requires forall c, bus | c in children && bus != NoBus && Samples(on, c, bus) :: Written(b, bus)
    ensures var result := TickRead(r, on, ReadPhase, b, children);
            result.Err? ==> MemoryFault(result.error)
    decreases |children|
  {
    if children != [] {
      var c := children[0];
      assert PortOf(c) != NoBus && Samples(on, c, PortOf(c)) ==> Written(b, PortOf(c));
      match TickReadOne(r, on, ReadPhase, b, c)
      case Err(e) =>
      case Ok(r1) => ReadPhaseSafe(r1, on, b, children[1..]);
    }
  }

  /** Sampling a bus that nobody wrote makes the read phase fail. */
  lemma {:induction false} ReadBeforeWriteFails(r: Registers, on: set<Control>, b: Buses, children: seq<Component>,
                                                j: nat, bus: BusType)
    requires j < |children| && bus != NoBus
    requires Samples(on, children[j], bus) && !Written(b, bus)
    ensures TickRead(r, on, ReadPhase, b, children).Err?
    decreases |children|
  {
    match TickReadOne(r, on, ReadPhase, b, children[0])
    case Err(e) =>
    case Ok(r1) =>
      if j > 0 { ReadBeforeWriteFails(r1, on, b, children[1..], j - 1, bus); }
  }

  function AsSet(controls: seq<Control>): set<Control> {
    set c | c in controls
  }

  lemma SingleWritersFit(children: seq<Component>, controls: seq<Control>)
    requires ChildrenOk(children) && OneWriter(controls)
    ensures WritersFit(OfPhase(AsSet(controls), WritePhase), EMPTY_BUSES, children)
  {
    var on := OfPhase(AsSet(controls), WritePhase);
    forall i, j, bus | 0 <= i < j < |children| && bus != NoBus && Drives(on, children[i], bus)
      ensures !Drives(on, children[j], bus)
    {
      if Drives(on, children[j], bus) {
        var c, d := ControlInfo(children[i], Write), ControlInfo(children[j], Write);
        assert c in controls && d in controls && c != d;
        var k :| 0 <= k < |controls| && controls[k] == c;
        var l :| 0 <= l < |controls| && controls[l] == d;
        assert OneWriterOn(controls, bus) && WritesBus(c, bus) && WritesBus(d, bus);
        assert false;
      }
    }
  }

  /** The buses after the write phase of a step with one writer per bus: exactly the driven ones are written. */
  lemma WritePhaseOfStep(children: seq<Component>, r: Registers, controls: seq<Control>) returns (b: Buses)
    requires ChildrenOk(children) && OneWriter(controls)
    ensures TickWrite(r, OfPhase(AsSet(controls), WritePhase), WritePhase, EMPTY_BUSES, children) == Ok(b)
    ensures Consistent(b)
    ensures forall bus | bus != NoBus :: Written(b, bus) <==> Driven(controls, bus)
  {
    var on := OfPhase(AsSet(controls), WritePhase);
    SingleWritersFit(children, controls);
    WritePhaseSafe(r, on, EMPTY_BUSES, children);
    b := TickWrite(r, on, WritePhase, EMPTY_BUSES, children).value;
    forall bus | bus != NoBus ensures Driver(on, children, bus) <==> Driven(controls, bus) {
      if c :| c in children && Drives(on, c, bus) {
        assert WritesBus(ControlInfo(c, Write), bus);
      }
      if w :| w in controls && WritesBus(w, bus) {
        assert w == ControlInfo(w.component, Write) && Drives(on, w.component, bus) && HasTick(w.component);
      }
    }
  }

  /** If the bus validator accepts the asserted controls, a tick from an idle machine never reports a bus
      written twice or read before a write, and it ends with both buses empty and no control asserted. */
  lemma ValidStepNeverFaults(children: seq<Component>, m: Machine, controls: seq<Control>, irq: Option<bool>)
    requires ChildrenOk(children) && Idle(m) && BusOk(controls)
    ensures var r := Tick(children, m, AsSet(controls), irq);
            if r.Ok? then Idle(r.value) else MemoryFault(r.error)
  {
    if !m.halted {
      var m0 := AssertControls(m, AsSet(controls), irq);
      assert m0.asserted == AsSet(controls);
      var b := WritePhaseOfStep(children, m.regs, controls);
      var on := OfPhase(AsSet(controls), ReadPhase);
      forall c, bus | c in children && bus != NoBus && Samples(on, c, bus) ensures Written(b, bus) {
        assert ReadsBus(ControlInfo(c, Read), bus);
        assert Sampled(controls, bus);
      }
      ReadPhaseSafe(m.regs, on, b, children);
    }
  }

  ghost predicate NoRepeats(controls: seq<Control>) {
    forall i, j | 0 <= i < j < |controls| :: controls[i] != controls[j]
  }

  lemma TwoWritersFault(children: seq<Component>, r: Registers, controls: seq<Control>, bus: BusType)
    requires ChildrenOk(children) && NoRepeats(controls) && bus != NoBus && !OneWriterOn(controls, bus)
    ensures TickWrite(r, OfPhase(AsSet(controls), WritePhase), WritePhase, EMPTY_BUSES, children).Err?
  {
    var on := OfPhase(AsSet(controls), WritePhase);
    var i, j :| 0 <= i < j < |controls| && WritesBus(controls[i], bus) && WritesBus(controls[j], bus);
    var c, d := controls[i].component, controls[j].component;
    assert controls[i] == ControlInfo(c, Write) && controls[j] == ControlInfo(d, Write) && c != d;
    assert HasTick(c) && HasTick(d);
    var k :| 0 <= k < |children| && children[k] == c;
    var l :| 0 <= l < |children| && children[l] == d;
    assert Drives(on, c, bus) && Drives(on, d, bus);
    TwoWritersFail(r, on, EMPTY_BUSES, children, if k < l then k else l, if k < l then l else k, bus);
  }

  lemma UndrivenReaderFaults(children: seq<Component>, r: Registers, controls: seq<Control>, bus: BusType) returns (b: Buses)
    requires ChildrenOk(children) && OneWriter(controls)
    requires bus != NoBus && Sampled(controls, bus) && !Driven(controls, bus)
    ensures TickWrite(r, OfPhase(AsSet(controls), WritePhase), WritePhase, EMPTY_BUSES, children) == Ok(b)
    ensures TickRead(r, OfPhase(AsSet(controls), ReadPhase), ReadPhase, b, children).Err?
  {
    b := WritePhaseOfStep(children, r, controls);
    var on := OfPhase(AsSet(controls), ReadPhase);
    var c :| c in controls && ReadsBus(c, bus);
    assert c == ControlInfo(c.component, Read);
    assert HasTick(c.component);
    var j :| 0 <= j < |children| && children[j] == c.component;
    ReadBeforeWriteFails(r, on, b, children, j, bus);
  }

  /** Conversely, a step without repeated controls that the bus validator rejects makes the tick fail. */
  lemma RejectedStepFaults(children: seq<Component>, m: Machine, controls: seq<Control>, irq: Option<bool>)
    requires ChildrenOk(children)
    requires Idle(m) && !m.halted && NoRepeats(controls) && !BusOk(controls)
    ensures Tick(children, m, AsSet(controls), irq).Err?
  {
    var m0 := AssertControls(m, AsSet(controls), irq);
    assert m0.asserted == AsSet(controls);
    if !OneWriter(controls) {
      var bus := if OneWriterOn(controls, DataBus) then AddressBus else DataBus;
      TwoWritersFault(children, m.regs, controls, bus);
    } else {
      var bus := if Sampled(controls, DataBus) && !Driven(controls, DataBus) then DataBus else AddressBus;
      var b := UndrivenReaderFaults(children, m.regs, controls, bus);
    }
  }

  // ---------------------------------------------------------------- whole runs

  /** Run a list of steps, one tick each; `irqs[i]` is what an input device drives in tick `i`. */
  function RunSteps(children: seq<Component>, m: Machine, steps: seq<seq<Control>>, irqs: seq<Option<bool>>)
    : Result<Machine, SimError>
    requires |irqs| == |steps|
    decreases |steps|
  {
    if steps == [] then Ok(m)
    else
      match Tick(children, m, AsSet(steps[0]), irqs[0])
      case Ok(m1) => RunSteps(children, m1, steps[1..], irqs[1..])
      case Err(e) => Err(e)
  }

  /** Over every run of bus-valid steps the only possible fault is a store to ROM or unmapped memory. */
  lemma {:induction false} ValidRunsNeverFault(children: seq<Component>, m: Machine, steps: seq<seq<Control>>,
                                               irqs: seq<Option<bool>>)
    requires ChildrenOk(children) && Idle(m) && |irqs| == |steps|
    requires forall i | 0 <= i < |steps| :: BusOk(steps[i])
    ensures var r := RunSteps(children, m, steps, irqs);
            if r.Ok? then Idle(r.value) else MemoryFault(r.error)
    decreases |steps|
  {
    if steps != [] {
      ValidStepNeverFaults(children, m, steps[0], irqs[0]);
      if Tick(children, m, AsSet(steps[0]), irqs[0]).Ok? {
        ValidRunsNeverFault(children, Tick(children, m, AsSet(steps[0]), irqs[0]).value, steps[1..], irqs[1..]);
      }
    }
  }
}
