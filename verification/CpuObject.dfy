/** The simulated CPU object: its phases loop over the registered children and update it in place. */
module CpuObject {
  import opened Wrappers
  import opened Bits
  import opened Hdl
  import opened StatusEncoder
  import opened Encoders
  import opened Compiler
  import opened InstructionMemory
  import opened Simulator
  import opened BusSafety
  import opened Sequencing

  datatype HaltReason = HaltRequested | Crashed | Timeout

  datatype RunResult = RunResult(cycles: nat, reason: HaltReason)

  class Cpu {
    const cfg: Config
    const children: seq<Component>
    const microcode: array<nat>
    var regs: Registers
    var buses: Buses
    var asserted: set<Control>
    var irqLine: bool
    var currentPhase: Phase
    var halted: bool
    var crashed: bool
    var ipcValid: bool
    var cycleCount: nat

    /** Power-on: opcode 0x02 in the instruction register and everything else zero. */
    constructor (cfg: Config, microcode: array<nat>, rom: Cartridge)
      ensures this.cfg == cfg && this.microcode == microcode && children == RegistrationOrder()
      ensures Idle(State()) && !halted && regs.sc == 0 && IrValue(regs) == 0x02
      ensures regs.rom == rom
    {
      this.cfg := cfg;
      this.children := RegistrationOrder();
      this.microcode := microcode;
      regs := Registers(0, 0, 0, 0, 0, 0, 0, 0, 0, 0, 0, 0, 0x02, false, 0, 0, 0, 0, seq(0x2000, _ => 0), rom);
      buses := EMPTY_BUSES;
      asserted := {};
      irqLine, halted, crashed, ipcValid := false, false, false, false;
      currentPhase := NoPhase;
      cycleCount := 0;
    }

    function State(): Machine
      reads this
    {
      Machine(regs, buses, asserted, irqLine, currentPhase, halted, crashed, ipcValid, cycleCount)
    }

    /** The controller asserts the controls of the current microcode word; an input device then drives the
        interrupt line. */
    method TickControl(irq: Option<bool>) returns (fault: Option<SimError>)
      modifies this
      ensures var before := old(State());
              match Lookup(cfg.table, microcode[..], KeyNow(cfg, before.regs))
              case Ok(controls) => fault == None && State() == AssertControls(before, AsSet(controls), irq)
              case Err(OutOfBounds) => fault == Some(MicrocodeOutOfBounds)
              case Err(BitsOutsideTable) => fault == Some(MicrocodeBitsOutsideTable)
    {
      currentPhase := ControlPhase;
      var status := EncodeFlags();
      var found := ReadControls(cfg.table, microcode, IrValue(regs), regs.sc, status);
      match found
      case Err(OutOfBounds) => return Some(MicrocodeOutOfBounds);
      case Err(BitsOutsideTable) => return Some(MicrocodeBitsOutsideTable);
      case Ok(controls) =>
        ghost var start := asserted;
        var raised := false;
        for i := 0 to |controls|
          invariant asserted == start + AsSet(controls[..i])
          invariant raised <==> ControlInfo(IrqLine, Raise) in controls[..i]
          invariant State() == old(State()).(phase := ControlPhase, asserted := asserted)
        {
          assert AsSet(controls[..i + 1]) == AsSet(controls[..i]) + {controls[i]};
          asserted := asserted + {controls[i]};
          raised := raised || controls[i] == ControlInfo(IrqLine, Raise);
        }
        assert controls[..|controls|] == controls;
        irqLine := if irq.Some? then irq.value else irqLine || raised;
        return None;
    }

    /** The configured flags, each at its own bit. */
    method EncodeFlags() returns (status: byte)
      ensures status == StatusKey(cfg.bits, regs.status)
    {
      var encoded := 0;
      for i := 0 to |cfg.bits|
        invariant encoded == EncodeStatus(cfg.bits[..i], regs.status)
      {
        assert cfg.bits[..i + 1][..i] == cfg.bits[..i];
        if Bit(regs.status, cfg.bits[i].bit) {
          encoded := Or(encoded, Pow2(cfg.bits[i].bit));
        }
      }
      assert cfg.bits[..|cfg.bits|] == cfg.bits;
      assert encoded == StatusKey(cfg.bits, regs.status);
      return encoded;
    }

    method TickWritePhase() returns (fault: Option<SimError>)
      modifies this
      ensures match RunWrite(children, old(State()))
              case Ok(next) => fault == None && State() == next
              case Err(e) => fault == Some(e)
    {
      currentPhase := WritePhase;
      ghost var on := OfPhase(asserted, WritePhase);
      for i := 0 to |children|
        invariant State() == old(State()).(phase := WritePhase, buses := buses)
        invariant TickWrite(regs, on, WritePhase, buses, children[i..]) ==
                  TickWrite(regs, on, WritePhase, old(buses), children)
      {
        var written := TickWriteOne(regs, OfPhase(asserted, WritePhase), currentPhase, buses, children[i]);
        if written.Err? {
          return Some(written.error);
        }
        buses := written.value;
      }
      return None;
    }

    method TickReadPhase() returns (fault: Option<SimError>)
      modifies this
      ensures match RunRead(children, old(State()))
              case Ok(next) => fault == None && State() == next
              case Err(e) => fault == Some(e)
    {
      currentPhase := ReadPhase;
      ghost var on := OfPhase(asserted, ReadPhase);
      for i := 0 to |children|
        invariant State() == old(State()).(phase := ReadPhase, regs := regs)
        invariant TickRead(regs, on, ReadPhase, buses, children[i..]) ==
                  TickRead(old(regs), on, ReadPhase, buses, children)
      {
        var stored := TickReadOne(regs, OfPhase(asserted, ReadPhase), currentPhase, buses, children[i]);
        if stored.Err? {
          return Some(stored.error);
        }
        regs := stored.value;
      }
      return None;
    }

    /** The children process first; then the CPU looks at halt, crash and instruction start. */
    method TickProcessPhase()
      modifies this
      ensures State() == RunProcess(children, old(State()))
    {
      currentPhase := ProcessPhase;
      var on := OfPhase(asserted, ProcessPhase);
      for i := 0 to |children|
        invariant State() == old(State()).(phase := ProcessPhase, regs := regs)
        invariant TickProcess(regs, on, irqLine, children[i..]) == TickProcess(old(regs), on, irqLine, children)
      {
        regs := ProcessOne(regs, on, irqLine, children[i]);
      }
      if On(on, Halt, Raise) {
        halted := true;
      }
      if On(on, Crash, Raise) {
        crashed := true;
        halted := true;
      }
      if On(on, Controller, InstructionStart) {
        ipcValid := true;
      }
    }

    method TickClear()
      modifies this
      ensures State() == ClearTick(old(State()))
    {
      buses := EMPTY_BUSES;
      asserted := {};
      currentPhase := NoPhase;
      cycleCount := cycleCount + 1;
    }

    /** One clock cycle: the new state is that of the controller tick, or its fault is reported. */
    method Tick(irq: Option<bool>) returns (fault: Option<SimError>)
      modifies this
      ensures match CpuTick(cfg, children, microcode[..], old(State()), irq)
              case Ok(next) => fault == None && State() == next
              case Err(e) => fault == Some(e)
    {
      if halted {
        return None;
      }
      fault := TickControl(irq);
      if fault.Some? { return; }
      fault := TickWritePhase();
      if fault.Some? { return; }
      fault := TickReadPhase();
      if fault.Some? { return; }
      TickProcessPhase();
      TickClear();
    }

    /** One more cycle of a quiet run that began at `from`. */
    method RunOneCycle(ghost from: Machine, ghost n: nat) returns (fault: Option<SimError>)
      requires !halted && RanTo(cfg, children, microcode[..], from, n, State())
      modifies this
      ensures fault.None? ==> RanTo(cfg, children, microcode[..], from, n + 1, State()) && cycleCount == old(cycleCount) + 1
      ensures fault.Some? ==> CpuRun(cfg, children, microcode[..], from, Quiet(n + 1)) == Err(fault.value)
    {
      QuietStep(cfg, children, microcode[..], from, n, State());
      ghost var before := State();
      fault := Tick(None);
      if fault.None? {
        TickCountsOne(cfg, children, microcode[..], before, None);
      }
    }

    /** Run until the CPU halts or `maxCycles` have passed, nothing driving the interrupt line. */
    method RunUntilHalt(maxCycles: nat) returns (result: Result<RunResult, SimError>)
      modifies this
      ensures result.Ok? ==> RanTo(cfg, children, microcode[..], old(State()), result.value.cycles, State())
      ensures result.Ok? ==> result.value.cycles <= maxCycles
      ensures result.Ok? ==> result.value.reason == (if !halted then Timeout else if crashed then Crashed else HaltRequested)
      ensures result.Ok? && !halted ==> result.value.cycles == maxCycles
      ensures result.Err? ==> FaultsWithin(cfg, children, microcode[..], old(State()), maxCycles, result.error)
    {
      var start := cycleCount;
      ghost var from, n, rom := State(), 0, microcode[..];
      while !halted && cycleCount - start < maxCycles
        invariant microcode[..] == rom && cycleCount == start + n && n <= maxCycles
        invariant RanTo(cfg, children, rom, from, n, State())
        decreases maxCycles - n
      {
        var fault := RunOneCycle(from, n);
        if fault.Some? {
          assert FaultsWithin(cfg, children, rom, from, maxCycles, fault.value);
          return Err(fault.value);
        }
        n := n + 1;
      }
      var reason := if !halted then Timeout else if crashed then Crashed else HaltRequested;
      return Ok(RunResult(cycleCount - start, reason));
    }
  }

  /** `n` quiet ticks lead from `m` to `final`, and the machine was running before each of them. */
  ghost predicate RanTo(cfg: Config, children: seq<Component>, rom: seq<nat>, m: Machine, n: nat, final: Machine) {
    && CpuRun(cfg, children, rom, m, Quiet(n)) == Ok(final)
    && forall k | 0 <= k < n :: StillRunning(cfg, children, rom, m, k)
  }

  ghost predicate FaultsWithin(cfg: Config, children: seq<Component>, rom: seq<nat>, m: Machine, max: nat, e: SimError) {
    exists n: nat | n <= max :: CpuRun(cfg, children, rom, m, Quiet(n)) == Err(e)
  }

  lemma QuietStep(cfg: Config, children: seq<Component>, rom: seq<nat>, m: Machine, n: nat, mid: Machine)
    requires RanTo(cfg, children, rom, m, n, mid) && !mid.halted
    ensures CpuRun(cfg, children, rom, m, Quiet(n + 1)) == CpuTick(cfg, children, rom, mid, None)
    ensures StillRunning(cfg, children, rom, m, n)
  {
    assert Quiet(n + 1)[..n] == Quiet(n);
  }

  /** `n` ticks with nothing driving the interrupt line. */
  function Quiet(n: nat): seq<Option<bool>> {
    seq(n, _ => None)
  }

  ghost predicate StillRunning(cfg: Config, children: seq<Component>, rom: seq<nat>, m: Machine, k: nat) {
    var r := CpuRun(cfg, children, rom, m, Quiet(k));
    r.Ok? && !r.value.halted
  }

  lemma TickCountsOne(cfg: Config, children: seq<Component>, rom: seq<nat>, m: Machine, irq: Option<bool>)
    requires !m.halted && CpuTick(cfg, children, rom, m, irq).Ok?
    ensures CpuTick(cfg, children, rom, m, irq).value.cycles == m.cycles + 1
  {
  }
}
