/** Collapsing repeated counting steps: how many counts a list loses, and an accepted set that loses one. */
module LostSteps {
  import opened Wrappers
  import opened Bits
  import opened Hdl
  import opened Ir
  import opened Transformers
  import opened Validators
  import opened StatusEncoder
  import opened StatusValidator
  import opened Optimizers
  import opened Encoders
  import opened Compiler
  import opened Pipeline
  import opened Simulator
  import opened BusSafety
  import opened StepRuns
  import opened Deduplication
  import opened Sequencing
  import opened RepeatedControls
  import opened Execution

  // ---------------------------------------------------------------- lists that count on the stack pointer

  const PUSH: Control := ControlInfo(Sp, Increment)

  /** A bus-valid step that stores nothing, does not stop the machine, and has no stack pointer control but
      its increment. */
  ghost predicate Plain(step: Step) {
    && BusOk(step.controls)
    && forall c | c in step.controls ::
         c != ControlInfo(Memory, Read) && !c.component.Halt? && !c.component.Crash? && (c.component.Sp? ==> c == PUSH)
  }

  ghost predicate AllPlain(steps: seq<Step>) {
    forall k | 0 <= k < |steps| :: Plain(steps[k])
  }

  /** How many steps of the list count. */
  function Counts(steps: seq<Step>): nat {
    if steps == [] then 0
    else Counts(steps[..|steps| - 1]) + (if PUSH in steps[|steps| - 1].controls then 1 else 0)
  }

  function Successor(v: byte): byte {
    if v == 0xFF then 0 else v + 1
  }

  /** A byte counted up `n` times. */
  function CountedUp(v: byte, n: nat): byte {
    if n == 0 then v else Successor(CountedUp(v, n - 1))
  }

  lemma {:induction false} CountedUpWraps(v: byte, n: nat)
    ensures CountedUp(v, n) == (v + n) % 0x100
  {
    if n > 0 { CountedUpWraps(v, n - 1); }
  }

  lemma SameRemainder(a: nat, b: nat)
    ensures a % 0x100 == b % 0x100 <==> (a - b) % 0x100 == 0
  {
    var q, r := a / 0x100 - b / 0x100, a % 0x100 - b % 0x100;
    assert a - b == 0x100 * q + r;
  }

  lemma SameCount(v: byte, k: nat, l: nat)
    ensures CountedUp(v, k) == CountedUp(v, l) <==> (k - l) % 0x100 == 0
  {
    CountedUpWraps(v, k);
    CountedUpWraps(v, l);
    SameRemainder(v + k, v + l);
  }

  lemma ProcessOneLeavesSp(r: Registers, on: set<Control>, irqLine: bool, c: Component)
    requires forall op: Operation :: !On(on, Sp, op)
    ensures ProcessOne(r, on, irqLine, c).sp == r.sp
  {
    assert !On(on, Sp, Reset) && !On(on, Sp, Increment) && !On(on, Sp, Decrement);
  }

  lemma {:induction false} ProcessLeavesSp(r: Registers, on: set<Control>, irqLine: bool, children: seq<Component>)
    requires forall op: Operation :: !On(on, Sp, op)
    ensures TickProcess(r, on, irqLine, children).sp == r.sp
    decreases |children|
  {
    if children != [] {
      ProcessOneLeavesSp(r, on, irqLine, children[0]);
      ProcessLeavesSp(ProcessOne(r, on, irqLine, children[0]), on, irqLine, children[1..]);
    }
  }

  /** Without a stack pointer control the stack pointer stays. */
  lemma TickLeavesSp(children: seq<Component>, m: Machine, s: set<Control>)
    requires Idle(m) && !m.halted && Tick(children, m, s, None).Ok? && forall op: Operation :: !On(s, Sp, op)
    ensures Tick(children, m, s, None).value.regs.sp == m.regs.sp
  {
    TickShape(children, m, s);
    assert AssertControls(m, s, None).asserted == s;
    var on := OfPhase(s, ProcessPhase);
    forall op: Operation ensures !On(on, Sp, op) && !On(OfPhase(s, ReadPhase), Sp, op) {
      assert !On(s, Sp, op);
    }
    var b := TickWrite(m.regs, OfPhase(s, WritePhase), WritePhase, m.buses, children).value;
    ReadLeaves(m.regs, OfPhase(s, ReadPhase), b, children, Sp);
    ProcessLeavesSp(Transfers(children, m, s).value, on, AssertControls(m, s, None).irqLine, children);
  }

  lemma NextIsSuccessor(s: set<Control>, v: byte)
    requires On(s, Sp, Increment)
    ensures Next(s, Sp, v) == Successor(v)
  {
  }

  lemma PlainTick(children: seq<Component>, m: Machine, step: Step)
    requires ChildrenOk(children) && Idle(m) && !m.halted && Plain(step)
    ensures var r := Tick(children, m, AsSet(step.controls), None);
            && r.Ok? && Idle(r.value) && !r.value.halted
            && r.value.regs.sp == if PUSH in step.controls then Successor(m.regs.sp) else m.regs.sp
  {
    var s := AsSet(step.controls);
    StepRunsOn(children, m, step.controls);
    TickEndsIdle(children, m, s);
    if PUSH in step.controls {
      assert OnlyCounts(s, Sp);
      TickCounts(children, m, s, Sp);
      NextIsSuccessor(s, m.regs.sp);
    } else {
      assert forall op: Operation :: !On(s, Sp, op);
      TickLeavesSp(children, m, s);
    }
  }

  /** The stack pointer moves by the number of counting steps. */
  lemma {:induction false} RunCounts(children: seq<Component>, m: Machine, steps: seq<Step>) returns (final: Machine, n: nat)
    requires ChildrenOk(children) && Idle(m) && !m.halted && AllPlain(steps)
    ensures Run(children, m, steps) == Ok(final) && Idle(final) && !final.halted
    ensures n == Counts(steps) && final.regs.sp == CountedUp(m.regs.sp, n)
    decreases |steps|
  {
    if steps == [] {
      final, n := m, 0;
    } else {
      var last := steps[|steps| - 1];
      var before, k := RunCounts(children, m, steps[..|steps| - 1]);
      PlainTick(children, before, last);
      final := Tick(children, before, AsSet(last.controls), None).value;
      n := k + if PUSH in last.controls then 1 else 0;
    }
  }

  lemma {:induction false} DeduplicatedPlain(steps: seq<Step>)
    requires AllPlain(steps)
    ensures AllPlain(Deduplicated(steps))
  {
    if steps != [] { DeduplicatedEnds(steps); }
  }

  /** Exactly what collapsing costs such a list: the stack pointer ends where it did before if and only if the
      number of counts dropped is a multiple of 256. */
  lemma DroppedCountsAreLost(children: seq<Component>, m: Machine, steps: seq<Step>)
    returns (before: Machine, after: Machine, counts: nat, kept: nat)
    requires ChildrenOk(children) && Idle(m) && !m.halted && AllPlain(steps)
    ensures Run(children, m, steps) == Ok(before) && Run(children, m, Deduplicated(steps)) == Ok(after)
    ensures counts == Counts(steps) && kept == Counts(Deduplicated(steps))
    ensures before.regs.sp == CountedUp(m.regs.sp, counts) && after.regs.sp == CountedUp(m.regs.sp, kept)
    ensures before.regs.sp == after.regs.sp <==> (counts - kept) % 0x100 == 0
  {
    DeduplicatedPlain(steps);
    before, counts := RunCounts(children, m, steps);
    after, kept := RunCounts(children, m, Deduplicated(steps));
    SameCount(m.regs.sp, counts, kept);
  }

  // ---------------------------------------------------------------- an accepted set that loses a count

  /** The fetch preamble of the shipped microcode. */
  function Fetch(): seq<Step> {
    [Step(0, [ControlInfo(Pc, Write), ControlInfo(Mar, Read), ControlInfo(Controller, InstructionStart)]),
     Step(0, [ControlInfo(Memory, Write), ControlInfo(Ir, Read)]),
     Step(0, [ControlInfo(Pc, Increment)])]
  }

  /** An instruction body that counts twice and does nothing else. */
  function TwicePushed(): seq<Step> {
    [Step(0, [PUSH]), Step(0, [PUSH]), Step(0, [])]
  }

  function LosingSet(): InstructionSet {
    InstructionSet(Fetch(), [Instruction(0x02, [Variant(map[], TwicePushed())])])
  }

  const INCREMENT: Control := ControlInfo(Sc, Increment)
  const RESET: Control := ControlInfo(Sc, Reset)

  function LosingConfig(): Config {
    Config([ControlInfo(Pc, Write), ControlInfo(Mar, Read), ControlInfo(Controller, InstructionStart),
            ControlInfo(Memory, Write), ControlInfo(Ir, Read), ControlInfo(Pc, Increment), PUSH, INCREMENT, RESET],
           [StatusBit("carry", CARRY)], INCREMENT, RESET, {0x02})
  }

  /** The steps between the transformers and the optimizers. */
  function LosingSequence(): seq<Step> {
    [Step(0, [ControlInfo(Pc, Write), ControlInfo(Mar, Read), ControlInfo(Controller, InstructionStart), INCREMENT]),
     Step(0, [ControlInfo(Memory, Write), ControlInfo(Ir, Read), INCREMENT]),
     Step(0, [ControlInfo(Pc, Increment), INCREMENT]),
     Step(1, [PUSH, INCREMENT]), Step(1, [PUSH, INCREMENT]), Step(1, [RESET])]
  }

  lemma Extended(step: Step, c: Control, controls: seq<Control>)
    requires c !in step.controls && step.controls + [c] == controls
    ensures WithControl(step, c) == Step(step.stage, controls)
  {
  }

  lemma LosingSequenceIs()
    ensures Sequence(LosingConfig(), LosingSet(), 0, 0) == LosingSequence()
  {
    var x, y, z := Prefixed(Fetch(), TwicePushed()), Sequence(LosingConfig(), LosingSet(), 0, 0), LosingSequence();
    assert |x| == 6 && x[0] == Fetch()[0] && x[1] == Fetch()[1] && x[2] == Fetch()[2];
    assert x[3] == Step(1, [PUSH]) && x[4] == Step(1, [PUSH]) && x[5] == Step(1, []);
    Extended(x[0], INCREMENT, z[0].controls);
    Extended(x[1], INCREMENT, z[1].controls);
    Extended(x[2], INCREMENT, z[2].controls);
    Extended(x[3], INCREMENT, z[3].controls);
    Extended(x[5], RESET, z[5].controls);
    assert forall k | 0 <= k < 6 :: y[k] == z[k];
  }

  ghost predicate Fine(controls: seq<Control>) {
    BusOk(controls) && ConflictFree(controls)
  }

  /** A step that transfers over one bus and otherwise processes. */
  lemma OneTransfer(writer: Control, reader: Control, rest: seq<Control>)
    requires writer.operation.Write? && reader.operation.Read? && writer.Bus() == reader.Bus() && writer.component != reader.component
    requires forall c | c in rest :: c.Phase() == ProcessPhase && !c.operation.Clear? && !c.operation.Decrement?
    ensures Fine([writer, reader] + rest)
  {
    var controls := [writer, reader] + rest;
    assert WritesBus(writer, writer.Bus()) && writer in controls;
    assert forall c | c in controls && c != writer :: !c.operation.Write?;
    forall i, j, bus | 0 <= i < j < |controls| && WritesBus(controls[i], bus) ensures !WritesBus(controls[j], bus) {
      assert j >= 2 ==> controls[j] == rest[j - 2];
    }
  }

  lemma NoTransfer(controls: seq<Control>)
    requires forall c | c in controls :: c.Phase() == ProcessPhase && !c.operation.Clear? && !c.operation.Decrement?
    ensures Fine(controls)
  {
  }

  /** The checks on one step, and what the count theorem asks of it. */
  ghost predicate Sound(step: Step) {
    Fine(step.controls) && Plain(step)
  }

  lemma SoundTransfer(step: Step, writer: Control, reader: Control, rest: seq<Control>)
    requires step.controls == [writer, reader] + rest
    requires writer.operation.Write? && reader.operation.Read? && writer.Bus() == reader.Bus() && writer.component != reader.component
    requires forall c | c in rest :: c.Phase() == ProcessPhase && (c.component.Sc? || c.component.Controller?)
                                     && !c.operation.Clear? && !c.operation.Decrement?
    requires !writer.component.Sp? && !reader.component.Sp? && !reader.component.Memory?
    ensures Sound(step)
  {
    OneTransfer(writer, reader, rest);
    assert forall c | c in step.controls :: c == writer || c == reader || c in rest;
    assert !writer.component.Halt? && !writer.component.Crash? && !reader.component.Halt? && !reader.component.Crash?;
  }

  lemma SoundProcess(step: Step)
    requires forall c | c in step.controls :: c.component.Sc? || c == PUSH || c == ControlInfo(Pc, Increment)
    requires forall c | c in step.controls :: c.Phase() == ProcessPhase && !c.operation.Clear? && !c.operation.Decrement?
    ensures Sound(step)
  {
    NoTransfer(step.controls);
  }

  lemma AddressStepSound(raw: Step, step: Step)
    requires raw.controls == [ControlInfo(Pc, Write), ControlInfo(Mar, Read), ControlInfo(Controller, InstructionStart)]
    requires step.controls == [ControlInfo(Pc, Write), ControlInfo(Mar, Read), ControlInfo(Controller, InstructionStart), INCREMENT]
    ensures Sound(raw) && Sound(step)
  {
    SoundTransfer(raw, ControlInfo(Pc, Write), ControlInfo(Mar, Read), [ControlInfo(Controller, InstructionStart)]);
    SoundTransfer(step, ControlInfo(Pc, Write), ControlInfo(Mar, Read), [ControlInfo(Controller, InstructionStart), INCREMENT]);
  }

  lemma OpcodeStepSound(raw: Step, step: Step)
    requires raw.controls == [ControlInfo(Memory, Write), ControlInfo(Ir, Read)]
    requires step.controls == [ControlInfo(Memory, Write), ControlInfo(Ir, Read), INCREMENT]
    ensures Sound(raw) && Sound(step)
  {
    SoundTransfer(raw, ControlInfo(Memory, Write), ControlInfo(Ir, Read), []);
    SoundTransfer(step, ControlInfo(Memory, Write), ControlInfo(Ir, Read), [INCREMENT]);
  }

  lemma FetchSound(k: nat, raw: Step, step: Step)
    requires k < 3 && raw == Fetch()[k] && step == LosingSequence()[k]
    ensures Sound(raw) && Sound(step)
  {
    if k == 0 {
      AddressStepSound(raw, step);
    } else if k == 1 {
      OpcodeStepSound(raw, step);
    } else {
      SoundProcess(raw);
      SoundProcess(step);
    }
  }

  lemma BodySound(k: nat, step: Step)
    requires 3 <= k < 6 && step == LosingSequence()[k]
    ensures Sound(step)
  {
    SoundProcess(step);
  }

  lemma {:induction false} StageZeroOf(a: seq<Step>, b: seq<Step>)
    requires AllAtZero(a) && forall k | 0 <= k < |b| :: b[k].stage != 0
    ensures StageZero(a + b) == a
  {
    var x, n := a + b, |a + b| - 1;
    if b != [] {
      assert x[..n] == a + b[..|b| - 1];
      StageZeroOf(a, b[..|b| - 1]);
    } else if a != [] {
      assert x == a && x[..n] == a[..n] + [];
      StageZeroOf(a[..n], []);
    }
  }

  lemma LosingSetFetches()
    ensures FetchValid(Fetched(LosingSet()))
  {
    var s := LosingSet();
    PrefixedShape(s, 0, 0);
    StageZeroOf(Fetch(), Raised(TwicePushed()));
  }

  lemma LosingStepsValid(z: seq<Step>)
    requires z == LosingSequence()
    ensures AllPlain(z) && StepsValid(LosingConfig(), z)
  {
    forall k | 0 <= k < |z| ensures Sound(z[k]) {
      if k < 3 { FetchSound(k, Fetch()[k], z[k]); } else { BodySound(k, z[k]); }
    }
    LosingStages(z);
    LosingCounter(z);
  }

  lemma FetchFine(preamble: seq<Step>)
    requires preamble == Fetch()
    ensures EachFine(preamble) && StagesOk(preamble)
  {
    forall k | 0 <= k < |preamble| ensures Fine(preamble[k].controls) {
      FetchSound(k, preamble[k], LosingSequence()[k]);
    }
  }

  lemma LosingStages(z: seq<Step>)
    requires z == LosingSequence()
    ensures StagesOk(z)
  {
  }

  lemma LosingCounter(z: seq<Step>)
    requires z == LosingSequence()
    ensures SequenceOk(INCREMENT, RESET, z)
  {
    assert z[0].controls[3] == INCREMENT && z[1].controls[2] == INCREMENT && z[2].controls[1] == INCREMENT;
    assert z[3].controls[1] == INCREMENT && z[4].controls[1] == INCREMENT && z[5].controls[0] == RESET;
  }

  lemma ValidWithOne(cfg: Config, t: InstructionSet, opcode: byte, z: seq<Step>)
    requires EachFine(t.preamble) && StagesOk(t.preamble) && StepsValid(cfg, z) && cfg.expected == {opcode}
    requires t.instructions == [Instruction(opcode, [Variant(map[], z)])]
    ensures Valid(cfg, t)
  {
    assert Unconditional(t.instructions[0].variants);
    assert InstructionValid(cfg, t.instructions[0]);
    assert (set i | 0 <= i < |t.instructions| :: t.instructions[i].opcode) == {t.instructions[0].opcode};
  }

  lemma TransformedIs(cfg: Config, s: InstructionSet, z: seq<Step>)
    requires cfg == LosingConfig() && s == LosingSet() && z == LosingSequence()
    ensures Transformed(cfg, s).preamble == s.preamble
    ensures Transformed(cfg, s).instructions == [Instruction(0x02, [Variant(map[], z)])]
  {
    LosingSequenceIs();
    TransformedShape(cfg, s, 0, 0);
    assert Transformed(cfg, s).instructions[0].variants == [Variant(map[], z)];
  }

  lemma LosingSetValid()
    ensures Valid(LosingConfig(), Transformed(LosingConfig(), LosingSet()))
  {
    var z := LosingSequence();
    TransformedIs(LosingConfig(), LosingSet(), z);
    LosingStepsValid(z);
    FetchFine(Fetch());
    ValidWithOne(LosingConfig(), Transformed(LosingConfig(), LosingSet()), 0x02, z);
  }

  lemma LosingRegistered(z: seq<Step>, table: seq<Control>)
    requires z == LosingSequence() && table == LosingConfig().table
    ensures forall k | 0 <= k < |z| :: Registered(table, z[k].controls)
  {
    assert table[0] == ControlInfo(Pc, Write) && table[1] == ControlInfo(Mar, Read) && table[2] == ControlInfo(Controller, InstructionStart);
    assert table[3] == ControlInfo(Memory, Write) && table[4] == ControlInfo(Ir, Read) && table[5] == ControlInfo(Pc, Increment);
    assert table[6] == PUSH && table[7] == INCREMENT && table[8] == RESET;
  }

  lemma {:induction false} DeduplicatedShrinks(steps: seq<Step>)
    ensures |Deduplicated(steps)| <= |steps|
  {
    if steps != [] { DeduplicatedShrinks(steps[..|steps| - 1]); }
  }

  lemma LosingVariantEncodable(cfg: Config, z: seq<Step>)
    requires cfg == LosingConfig() && z == LosingSequence()
    ensures Encodable(cfg, Variant(map[], Deduplicated(z)))
  {
    DeduplicatedShrinks(z);
    DeduplicatedEnds(z);
    LosingRegistered(z, cfg.table);
    var kept := Deduplicated(z);
    forall k | 0 <= k < |kept| ensures Registered(cfg.table, kept[k].controls) {
      var l :| 0 <= l < |z| && z[l] == kept[k];
    }
  }

  lemma CompiledIs(cfg: Config, s: InstructionSet, z: seq<Step>)
    requires cfg == LosingConfig() && s == LosingSet() && z == LosingSequence()
    ensures Valid(cfg, Compiled(cfg, s)) && VariantIndex(Compiled(cfg, s), 0, 0)
    ensures Compiled(cfg, s).instructions == [Instruction(0x02, [Variant(map[], Deduplicated(z))])]
    ensures StepsOf(Compiled(cfg, s), 0, 0) == Deduplicated(z)
  {
    LosingSetValid();
    TransformedIs(cfg, s, z);
    AtZero(s.preamble);
    CompiledOfOne(cfg, Transformed(cfg, s), 0x02, z);
  }

  lemma AtZero(preamble: seq<Step>)
    requires preamble == Fetch()
    ensures AllAtZero(preamble)
  {
  }

  lemma CompiledOfOne(cfg: Config, t: InstructionSet, opcode: byte, z: seq<Step>)
    requires CounterControls(cfg) && Valid(cfg, t) && AllAtZero(t.preamble)
    requires t.instructions == [Instruction(opcode, [Variant(map[], z)])]
    ensures var c := WithMerges(WithoutDuplicates(WithoutEmpty(t)));
            Valid(cfg, c) && c.instructions == [Instruction(opcode, [Variant(map[], Deduplicated(z))])]
  {
    RevalidationCannotFail(cfg, t);
    assert VariantIndex(t, 0, 0) && StepsOf(t, 0, 0) == z;
    var c := WithMerges(WithoutDuplicates(WithoutEmpty(t)));
    assert c.instructions[0].variants == [Variant(map[], Deduplicated(z))];
  }

  lemma EncodableOfOne(cfg: Config, c: InstructionSet, opcode: byte, kept: seq<Step>)
    requires Distinct(cfg.bits) && cfg.bits != [] && Valid(cfg, c)
    requires c.instructions == [Instruction(opcode, [Variant(map[], kept)])] && Encodable(cfg, Variant(map[], kept))
    ensures SetEncodable(cfg, c)
  {
    forall i: nat, j: nat | VariantIndex(c, i, j) ensures Encodable(cfg, c.instructions[i].variants[j]) {
      assert i == 0 && j == 0;
    }
    ValidNeverConflicts(cfg, c);
  }

  /** The compiler accepts the set. */
  lemma LosingSetAccepted(cfg: Config, s: InstructionSet, z: seq<Step>)
    requires cfg == LosingConfig() && s == LosingSet() && z == LosingSequence()
    ensures Accepted(cfg, s)
  {
    CompiledIs(cfg, s, z);
    LosingVariantEncodable(cfg, z);
    EncodableOfOne(cfg, Compiled(cfg, s), 0x02, Deduplicated(z));
    LosingSetValid();
    LosingSetFetches();
    assert HasVariant(s) by { assert VariantIndex(s, 0, 0); }
    AcceptedByFirstValidation(cfg, s);
  }

  lemma CountsOfSnoc(steps: seq<Step>, last: Step)
    ensures var d := if PUSH in last.controls then 1 else 0;
            && Counts(steps + [last]) == Counts(steps) + d
            && Counts(Deduplicated(steps + [last])) ==
               Counts(Deduplicated(steps)) + (if steps != [] && Last(steps) == last then 0 else d)
  {
    var x := steps + [last];
    assert x[..|steps|] == steps && Last(x) == last;
    if steps != [] { DeduplicatedEnds(steps); }
    var kept := Deduplicated(steps);
    assert (kept + [last])[..|kept|] == kept;
  }

  /** The counts of the first `k` steps, before and after collapsing. */
  lemma {:induction false} LosingCounts(z: seq<Step>, k: nat) returns (counts: nat, kept: nat)
    requires z == LosingSequence() && k <= 6
    ensures counts == Counts(z[..k]) && kept == Counts(Deduplicated(z[..k]))
    ensures counts == (if k <= 3 then 0 else if k == 4 then 1 else 2) && kept == (if k <= 3 then 0 else 1)
    decreases k
  {
    if k == 0 {
      counts, kept := 0, 0;
    } else {
      counts, kept := LosingCounts(z, k - 1);
      var step, d := z[k - 1], if k == 4 || k == 5 then 1 else 0;
      LosingStep(z, k - 1, step);
      assert z[..k] == z[..k - 1] + [step];
      CountsOfSnoc(z[..k - 1], step);
      counts, kept := counts + d, kept + if k == 5 then 0 else d;
    }
  }

  lemma LosingStep(z: seq<Step>, k: nat, step: Step)
    requires z == LosingSequence() && k < 6 && step == z[k]
    ensures PUSH in step.controls <==> k == 3 || k == 4
    ensures k > 0 ==> (Last(z[..k]) == step <==> k == 4)
  {
    if k == 0 { assert step.controls[0] == ControlInfo(Pc, Write); }
    if k == 3 || k == 4 { assert step.controls[0] == PUSH; }
  }

  /** Lists that count twice and, collapsed, once. */
  lemma LosesOne(children: seq<Component>, m: Machine, z: seq<Step>, raw: seq<Step>) returns (source: Machine, compiled: Machine)
    requires ChildrenOk(children) && Idle(m) && !m.halted && AllPlain(z) && StepsAgreeAside(z, raw)
    requires Counts(z) == 2 && Counts(Deduplicated(z)) == 1
    ensures Run(children, m, raw) == Ok(source) && Run(children, m, Deduplicated(z)) == Ok(compiled)
    ensures source.regs.sp == Successor(Successor(m.regs.sp)) && compiled.regs.sp == Successor(m.regs.sp)
  {
    var sequenced, counts, kept;
    sequenced, compiled, counts, kept := DroppedCountsAreLost(children, m, z);
    RunsAside(children, m, z, raw);
    source := Run(children, m, raw).value;
    CountedTwice(m.regs.sp);
    assert source.regs.(sc := 0).sp == sequenced.regs.(sc := 0).sp;
  }

  lemma CountedTwice(v: byte)
    ensures CountedUp(v, 1) == Successor(v) && CountedUp(v, 2) == Successor(Successor(v))
  {
  }

  lemma LosingShape(cfg: Config, s: InstructionSet, z: seq<Step>)
    requires cfg == LosingConfig() && s == LosingSet() && z == LosingSequence()
    ensures StepsAgreeAside(z, Source(s, 0, 0))
    ensures Counts(z) == 2 && Counts(Deduplicated(z)) == 1
  {
    var counts, kept := LosingCounts(z, 6);
    assert z[..6] == z;
    LosingSequenceIs();
    SequenceAgrees(cfg, s, 0, 0);
  }

  /** The optimizer's promise fails on a set that the compiler accepts: the source of its instruction advances
      the stack pointer twice, the compiled list once, from every machine. */
  lemma RepeatedCounterStepIsLost(children: seq<Component>, m: Machine, cfg: Config, s: InstructionSet)
    returns (source: Machine, compiled: Machine)
    requires ChildrenOk(children) && Idle(m) && !m.halted && cfg == LosingConfig() && s == LosingSet()
    ensures CounterControls(cfg) && Accepted(cfg, s) && VariantIndex(Compiled(cfg, s), 0, 0)
    ensures Run(children, m, Source(s, 0, 0)) == Ok(source)
    ensures Run(children, m, StepsOf(Compiled(cfg, s), 0, 0)) == Ok(compiled)
    ensures source.regs.sp == Successor(Successor(m.regs.sp)) && compiled.regs.sp == Successor(m.regs.sp)
  {
    var z := LosingSequence();
    LosingSetAccepted(cfg, s, z);
    CompiledIs(cfg, s, z);
    LosingStepsValid(z);
    LosingShape(cfg, s, z);
    source, compiled := LosesOne(children, m, z, Source(s, 0, 0));
  }
}
