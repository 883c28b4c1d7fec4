/** The machine that runs the burned microcode executes the source steps of its instruction. */
module Execution {
  import opened Wrappers
  import opened Bits
  import opened Hdl
  import opened Ir
  import opened Transformers
  import opened Validators
  import opened Optimizers
  import opened Compiler
  import opened Pipeline
  import opened Simulator
  import opened BusSafety
  import opened StepRuns
  import opened Deduplication
  import opened Sequencing

  // ---------------------------------------------------------------- compiled lists run like their source

  /** Step by step the same controls, those of the sequence counter aside. */
  ghost predicate StepsAgreeAside(a: seq<Step>, b: seq<Step>) {
    |a| == |b| && forall k | 0 <= k < |a| :: AgreeAside(AsSet(a[k].controls), AsSet(b[k].controls))
  }

  lemma {:induction false} RunsAside(children: seq<Component>, m: Machine, a: seq<Step>, b: seq<Step>)
    requires Idle(m) && StepsAgreeAside(a, b)
    ensures SameCore(Run(children, m, a), Run(children, m, b))
    ensures Run(children, m, b).Ok? ==> Idle(Run(children, m, b).value)
    decreases |a|
  {
    if a != [] {
      var n := |a| - 1;
      var x, y := Run(children, m, a[..n]), Run(children, m, b[..n]);
      RunsAside(children, m, a[..n], b[..n]);
      if x.Ok? {
        var s, t := AsSet(a[n].controls), AsSet(b[n].controls);
        OneMoreTick(children, x, y, s);
        TickEndsIdle(children, y.value, t);
        CounterControlsAside(children, y.value, s, t);
        SameCoreThrough(Run(children, m, a), Tick(children, y.value, s, None), Run(children, m, b));
      }
    }
  }

  lemma WithCounterControl(step: Step, c: Control)
    requires c.component.Sc?
    ensures AgreeAside(AsSet(WithControl(step, c).controls), AsSet(step.controls))
  {
  }

  /** The steps of a variant as written: the preamble, then the body. */
  function Source(s: InstructionSet, i: nat, j: nat): seq<Step>
    requires VariantIndex(s, i, j)
  {
    s.preamble + StepsOf(s, i, j)
  }

  /** The steps of a variant before the optimizers. */
  function Sequence(cfg: Config, s: InstructionSet, i: nat, j: nat): seq<Step>
    requires VariantIndex(s, i, j)
  {
    Sequenced(cfg.increment, cfg.reset, Prefixed(s.preamble, StepsOf(s, i, j)))
  }

  lemma SequenceAgrees(cfg: Config, s: InstructionSet, i: nat, j: nat)
    requires CounterControls(cfg) && VariantIndex(s, i, j)
    ensures StepsAgreeAside(Sequence(cfg, s, i, j), Source(s, i, j))
  {
    var fetched := Prefixed(s.preamble, StepsOf(s, i, j));
    forall k | 0 <= k < |fetched|
      ensures AgreeAside(AsSet(Sequence(cfg, s, i, j)[k].controls), AsSet(Source(s, i, j)[k].controls))
    {
      assert fetched[k].controls == Source(s, i, j)[k].controls;
      WithCounterControl(fetched[k], SequenceControl(cfg.increment, cfg.reset, k, |fetched|));
    }
  }

  lemma SameWithControl(a: Step, b: Step, c: Control, d: Control)
    requires c !in a.controls && d !in b.controls && WithControl(a, c) == WithControl(b, d)
    ensures a == b && c == d
  {
    assert WithControl(a, c).controls == a.controls + [c] && WithControl(b, d).controls == b.controls + [d];
    assert (a.controls + [c])[|a.controls|] == c && (b.controls + [d])[|b.controls|] == d;
    assert (a.controls + [c])[..|a.controls|] == a.controls && (b.controls + [d])[..|b.controls|] == b.controls;
  }

  ghost predicate CounterFree(steps: seq<Step>) {
    forall k | 0 <= k < |steps| :: NoneOf(steps[k].controls, TouchesCounter)
  }

  /** Sequencing creates no repeats, and keeps those it finds idempotent or not. */
  lemma SequencedRepeats(cfg: Config, children: seq<Component>, steps: seq<Step>)
    requires CounterControls(cfg) && CounterFree(steps) && RepeatsIdempotent(children, steps)
    ensures RepeatsIdempotent(children, Sequenced(cfg.increment, cfg.reset, steps))
  {
    var x, n := Sequenced(cfg.increment, cfg.reset, steps), |steps|;
    forall i | 0 < i < n && x[i] == x[i - 1] ensures Idempotent(children, AsSet(x[i].controls)) {
      var c, d := SequenceControl(cfg.increment, cfg.reset, i, n), SequenceControl(cfg.increment, cfg.reset, i - 1, n);
      assert c !in steps[i].controls && d !in steps[i - 1].controls;
      SameWithControl(steps[i], steps[i - 1], c, d);
      WithCounterControl(steps[i], c);
      IdempotentAside(children, AsSet(x[i].controls), AsSet(steps[i].controls));
    }
  }

  /** Preamble and body meet at different stages, so neither repeats a step of the other. */
  lemma FetchedRepeats(children: seq<Component>, preamble: seq<Step>, body: seq<Step>)
    requires AllAtZero(preamble) && (preamble != [] ==> forall k | 0 <= k < |body| :: body[k].stage + 1 >= 1)
    requires RepeatsIdempotent(children, preamble) && RepeatsIdempotent(children, body)
    ensures RepeatsIdempotent(children, Prefixed(preamble, body))
  {
    var x, p := Prefixed(preamble, body), |preamble|;
    if p > 0 {
      assert x[p - 1] == preamble[p - 1] && (body != [] ==> x[p] == NextStage(body[0]));
      forall i | 0 < i < |x| && x[i] == x[i - 1] ensures Idempotent(children, AsSet(x[i].controls)) {
        assert i != p;
        if i < p {
          assert preamble[i] == preamble[i - 1];
        } else {
          assert x[i] == NextStage(body[i - p]) && x[i - 1] == NextStage(body[i - p - 1]);
          assert body[i - p] == body[i - p - 1];
        }
      }
    }
  }

  lemma CounterFreeFetched(s: InstructionSet, i: nat, j: nat)
    requires WellBehaved(s) && VariantIndex(s, i, j)
    ensures CounterFree(Prefixed(s.preamble, StepsOf(s, i, j)))
  {
    var body, p := StepsOf(s, i, j), |s.preamble|;
    assert BodyBehaves(s.instructions[i].variants[j]);
    var x := Prefixed(s.preamble, body);
    forall k | 0 <= k < |x| ensures NoneOf(x[k].controls, TouchesCounter) {
      if p == 0 {
        assert NoneOf(body[k].controls, TouchesCounter);
      } else if k < p {
        assert NoneOf(s.preamble[k].controls, TouchesCounter);
      } else {
        assert NoneOf(body[k - p].controls, TouchesCounter);
      }
    }
  }

  /** The compiled steps of a variant do what its source steps do: on every machine the run of the compiled
      list and the run of preamble and body end the same, cycle count and sequence counter aside, provided
      the steps that the source repeats in a row are idempotent. */
  lemma CompiledRunsLikeSource(cfg: Config, children: seq<Component>, s: InstructionSet, i: nat, j: nat, m: Machine)
    requires CounterControls(cfg) && Accepted(cfg, s) && WellBehaved(s) && VariantIndex(s, i, j)
    requires ChildrenOk(children) && Idle(m)
    requires RepeatsIdempotent(children, s.preamble) && RepeatsIdempotent(children, StepsOf(s, i, j))
    ensures VariantIndex(Compiled(cfg, s), i, j)
    ensures SameCore(Run(children, m, StepsOf(Compiled(cfg, s), i, j)), Run(children, m, Source(s, i, j)))
  {
    var x := Sequence(cfg, s, i, j);
    if s.preamble != [] { PreambleIsStageZero(cfg, s, i, j); }
    CompiledVariant(cfg, s, i, j);
    FetchedRepeats(children, s.preamble, StepsOf(s, i, j));
    CounterFreeFetched(s, i, j);
    SequencedRepeats(cfg, children, Prefixed(s.preamble, StepsOf(s, i, j)));
    TransformedShape(cfg, s, i, j);
    assert InstructionValid(cfg, Transformed(cfg, s).instructions[i]);
    assert AllBusOk(x);
    DeduplicationPreservesRuns(children, m, x);
    SequenceAgrees(cfg, s, i, j);
    RunsAside(children, m, x, Source(s, i, j));
    SameCoreThrough(Run(children, m, Deduplicated(x)), Run(children, m, x), Run(children, m, Source(s, i, j)));
  }

  // ---------------------------------------------------------------- the machine executes compiled lists

  /** Nothing drives the interrupt line from outside. */
  predicate Undriven(irqs: seq<Option<bool>>) {
    forall k | 0 <= k < |irqs| :: irqs[k] == None
  }

  /** Every variant starts with the same steps. */
  ghost predicate UniformTo(c: InstructionSet, p: nat) {
    forall i: nat, j: nat, k: nat, l: nat, t: nat | VariantIndex(c, i, j) && VariantIndex(c, k, l) && t < p
      && t < |StepsOf(c, i, j)| && t < |StepsOf(c, k, l)| :: StepsOf(c, i, j)[t] == StepsOf(c, k, l)[t]
  }

  lemma CompiledIsUniform(cfg: Config, s: InstructionSet)
    requires CounterControls(cfg) && Accepted(cfg, s) && WellBehaved(s)
    ensures UniformTo(Compiled(cfg, s), |FetchSteps(cfg, s)|)
  {
    var c := Compiled(cfg, s);
    CompiledIndices(cfg, s);
    forall i: nat, j: nat, k: nat, l: nat, t: nat | VariantIndex(c, i, j) && VariantIndex(c, k, l) && t < |FetchSteps(cfg, s)|
      && t < |StepsOf(c, i, j)| && t < |StepsOf(c, k, l)| ensures StepsOf(c, i, j)[t] == StepsOf(c, k, l)[t]
    {
      VariantShape(cfg, s, i, j);
      VariantShape(cfg, s, k, l);
    }
  }

  /** In tick `t` the controller looks up step `t` of the list. */
  lemma TickOfList(cfg: Config, children: seq<Component>, c: InstructionSet, p: nat, rom: seq<nat>, m: Machine, t: nat,
                   i1: nat, j1: nat, i: nat, j: nat)
    requires InMemory(cfg, c, p, rom) && UniformTo(c, p) && !m.halted && Known(c, IrValue(m.regs)) && m.regs.sc == t
    requires VariantIndex(c, i1, j1) && Selected(cfg, c, m.regs, i1, j1) && t < |StepsOf(c, i1, j1)|
    requires VariantIndex(c, i, j) && t < |StepsOf(c, i, j)| && (p <= t ==> Selected(cfg, c, m.regs, i, j))
    ensures CpuTick(cfg, children, rom, m, None) == Tick(children, m, AsSet(StepsOf(c, i, j)[t].controls), None)
  {
    var i0, j0 := SelectionExists(cfg, c, p, rom, m.regs);
    assert StepsOf(c, i1, j1)[t] == StepsOf(c, i, j)[t];
    LookupNow(cfg, children, c, p, rom, m, None, i1, j1);
  }

  lemma RunToNext(children: seq<Component>, m: Machine, steps: seq<Step>, t: nat)
    requires t < |steps|
    ensures Run(children, m, steps[..t + 1])
         == match Run(children, m, steps[..t]) case Ok(m1) => Tick(children, m1, AsSet(steps[t].controls), None) case Err(e) => Err(e)
  {
    assert steps[..t + 1] == steps[..t] + [steps[t]];
    RunSnoc(children, m, steps[..t], steps[t]);
  }

  /** While the counter counts up, tick `k` of the run runs step `k` of the list. */
  lemma {:induction false} RunsTheList(cfg: Config, children: seq<Component>, c: InstructionSet, p: nat, rom: seq<nat>, m: Machine,
                                       irqs: seq<Option<bool>>, i: nat, j: nat, k: nat)
    requires InMemory(cfg, c, p, rom) && UniformTo(c, p) && ChildrenOk(children) && Idle(m) && m.regs.sc == 0
    requires Lively(cfg, children, rom, m, irqs) && OpcodesKnown(cfg, children, c, rom, m, irqs) && Undriven(irqs)
    requires VariantIndex(c, i, j) && |irqs| == |StepsOf(c, i, j)|
    requires forall t | 0 <= t < |irqs| :: After(cfg, children, rom, m, irqs, t).sc == t
    requires forall t | p <= t < |irqs| :: Selected(cfg, c, After(cfg, children, rom, m, irqs, t), i, j)
    requires k <= |irqs|
    ensures Prefix(cfg, children, rom, m, irqs, k) == Run(children, m, StepsOf(c, i, j)[..k])
    decreases k
  {
    if k == 0 {
      assert irqs[..0] == [] && StepsOf(c, i, j)[..0] == [];
    } else {
      var t := k - 1;
      RunsTheList(cfg, children, c, p, rom, m, irqs, i, j, t);
      PrefixStep(cfg, children, rom, m, irqs, t);
      var i1, j1 := TickOfRun(cfg, children, c, p, rom, m, irqs, t);
      var m1 := Prefix(cfg, children, rom, m, irqs, t).value;
      assert Known(c, IrValue(m1.regs));
      assert After(cfg, children, rom, m, irqs, t) == m1.regs;
      TickOfList(cfg, children, c, p, rom, m1, t, i1, j1, i, j);
      RunToNext(children, m, StepsOf(c, i, j), t);
    }
  }

  /** One instruction, from counter 0 to counter 0, executed out of the burned memory, is the run of the
      source steps of its variant: preamble, then body. The variant is the one that opcode and flags select
      once the preamble is over. */
  lemma InstructionExecutesItsSource(cfg: Config, children: seq<Component>, s: InstructionSet, rom: seq<nat>, m: Machine,
                                     irqs: seq<Option<bool>>) returns (i: nat, j: nat)
    requires Loaded(cfg, s, rom) && ChildrenOk(children) && Idle(m) && m.regs.sc == 0 && irqs != [] && Undriven(irqs)
    requires Lively(cfg, children, rom, m, irqs) && OpcodesKnown(cfg, children, Compiled(cfg, s), rom, m, irqs)
    requires forall k | 0 < k < |irqs| :: After(cfg, children, rom, m, irqs, k).sc != 0
    requires After(cfg, children, rom, m, irqs, |irqs|).sc == 0
    ensures VariantIndex(s, i, j) && VariantIndex(Compiled(cfg, s), i, j)
    ensures forall k | |FetchSteps(cfg, s)| <= k < |irqs| :: Selected(cfg, Compiled(cfg, s), After(cfg, children, rom, m, irqs, k), i, j)
    ensures CpuRun(cfg, children, rom, m, irqs) == Run(children, m, StepsOf(Compiled(cfg, s), i, j))
    ensures RepeatsIdempotent(children, s.preamble) && RepeatsIdempotent(children, StepsOf(s, i, j)) ==>
              SameCore(CpuRun(cfg, children, rom, m, irqs), Run(children, m, Source(s, i, j)))
  {
    var c, p := Compiled(cfg, s), |FetchSteps(cfg, s)|;
    i, j := InstructionTakesItsLength(cfg, children, s, rom, m, irqs);
    CompiledIndices(cfg, s);
    LoadedIsInMemory(cfg, s, rom);
    CompiledIsUniform(cfg, s);
    RunsTheList(cfg, children, c, p, rom, m, irqs, i, j, |irqs|);
    assert irqs[..|irqs|] == irqs && StepsOf(c, i, j)[..|irqs|] == StepsOf(c, i, j);
    if RepeatsIdempotent(children, s.preamble) && RepeatsIdempotent(children, StepsOf(s, i, j)) {
      CompiledRunsLikeSource(cfg, children, s, i, j, m);
    }
  }
}
