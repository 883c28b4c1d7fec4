/** The fetch and sequence transformers. */
module Transformers {
  import opened Hdl
  import opened Ir

  /** A body step moves one stage up to make room for the preamble. */
  function NextStage(step: Step): Step {
    step.(stage := step.stage + 1)
  }

  function Raised(steps: seq<Step>): (r: seq<Step>)
    ensures |r| == |steps| && forall i | 0 <= i < |steps| :: r[i] == NextStage(steps[i])
  {
    seq(|steps|, i requires 0 <= i < |steps| => NextStage(steps[i]))
  }

  function Prefixed(preamble: seq<Step>, steps: seq<Step>): seq<Step> {
    if preamble == [] then steps else preamble + Raised(steps)
  }

  method RunFetchTransformer(s: WorkingSet)
    modifies s
    ensures s.Value() == Rewrite(old(s.Value()), old(s.preamble), steps => Prefixed(old(s.preamble), steps))
  {
    ghost var start := s.Value();
    ghost var f := steps => Prefixed(start.preamble, steps);
    var i := 0;
    while i < |s.instructions|
      invariant s.preamble == start.preamble
      invariant RewrittenUpTo(start.instructions, s.instructions, i, 0, f)
    {
      var j := 0;
      while j < |s.instructions[i].variants|
        invariant s.preamble == start.preamble && i < |start.instructions|
        invariant RewrittenUpTo(start.instructions, s.instructions, i, j, f)
      {
        if s.preamble != [] {
          var steps := s.instructions[i].variants[j].steps;
          var k := 0;
          ghost var raw := steps;
          while k < |steps|
            invariant 0 <= k <= |steps| == |raw|
            invariant forall l | 0 <= l < k :: steps[l] == NextStage(raw[l])
            invariant forall l | k <= l < |raw| :: steps[l] == raw[l]
          {
            steps := steps[k := steps[k].(stage := steps[k].stage + 1)];
            k := k + 1;
          }
          assert steps == Raised(raw);
          s.SetSteps(i, j, s.preamble + steps);
        }
        j := j + 1;
      }
      RewrittenRow(start.instructions, s.instructions, i, f);
      i := i + 1;
    }
    RewrittenAll(start, s.instructions, s.preamble, f);
  }

  /** Add a control unless the step already asserts it. */
  function WithControl(step: Step, c: Control): Step {
    if c in step.controls then step else step.(controls := step.controls + [c])
  }

  /** The control that step `i` of `n` must assert: reset on the last step, increment elsewhere. */
  function SequenceControl(increment: Control, reset: Control, i: nat, n: nat): Control {
    if i + 1 == n then reset else increment
  }

  function Sequenced(increment: Control, reset: Control, steps: seq<Step>): (r: seq<Step>)
    ensures |r| == |steps|
    ensures forall i | 0 <= i < |steps| ::
              r[i] == WithControl(steps[i], SequenceControl(increment, reset, i, |steps|))
  {
    seq(|steps|, i requires 0 <= i < |steps| =>
      WithControl(steps[i], SequenceControl(increment, reset, i, |steps|)))
  }

  method AddSequenceControls(increment: Control, reset: Control, raw: seq<Step>) returns (steps: seq<Step>)
    ensures steps == Sequenced(increment, reset, raw)
  {
    steps := raw;
    var i := 0;
    while i < |steps|
      invariant 0 <= i <= |steps| == |raw|
      invariant forall k | 0 <= k < i ::
                  steps[k] == WithControl(raw[k], SequenceControl(increment, reset, k, |raw|))
      invariant forall k | i <= k < |raw| :: steps[k] == raw[k]
    {
      var isLast := i + 1 == |steps|;
      var toAdd := if isLast then reset else increment;
      var controls := steps[i].controls;
      var k := 0;
      while k < |controls| && controls[k] != toAdd
        invariant 0 <= k <= |controls|
        invariant toAdd !in controls[..k]
      {
        k := k + 1;
      }
      if k == |controls| {
        assert controls[..k] == controls;
        steps := steps[i := steps[i].(controls := controls + [toAdd])];
      }
      i := i + 1;
    }
  }

  method RunSequenceTransformer(s: WorkingSet, increment: Control, reset: Control)
    modifies s
    ensures s.Value() == Rewrite(old(s.Value()), old(s.preamble), steps => Sequenced(increment, reset, steps))
  {
    ghost var start := s.Value();
    ghost var f := steps => Sequenced(increment, reset, steps);
    var i := 0;
    while i < |s.instructions|
      invariant s.preamble == start.preamble
      invariant RewrittenUpTo(start.instructions, s.instructions, i, 0, f)
    {
      var j := 0;
      while j < |s.instructions[i].variants|
        invariant s.preamble == start.preamble && i < |start.instructions|
        invariant RewrittenUpTo(start.instructions, s.instructions, i, j, f)
      {
        var steps := AddSequenceControls(increment, reset, s.instructions[i].variants[j].steps);
        s.SetSteps(i, j, steps);
        j := j + 1;
      }
      RewrittenRow(start.instructions, s.instructions, i, f);
      i := i + 1;
    }
    RewrittenAll(start, s.instructions, s.preamble, f);
  }
}
