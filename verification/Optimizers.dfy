/** The empty-step, duplicate-step and step-merging optimizers. */
module Optimizers {
  import opened Hdl
  import opened Ir

  function Last<T>(s: seq<T>): T
    requires s != []
  {
    s[|s| - 1]
  }

  // ---------------------------------------------------------------- empty steps

  function NonEmpty(steps: seq<Step>): seq<Step> {
    if steps == [] then []
    else
      var rest := NonEmpty(steps[..|steps| - 1]);
      if Last(steps).controls == [] then rest else rest + [Last(steps)]
  }

  method DropEmptySteps(steps: seq<Step>) returns (r: seq<Step>)
    ensures r == NonEmpty(steps)
  {
    r := [];
    for i := 0 to |steps|
      invariant r == NonEmpty(steps[..i])
    {
      assert steps[..i + 1][..i] == steps[..i];
      if steps[i].controls != [] {
        r := r + [steps[i]];
      }
    }
    assert steps[..|steps|] == steps;
  }

  // ---------------------------------------------------------------- duplicate steps

  function Deduplicated(steps: seq<Step>): (r: seq<Step>)
    ensures (r == []) == (steps == [])
  {
    if steps == [] then []
    else
      var rest := Deduplicated(steps[..|steps| - 1]);
      if rest != [] && Last(rest) == Last(steps) then rest else rest + [Last(steps)]
  }

  method StepsAreIdentical(a: Step, b: Step) returns (same: bool)
    ensures same <==> a == b
  {
    if a.stage != b.stage {
      return false;
    }
    if |a.controls| != |b.controls| {
      return false;
    }
    for i := 0 to |a.controls|
      invariant forall k | 0 <= k < i :: a.controls[k] == b.controls[k]
    {
      if a.controls[i] != b.controls[i] {
        return false;
      }
    }
    return true;
  }

  method CollapseDuplicates(steps: seq<Step>) returns (r: seq<Step>)
    ensures r == Deduplicated(steps)
  {
    if steps == [] {
      return steps;
    }
    r := [steps[0]];
    for i := 1 to |steps|
      invariant r == Deduplicated(steps[..i])
    {
      assert steps[..i + 1][..i] == steps[..i];
      var same := StepsAreIdentical(r[|r| - 1], steps[i]);
      if !same {
        r := r + [steps[i]];
      }
    }
    assert steps[..|steps|] == steps;
  }

  // ---------------------------------------------------------------- step merging

  method MaxPhase(step: Step) returns (max: Phase)
    ensures IsMaxPhase(step.controls, max)
  {
    if step.controls == [] {
      return NoPhase;
    }
    max := NoPhase;
    for i := 0 to |step.controls|
      invariant IsMaxPhase(step.controls[..i], max)
    {
      assert step.controls[..i + 1] == step.controls[..i] + [step.controls[i]];
      if step.controls[i].Phase().Rank() > max.Rank() {
        max := step.controls[i].Phase();
      }
    }
    assert step.controls[..|step.controls|] == step.controls;
  }

  method MinPhase(step: Step) returns (min: Phase)
    ensures IsMinPhase(step.controls, min)
  {
    if step.controls == [] {
      return ClearPhase;
    }
    min := ClearPhase;
    for i := 0 to |step.controls|
      invariant IsMinPhase(step.controls[..i], min)
    {
      assert step.controls[..i + 1] == step.controls[..i] + [step.controls[i]];
      if step.controls[i].Phase().Rank() < min.Rank() {
        min := step.controls[i].Phase();
      }
    }
    assert step.controls[..|step.controls|] == step.controls;
  }

  /** `max` is the latest phase of the controls, or none when there are no controls. */
  ghost predicate IsMaxPhase(controls: seq<Control>, max: Phase) {
    && (forall c | c in controls :: c.Phase().Rank() <= max.Rank())
    && (max.NoPhase? || exists c | c in controls :: c.Phase() == max)
  }

  /** `min` is the earliest phase of the controls, or the clear phase when there are no controls. */
  ghost predicate IsMinPhase(controls: seq<Control>, min: Phase) {
    && (forall c | c in controls :: min.Rank() <= c.Phase().Rank())
    && (min.ClearPhase? || exists c | c in controls :: c.Phase() == min)
  }

  /** Every control of `a` acts in a strictly earlier phase than every control of `b`. */
  predicate StrictlyBefore(a: seq<Control>, b: seq<Control>) {
    forall c, d | c in a && d in b :: c.Phase().Rank() < d.Phase().Rank()
  }

  /** Steps that merging may combine: one stage, and either no controls in the first or controls in
      both with the first strictly before the second. */
  predicate Mergeable(a: Step, b: Step) {
    && a.stage == b.stage
    && (a.controls == [] || (b.controls != [] && StrictlyBefore(a.controls, b.controls)))
  }

  method CanMerge(a: Step, b: Step) returns (can: bool)
    ensures can <==> Mergeable(a, b)
  {
    if a.stage != b.stage {
      return false;
    }
    if a.controls == [] {
      return true;
    }
    if b.controls == [] {
      return false;
    }
    var max := MaxPhase(a);
    var min := MinPhase(b);
    can := max.Rank() < min.Rank();
    if !can {
      assert a.controls[0] in a.controls && b.controls[0] in b.controls;
      assert max.Rank() >= 2 && min.Rank() <= 4;
      var c :| c in a.controls && c.Phase() == max;
      var d :| d in b.controls && d.Phase() == min;
      assert !(c.Phase().Rank() < d.Phase().Rank());
    }
  }

  /** Append the controls of `more` that are not there yet, in order. */
  function AddMissing(controls: seq<Control>, more: seq<Control>): (r: seq<Control>)
    ensures forall c :: c in r <==> c in controls || c in more
    ensures controls == [] && more == [] <==> r == []
  {
    if more == [] then controls
    else
      var rest := AddMissing(controls, more[..|more| - 1]);
      assert more == more[..|more| - 1] + [Last(more)];
      if Last(more) in rest then rest else rest + [Last(more)]
  }

  function Merge2(a: Step, b: Step): Step {
    a.(controls := AddMissing(a.controls, b.controls))
  }

  method MergeSteps(a: Step, b: Step) returns (r: Step)
    ensures r == Merge2(a, b)
  {
    r := a;
    for i := 0 to |b.controls|
      invariant r.stage == a.stage && r.controls == AddMissing(a.controls, b.controls[..i])
    {
      assert b.controls[..i + 1][..i] == b.controls[..i];
      if b.controls[i] !in r.controls {
        r := r.(controls := r.controls + [b.controls[i]]);
      }
    }
    assert b.controls[..|b.controls|] == b.controls;
  }

  function Merged(steps: seq<Step>): (r: seq<Step>)
    ensures (r == []) == (steps == [])
  {
    if steps == [] then []
    else
      var rest := Merged(steps[..|steps| - 1]);
      if rest != [] && Mergeable(Last(rest), Last(steps))
      then rest[|rest| - 1 := Merge2(Last(rest), Last(steps))]
      else rest + [Last(steps)]
  }

  method MergeAdjacentSteps(steps: seq<Step>) returns (r: seq<Step>)
    ensures r == Merged(steps)
  {
    if |steps| < 2 {
      if |steps| == 1 {
        assert steps[..0] == [];
      }
      return steps;
    }
    r := [steps[0]];
    assert steps[..1][..0] == [];
    for i := 1 to |steps|
      invariant r == Merged(steps[..i])
    {
      assert steps[..i + 1][..i] == steps[..i];
      var can := CanMerge(r[|r| - 1], steps[i]);
      if can {
        var merged := MergeSteps(r[|r| - 1], steps[i]);
        r := r[|r| - 1 := merged];
      } else {
        r := r + [steps[i]];
      }
    }
    assert steps[..|steps|] == steps;
  }

  // ---------------------------------------------------------------- running a pass over a set

  method RunEmptyStepOptimizer(s: WorkingSet)
    modifies s
    ensures s.Value() == Rewrite(old(s.Value()), NonEmpty(old(s.preamble)), NonEmpty)
  {
    ghost var start := s.Value();
    s.preamble := DropEmptySteps(s.preamble);
    var i := 0;
    while i < |s.instructions|
      invariant s.preamble == NonEmpty(start.preamble)
      invariant RewrittenUpTo(start.instructions, s.instructions, i, 0, NonEmpty)
    {
      var j := 0;
      while j < |s.instructions[i].variants|
        invariant s.preamble == NonEmpty(start.preamble) && i < |start.instructions|
        invariant RewrittenUpTo(start.instructions, s.instructions, i, j, NonEmpty)
      {
        var steps := DropEmptySteps(s.instructions[i].variants[j].steps);
        s.SetSteps(i, j, steps);
        j := j + 1;
      }
      RewrittenRow(start.instructions, s.instructions, i, NonEmpty);
      i := i + 1;
    }
    RewrittenAll(start, s.instructions, s.preamble, NonEmpty);
  }

  method RunDuplicateStepOptimizer(s: WorkingSet)
    modifies s
    ensures s.Value() == Rewrite(old(s.Value()), Deduplicated(old(s.preamble)), Deduplicated)
  {
    ghost var start := s.Value();
    s.preamble := CollapseDuplicates(s.preamble);
    var i := 0;
    while i < |s.instructions|
      invariant s.preamble == Deduplicated(start.preamble)
      invariant RewrittenUpTo(start.instructions, s.instructions, i, 0, Deduplicated)
    {
      var j := 0;
      while j < |s.instructions[i].variants|
        invariant s.preamble == Deduplicated(start.preamble) && i < |start.instructions|
        invariant RewrittenUpTo(start.instructions, s.instructions, i, j, Deduplicated)
      {
        var steps := CollapseDuplicates(s.instructions[i].variants[j].steps);
        s.SetSteps(i, j, steps);
        j := j + 1;
      }
      RewrittenRow(start.instructions, s.instructions, i, Deduplicated);
      i := i + 1;
    }
    RewrittenAll(start, s.instructions, s.preamble, Deduplicated);
  }

  method RunStepMergingOptimizer(s: WorkingSet)
    modifies s
    ensures s.Value() == Rewrite(old(s.Value()), Merged(old(s.preamble)), Merged)
  {
    ghost var start := s.Value();
    s.preamble := MergeAdjacentSteps(s.preamble);
    var i := 0;
    while i < |s.instructions|
      invariant s.preamble == Merged(start.preamble)
      invariant RewrittenUpTo(start.instructions, s.instructions, i, 0, Merged)
    {
      var j := 0;
      while j < |s.instructions[i].variants|
        invariant s.preamble == Merged(start.preamble) && i < |start.instructions|
        invariant RewrittenUpTo(start.instructions, s.instructions, i, j, Merged)
      {
        var steps := MergeAdjacentSteps(s.instructions[i].variants[j].steps);
        s.SetSteps(i, j, steps);
        j := j + 1;
      }
      RewrittenRow(start.instructions, s.instructions, i, Merged);
      i := i + 1;
    }
    RewrittenAll(start, s.instructions, s.preamble, Merged);
  }
}
