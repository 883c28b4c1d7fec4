/** The bus, control-conflict, stage, sequence, fetch and ISA-coverage validators.

    A validator that the compiler runs by throwing on the first fault returns `false` here. */
module Validators {
  import opened Bits
  import opened Hdl
  import opened Ir
  import opened Transformers

  // ---------------------------------------------------------------- buses

  predicate WritesBus(c: Control, bus: BusType) {
    c.operation.Write? && c.Bus() == bus
  }

  predicate ReadsBus(c: Control, bus: BusType) {
    c.operation.Read? && c.Bus() == bus
  }

  /** The bus has at most one writer among the controls; a control listed twice counts twice. */
  ghost predicate OneWriterOn(controls: seq<Control>, bus: BusType) {
    forall i, j | 0 <= i < j < |controls| && WritesBus(controls[i], bus) :: !WritesBus(controls[j], bus)
  }

  ghost predicate OneWriter(controls: seq<Control>) {
    OneWriterOn(controls, DataBus) && OneWriterOn(controls, AddressBus)
  }

  ghost predicate Driven(controls: seq<Control>, bus: BusType) {
    exists w | w in controls :: WritesBus(w, bus)
  }

  ghost predicate Sampled(controls: seq<Control>, bus: BusType) {
    exists r | r in controls :: ReadsBus(r, bus)
  }

  /** Every bus that is read is written. */
  ghost predicate ReadersDriven(controls: seq<Control>) {
    && (Sampled(controls, DataBus) ==> Driven(controls, DataBus))
    && (Sampled(controls, AddressBus) ==> Driven(controls, AddressBus))
  }

  ghost predicate BusOk(controls: seq<Control>) {
    OneWriter(controls) && ReadersDriven(controls)
  }

  function Users(controls: seq<Control>, operation: Operation, bus: BusType): (r: seq<Control>)
    ensures r != [] <==> exists c | c in controls :: c.operation == operation && c.Bus() == bus
  {
    if controls == [] then []
    else
      var n := |controls| - 1;
      var rest := Users(controls[..n], operation, bus);
      assert controls == controls[..n] + [controls[n]];
      if controls[n].operation == operation && controls[n].Bus() == bus then rest + [controls[n]] else rest
  }

  lemma {:induction false} UsersOfPrefix(controls: seq<Control>, i: nat, operation: Operation, bus: BusType)
    requires i < |controls|
    ensures Users(controls[..i + 1], operation, bus) ==
            if controls[i].operation == operation && controls[i].Bus() == bus
            then Users(controls[..i], operation, bus) + [controls[i]]
            else Users(controls[..i], operation, bus)
  {
    assert controls[..i + 1][..i] == controls[..i];
  }

  lemma NoUsers(controls: seq<Control>, bus: BusType)
    ensures Users(controls, Write, bus) == [] <==> forall i | 0 <= i < |controls| :: !WritesBus(controls[i], bus)
  {
    if Users(controls, Write, bus) != [] {
      var c :| c in controls && c.operation == Write && c.Bus() == bus;
      var i :| 0 <= i < |controls| && controls[i] == c;
      assert WritesBus(controls[i], bus);
    }
  }

  lemma OneWriterSplits(controls: seq<Control>, n: nat, bus: BusType)
    requires |controls| == n + 1
    ensures OneWriterOn(controls, bus)
            <==> OneWriterOn(controls[..n], bus)
                 && (WritesBus(controls[n], bus) ==> forall i | 0 <= i < n :: !WritesBus(controls[..n][i], bus))
  {
    assert forall i | 0 <= i < n :: controls[..n][i] == controls[i];
  }

  lemma {:induction false} SingleUserMeansOneWriter(controls: seq<Control>, bus: BusType)
    ensures |Users(controls, Write, bus)| <= 1 <==> OneWriterOn(controls, bus)
  {
    if controls != [] {
      var n := |controls| - 1;
      var before := controls[..n];
      SingleUserMeansOneWriter(before, bus);
      assert controls[..n + 1] == controls;
      UsersOfPrefix(controls, n, Write, bus);
      NoUsers(before, bus);
      OneWriterSplits(controls, n, bus);
    }
  }

  function Listed(m: map<BusType, seq<Control>>, bus: BusType): seq<Control> {
    if bus in m then m[bus] else []
  }

  /** The map lists, bus by bus, the controls with this operation. */
  ghost predicate Lists(m: map<BusType, seq<Control>>, controls: seq<Control>, operation: Operation) {
    forall bus :: Listed(m, bus) == Users(controls, operation, bus)
  }

  method CollectUsers(controls: seq<Control>, operation: Operation) returns (users: map<BusType, seq<Control>>)
    ensures Lists(users, controls, operation)
  {
    users := map[];
    for i := 0 to |controls|
      invariant Lists(users, controls[..i], operation)
    {
      ghost var before := users;
      if controls[i].operation == operation {
        var bus := controls[i].Bus();
        users := users[bus := Listed(users, bus) + [controls[i]]];
      }
      forall bus ensures Listed(users, bus) == Users(controls[..i + 1], operation, bus) {
        UsersOfPrefix(controls, i, operation, bus);
        assert Listed(before, bus) == Users(controls[..i], operation, bus);
      }
    }
    assert controls[..|controls|] == controls;
  }

  lemma ListedUsers(controls: seq<Control>, bus: BusType)
    ensures Users(controls, Write, bus) != [] <==> Driven(controls, bus)
    ensures Users(controls, Read, bus) != [] <==> Sampled(controls, bus)
  {
    if Users(controls, Write, bus) != [] {
      var w :| w in controls && w.operation == Write && w.Bus() == bus;
      assert WritesBus(w, bus);
    }
    if Users(controls, Read, bus) != [] {
      var r :| r in controls && r.operation == Read && r.Bus() == bus;
      assert ReadsBus(r, bus);
    }
  }

  method ValidateBusStep(step: Step) returns (ok: bool)
    ensures ok <==> BusOk(step.controls)
  {
    var writers := CollectUsers(step.controls, Write);
    var readers := CollectUsers(step.controls, Read);
    forall bus ensures
        && (|Listed(writers, bus)| <= 1 <==> OneWriterOn(step.controls, bus))
        && (Listed(writers, bus) != [] <==> Driven(step.controls, bus))
        && (Listed(readers, bus) != [] <==> Sampled(step.controls, bus))
    {
      SingleUserMeansOneWriter(step.controls, bus);
      ListedUsers(step.controls, bus);
    }
    assert Listed(writers, NoBus) == [] && Listed(readers, NoBus) == [];
    var todo := writers.Keys;
    while todo != {}
      invariant todo <= writers.Keys
      invariant forall bus | bus !in todo :: |Listed(writers, bus)| <= 1
    {
      var bus :| bus in todo;
      if |writers[bus]| > 1 {
        assert !OneWriterOn(step.controls, bus);
        return false;
      }
      todo := todo - {bus};
    }
    todo := readers.Keys;
    while todo != {}
      invariant todo <= readers.Keys
      invariant forall bus | bus !in todo :: Listed(readers, bus) != [] ==> Listed(writers, bus) != []
    {
      var bus :| bus in todo;
      if readers[bus] != [] && Listed(writers, bus) == [] {
        assert Sampled(step.controls, bus) && !Driven(step.controls, bus);
        return false;
      }
      todo := todo - {bus};
    }
    return true;
  }

  // ---------------------------------------------------------------- conflicts

  predicate Opposed(a: Operation, b: Operation) {
    (a.Read? && b.Write?) || (a.Set? && b.Clear?) || (a.Increment? && b.Decrement?)
  }

  /** No component is asked for two opposed operations. */
  ghost predicate ConflictFree(controls: seq<Control>) {
    forall c, d | c in controls && d in controls && c.component == d.component :: !Opposed(c.operation, d.operation)
  }

  method ValidateConflictStep(step: Step) returns (ok: bool)
    ensures ok <==> ConflictFree(step.controls)
  {
    var controls := step.controls;
    var operations: map<Component, set<Operation>> := map[];
    for i := 0 to |controls|
      invariant forall c | c in controls[..i] :: c.component in operations && c.operation in operations[c.component]
      invariant forall k, op | k in operations && op in operations[k] :: ControlInfo(k, op) in controls[..i]
    {
      var k := controls[i].component;
      var seen := if k in operations then operations[k] else {};
      operations := operations[k := seen + {controls[i].operation}];
      assert controls[..i + 1] == controls[..i] + [controls[i]];
    }
    assert controls[..|controls|] == controls;
    var todo := operations.Keys;
    while todo != {}
      invariant todo <= operations.Keys
      invariant forall k | k in operations && k !in todo ::
                  !(Read in operations[k] && Write in operations[k])
                  && !(Set in operations[k] && Clear in operations[k])
                  && !(Increment in operations[k] && Decrement in operations[k])
    {
      var k :| k in todo;
      var ops := operations[k];
      if (Read in ops && Write in ops) || (Set in ops && Clear in ops) || (Increment in ops && Decrement in ops) {
        var a, b := if Read in ops && Write in ops then Read else if Set in ops && Clear in ops then Set else Increment,
                    if Read in ops && Write in ops then Write else if Set in ops && Clear in ops then Clear else Decrement;
        assert ControlInfo(k, a) in controls && ControlInfo(k, b) in controls && Opposed(a, b);
        return false;
      }
      todo := todo - {k};
    }
    return true;
  }

  // ---------------------------------------------------------------- stages

  /** The stage discipline: stages start at 0 and each step stays or moves up by one. */
  predicate StagesOk(steps: seq<Step>) {
    && (steps != [] ==> steps[0].stage == 0)
    && forall i | 0 < i < |steps| :: 0 <= steps[i].stage - steps[i - 1].stage <= 1
  }

  lemma Element<T>(s: set<T>) returns (x: T)
    requires s != {}
    ensures x in s
  {
    x :| x in s;
  }

  lemma {:induction false} LeastStage(s: set<int>) returns (m: int)
    requires s != {}
    ensures m in s && forall x | x in s :: m <= x
    decreases s
  {
    var first := Element(s);
    var rest := s - {first};
    m := first;
    if rest != {} {
      var n := LeastStage(rest);
      m := if n < first then n else first;
    }
    forall x | x in s ensures m <= x {
      assert x == first || x in rest;
    }
  }

  /** A non-decreasing list of stages from 0 has every stage up to its last when each step is at most one. */
  lemma {:induction false} StagesReached(steps: seq<Step>, n: nat, t: int)
    requires n < |steps| && StagesOk(steps[..n + 1]) && 0 <= t <= steps[n].stage
    ensures exists i | 0 <= i <= n :: steps[i].stage == t
  {
    var first := steps[..n + 1];
    assert first[n].stage == steps[n].stage && first[0] == steps[0];
    if n > 0 && t < steps[n].stage {
      assert 0 <= first[n].stage - first[n - 1].stage <= 1;
      assert steps[..n] == first[..n];
      StagesReached(steps, n - 1, t);
      var i :| 0 <= i <= n - 1 && steps[i].stage == t;
    }
  }

  lemma {:induction false} StagesMonotone(steps: seq<Step>, i: nat, j: nat)
    requires i <= j < |steps| && forall k | 0 < k < |steps| :: steps[k - 1].stage <= steps[k].stage
    ensures steps[i].stage <= steps[j].stage
    decreases j - i
  {
    if i < j { StagesMonotone(steps, i, j - 1); }
  }

  ghost predicate Monotone(steps: seq<Step>) {
    forall k | 0 < k < |steps| :: steps[k - 1].stage <= steps[k].stage
  }

  ghost function StageSet(steps: seq<Step>): set<int> {
    set k | 0 <= k < |steps| :: steps[k].stage
  }

  /** No stage between 0 and a used stage is missing. */
  ghost predicate GapFree(stages: set<int>) {
    forall s, t: nat | s in stages && t < s :: t in stages
  }

  /** For a list in order from stage 0, having no gaps means moving up one stage at a time. */
  lemma {:induction false} GapFreeMeansSingleMoves(steps: seq<Step>)
    requires steps != [] && steps[0].stage == 0 && Monotone(steps)
    ensures GapFree(StageSet(steps)) <==> StagesOk(steps)
    ensures forall t | t in StageSet(steps) :: t >= 0
  {
    forall t | t in StageSet(steps) ensures t >= 0 {
      var k :| 0 <= k < |steps| && steps[k].stage == t;
      StagesMonotone(steps, 0, k);
    }
    if StagesOk(steps) {
      forall s, t: nat | s in StageSet(steps) && t < s ensures t in StageSet(steps) {
        var n :| 0 <= n < |steps| && steps[n].stage == s;
        StagesReached(steps, n, t);
      }
    }
    if GapFree(StageSet(steps)) {
      forall i | 0 < i < |steps| ensures 0 <= steps[i].stage - steps[i - 1].stage <= 1 {
        StagesMonotone(steps, 0, i - 1);
        var t := steps[i - 1].stage + 1;
        if steps[i].stage > t {
          assert steps[i].stage in StageSet(steps) && t in StageSet(steps);
          var k :| 0 <= k < |steps| && steps[k].stage == t;
          if k < i { StagesMonotone(steps, k, i - 1); } else { StagesMonotone(steps, i, k); }
        }
      }
    }
  }

  method CheckNoGaps(stages: set<int>) returns (ok: bool)
    requires forall t | t in stages :: t >= 0
    ensures ok <==> GapFree(stages)
  {
    var expected := 0;
    var rest := stages;
    while rest != {}
      invariant rest <= stages && expected >= 0
      invariant forall t | 0 <= t < expected :: t in stages
      invariant forall t | t in stages :: t in rest <==> expected <= t
    {
      ghost var least := LeastStage(rest);
      var stage: int :| stage in rest && forall x | x in rest :: stage <= x;
      if stage != expected {
        assert stage in stages && expected < stage && expected !in stages;
        return false;
      }
      rest := rest - {stage};
      expected := expected + 1;
    }
    return true;
  }

  /** The start, order and gap checks, one loop each. */
  method ValidateStages(steps: seq<Step>) returns (ok: bool)
    ensures ok <==> StagesOk(steps)
  {
    if steps == [] {
      return true;
    }
    if steps[0].stage != 0 {
      return false;
    }
    var previous := -1;
    for i := 0 to |steps|
      invariant previous == if i > 0 then steps[i - 1].stage else -1
      invariant forall k | 0 < k < i :: steps[k - 1].stage <= steps[k].stage
    {
      if steps[i].stage < previous {
        assert steps[i].stage - steps[i - 1].stage < 0;
        return false;
      }
      previous := steps[i].stage;
    }
    var stages: set<int> := {};
    for i := 0 to |steps|
      invariant stages == set k | 0 <= k < i :: steps[k].stage
    {
      stages := stages + {steps[i].stage};
    }
    GapFreeMeansSingleMoves(steps);
    ok := CheckNoGaps(stages);
  }

  // ---------------------------------------------------------------- sequence controls

  /** The last step resets the sequence counter and every other step increments it. */
  predicate SequenceOk(increment: Control, reset: Control, steps: seq<Step>) {
    forall i | 0 <= i < |steps| :: SequenceControl(increment, reset, i, |steps|) in steps[i].controls
  }

  method ValidateSequence(increment: Control, reset: Control, steps: seq<Step>) returns (ok: bool)
    ensures ok <==> SequenceOk(increment, reset, steps)
  {
    for i := 0 to |steps|
      invariant forall k | 0 <= k < i :: SequenceControl(increment, reset, k, |steps|) in steps[k].controls
    {
      var isLast := i + 1 == |steps|;
      var expected := if isLast then reset else increment;
      var found := expected in steps[i].controls;
      if !found {
        return false;
      }
    }
    return true;
  }

  // ---------------------------------------------------------------- fetch preamble

  function StageZero(steps: seq<Step>): seq<Step> {
    if steps == [] then []
    else
      var rest := StageZero(steps[..|steps| - 1]);
      if steps[|steps| - 1].stage == 0 then rest + [steps[|steps| - 1]] else rest
  }

  /** The stage-0 steps assert the same controls, in order, as the preamble. */
  predicate FetchOk(preamble: seq<Step>, steps: seq<Step>) {
    var zero := StageZero(steps);
    preamble == [] ||
    (|zero| == |preamble| && forall i | 0 <= i < |zero| :: zero[i].controls == preamble[i].controls)
  }

  method ValidateFetch(preamble: seq<Step>, steps: seq<Step>) returns (ok: bool)
    ensures ok <==> FetchOk(preamble, steps)
  {
    if preamble == [] {
      return true;
    }
    var zero := [];
    for i := 0 to |steps|
      invariant zero == StageZero(steps[..i])
    {
      assert steps[..i + 1][..i] == steps[..i];
      if steps[i].stage == 0 {
        zero := zero + [steps[i]];
      }
    }
    assert steps[..|steps|] == steps;
    if |zero| != |preamble| {
      return false;
    }
    for i := 0 to |zero|
      invariant forall k | 0 <= k < i :: zero[k].controls == preamble[k].controls
    {
      if zero[i].controls != preamble[i].controls {
        return false;
      }
    }
    return true;
  }

  // ---------------------------------------------------------------- ISA coverage

  /** Every opcode of the ISA has exactly one instruction, and there are no others. */
  ghost predicate CoverageOk(expected: set<byte>, instructions: seq<Instruction>) {
    && (forall i, k | 0 <= i < k < |instructions| :: instructions[i].opcode != instructions[k].opcode)
    && (set i | 0 <= i < |instructions| :: instructions[i].opcode) == expected
  }

  method ValidateCoverage(expected: set<byte>, instructions: seq<Instruction>) returns (ok: bool)
    ensures ok <==> CoverageOk(expected, instructions)
  {
    var seen: set<byte> := {};
    for i := 0 to |instructions|
      invariant seen == set k | 0 <= k < i :: instructions[k].opcode
      invariant seen <= expected
      invariant forall j, k | 0 <= j < k < i :: instructions[j].opcode != instructions[k].opcode
    {
      if instructions[i].opcode !in expected {
        assert instructions[i].opcode in set k | 0 <= k < |instructions| :: instructions[k].opcode;
        return false;
      }
      if instructions[i].opcode in seen {
        return false;
      }
      seen := seen + {instructions[i].opcode};
    }
    ok := |seen| == |expected|;
    if ok {
      SubsetOfSameSize(seen, expected);
    }
  }

  lemma {:induction false} SubsetOfSameSize<T>(a: set<T>, b: set<T>)
    requires a <= b && |a| == |b|
    ensures a == b
  {
    if a != b {
      var x :| x in b && x !in a;
      SubsetSize(a, b - {x});
    }
  }

  lemma {:induction false} SubsetSize<T>(a: set<T>, b: set<T>)
    requires a <= b
    ensures |a| <= |b|
    decreases a
  {
    if a != {} {
      var x :| x in a;
      SubsetSize(a - {x}, b - {x});
    }
  }
}
