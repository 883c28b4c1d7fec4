/** What the passes keep: later validations cannot fail, and fetch is the same for every variant. */
module Pipeline {
  import opened Bits
  import opened Hdl
  import opened Ir
  import opened Transformers
  import opened Validators
  import opened StatusEncoder
  import opened StatusValidator
  import opened Optimizers
  import opened Encoders
  import opened Compiler

  /** The sequence controls are the sequence counter's, as the CPU passes them to the compiler. */
  predicate CounterControls(cfg: Config) {
    cfg.increment == ControlInfo(Sc, Increment) && cfg.reset == ControlInfo(Sc, Reset)
  }

  // ---------------------------------------------------------------- sequenced lists

  predicate Processes(step: Step) {
    exists c | c in step.controls :: c.Phase() == ProcessPhase
  }

  /** Every step asserts a process-phase control. */
  predicate EachProcesses(steps: seq<Step>) {
    forall i | 0 <= i < |steps| :: Processes(steps[i])
  }

  lemma SequencedProcesses(cfg: Config, steps: seq<Step>)
    requires CounterControls(cfg) && SequenceOk(cfg.increment, cfg.reset, steps)
    ensures EachProcesses(steps)
  {
    forall i | 0 <= i < |steps| ensures Processes(steps[i]) {
      var c := SequenceControl(cfg.increment, cfg.reset, i, |steps|);
      assert c in steps[i].controls && c.Phase() == ProcessPhase;
    }
  }

  /** Removing empty steps changes nothing once every step has a control. */
  lemma {:induction false} NothingToRemove(steps: seq<Step>)
    requires EachProcesses(steps)
    ensures NonEmpty(steps) == steps
  {
    if steps != [] {
      var n := |steps| - 1;
      NothingToRemove(steps[..n]);
      assert Processes(steps[n]);
    }
  }

  /** Merging changes nothing once every step has a process-phase control. */
  lemma {:induction false} NothingToMerge(steps: seq<Step>)
    requires EachProcesses(steps)
    ensures Merged(steps) == steps
  {
    if steps != [] {
      var n := |steps| - 1;
      NothingToMerge(steps[..n]);
      if n > 0 {
        assert Processes(steps[n - 1]) && Processes(steps[n]);
        var c :| c in steps[n - 1].controls && c.Phase() == ProcessPhase;
        var d :| d in steps[n].controls && d.Phase() == ProcessPhase;
        assert !StrictlyBefore(steps[n - 1].controls, steps[n].controls);
        assert !Mergeable(steps[n - 1], steps[n]);
      }
    }
  }

  // ---------------------------------------------------------------- deduplication

  /** `kept` lists, in order, the first step of every run of equal steps. */
  lemma {:induction false} DeduplicatedEnds(steps: seq<Step>)
    requires steps != []
    ensures Last(Deduplicated(steps)) == Last(steps) && Deduplicated(steps)[0] == steps[0]
    ensures forall k | 0 <= k < |Deduplicated(steps)| :: Deduplicated(steps)[k] in steps
  {
    var n := |steps| - 1;
    var kept, r := Deduplicated(steps[..n]), Deduplicated(steps);
    if n > 0 { DeduplicatedEnds(steps[..n]); }
    assert r == if kept != [] && Last(kept) == steps[n] then kept else kept + [steps[n]];
    forall k | 0 <= k < |r| ensures r[k] in steps {
      if k < |kept| {
        assert kept[k] in steps[..n];
        InPrefix(steps, n, kept[k]);
      }
    }
  }

  lemma InPrefix(steps: seq<Step>, n: nat, step: Step)
    requires n <= |steps| && step in steps[..n]
    ensures step in steps
  {
  }

  lemma StagesExtend(steps: seq<Step>, next: Step)
    requires StagesOk(steps) && (if steps == [] then next.stage == 0 else 0 <= next.stage - Last(steps).stage <= 1)
    ensures StagesOk(steps + [next])
  {
  }

  lemma StagesOfPrefix(steps: seq<Step>, n: nat)
    requires StagesOk(steps) && n <= |steps|
    ensures StagesOk(steps[..n])
  {
  }

  lemma {:induction false} DeduplicationKeepsStages(steps: seq<Step>)
    requires StagesOk(steps)
    ensures StagesOk(Deduplicated(steps))
  {
    if steps != [] {
      var n := |steps| - 1;
      StagesOfPrefix(steps, n);
      DeduplicationKeepsStages(steps[..n]);
      if n > 0 {
        DeduplicatedEnds(steps[..n]);
        assert 0 <= steps[n].stage - steps[n - 1].stage <= 1;
      }
      StagesExtend(Deduplicated(steps[..n]), steps[n]);
    }
  }

  /** Every kept step but the last was not the last step of the list. */
  lemma {:induction false} KeptBeforeLast(steps: seq<Step>, k: nat)
    requires k + 1 < |Deduplicated(steps)|
    ensures exists i: nat | i + 1 < |steps| :: steps[i] == Deduplicated(steps)[k]
  {
    var n := |steps| - 1;
    var before := steps[..n];
    assert before == [] ==> |Deduplicated(steps)| <= 1;
    DeduplicatedEnds(before);
    assert Deduplicated(steps)[k] in before;
    var i: nat :| i < |before| && before[i] == Deduplicated(steps)[k];
    assert steps[i] == before[i];
  }

  lemma DeduplicationKeepsSequence(cfg: Config, steps: seq<Step>)
    requires SequenceOk(cfg.increment, cfg.reset, steps)
    ensures SequenceOk(cfg.increment, cfg.reset, Deduplicated(steps))
  {
    var r := Deduplicated(steps);
    forall k | 0 <= k < |r| ensures SequenceControl(cfg.increment, cfg.reset, k, |r|) in r[k].controls {
      if k + 1 == |r| {
        DeduplicatedEnds(steps);
        assert r[k] == steps[|steps| - 1];
      } else {
        KeptBeforeLast(steps, k);
        var i: nat :| i + 1 < |steps| && steps[i] == r[k];
        assert cfg.increment in steps[i].controls;
      }
    }
  }

  ghost predicate EachFine(steps: seq<Step>) {
    forall k | 0 <= k < |steps| :: BusOk(steps[k].controls) && ConflictFree(steps[k].controls)
  }

  lemma DeduplicationKeepsFine(steps: seq<Step>)
    requires EachFine(steps)
    ensures EachFine(Deduplicated(steps))
  {
    if steps != [] {
      DeduplicatedEnds(steps);
    }
  }

  lemma DeduplicationKeepsValid(cfg: Config, steps: seq<Step>)
    requires StepsValid(cfg, steps)
    ensures StepsValid(cfg, Deduplicated(steps))
  {
    assert EachFine(steps);
    DeduplicationKeepsFine(steps);
    DeduplicationKeepsStages(steps);
    DeduplicationKeepsSequence(cfg, steps);
    assert EachFine(Deduplicated(steps));
  }

  // ---------------------------------------------------------------- merging

  /** In a bus-valid step that has no write control, no control is on a bus at all. */
  lemma WithoutWriters(controls: seq<Control>)
    requires BusOk(controls) && forall c | c in controls :: !c.operation.Write?
    ensures forall c | c in controls :: c.Phase() == ProcessPhase
  {
    assert !Driven(controls, DataBus) && !Driven(controls, AddressBus);
    assert !Sampled(controls, DataBus) && !Sampled(controls, AddressBus);
    forall c | c in controls ensures c.Phase() == ProcessPhase {
      assert !ReadsBus(c, DataBus) && !ReadsBus(c, AddressBus);
    }
  }

  /** Two bus-valid steps that may be merged: the first is empty, or has no process-phase control while
      the second has nothing else. */
  lemma MergeableShape(a: Step, b: Step)
    requires Mergeable(a, b) && BusOk(b.controls)
    ensures a.controls == [] || ((forall c | c in a.controls :: c.Phase() != ProcessPhase)
                                 && (forall c | c in b.controls :: c.Phase() == ProcessPhase))
  {
    if a.controls != [] {
      var c0 := a.controls[0];
      assert c0 in a.controls && c0.Phase().Rank() >= WritePhase.Rank();
      forall d | d in b.controls ensures !d.operation.Write? {
        assert c0.Phase().Rank() < d.Phase().Rank();
      }
      WithoutWriters(b.controls);
      var d0 := b.controls[0];
      assert d0 in b.controls;
    }
  }

  /** Appending controls that are on no bus keeps the bus discipline. */
  lemma {:induction false} AddingProcessControls(a: seq<Control>, b: seq<Control>)
    requires BusOk(a) && forall c | c in b :: c.Phase() == ProcessPhase
    ensures BusOk(AddMissing(a, b))
  {
    if b != [] {
      var n := |b| - 1;
      AddingProcessControls(a, b[..n]);
      var rest := AddMissing(a, b[..n]);
      var last := b[n];
      if last !in rest {
        var r := rest + [last];
        assert AddMissing(a, b) == r;
        forall bus ensures OneWriterOn(rest, bus) ==> OneWriterOn(r, bus) {
        }
        forall bus ensures Driven(rest, bus) ==> Driven(r, bus) {
          if Driven(rest, bus) {
            var w :| w in rest && WritesBus(w, bus);
            assert w in r;
          }
        }
        forall bus ensures Sampled(r, bus) ==> Sampled(rest, bus) {
          if Sampled(r, bus) {
            var c :| c in r && ReadsBus(c, bus);
            assert c in rest;
          }
        }
      }
    }
  }

  /** Listing controls once each keeps the bus discipline. */
  lemma {:induction false} AddingToNothing(b: seq<Control>)
    requires BusOk(b)
    ensures BusOk(AddMissing([], b))
  {
    var r := AddMissing([], b);
    AddedOnce(b);
    forall bus ensures OneWriterOn(b, bus) ==> OneWriterOn(r, bus) {
      if OneWriterOn(b, bus) {
        forall i, j | 0 <= i < j < |r| && WritesBus(r[i], bus) ensures !WritesBus(r[j], bus) {
          assert r[i] in b && r[j] in b && r[i] != r[j];
          var k, l :| 0 <= k < |b| && 0 <= l < |b| && b[k] == r[i] && b[l] == r[j];
        }
      }
    }
    forall bus ensures Driven(b, bus) ==> Driven(r, bus) {
      if Driven(b, bus) {
        var w :| w in b && WritesBus(w, bus);
        assert w in r;
      }
    }
    forall bus ensures Sampled(r, bus) ==> Sampled(b, bus) {
      if Sampled(r, bus) {
        var c :| c in r && ReadsBus(c, bus);
        assert c in b;
      }
    }
  }

  lemma {:induction false} AddedOnce(b: seq<Control>)
    ensures NoDuplicates(AddMissing([], b))
  {
    if b != [] {
      AddedOnce(b[..|b| - 1]);
    }
  }

  /** Merging two bus-valid, conflict-free steps gives a bus-valid, conflict-free step. */
  lemma MergeKeepsFine(a: Step, b: Step)
    requires Mergeable(a, b) && BusOk(a.controls) && ConflictFree(a.controls)
    requires BusOk(b.controls) && ConflictFree(b.controls)
    ensures BusOk(Merge2(a, b).controls) && ConflictFree(Merge2(a, b).controls)
  {
    MergeableShape(a, b);
    if a.controls == [] {
      AddingToNothing(b.controls);
    } else {
      AddingProcessControls(a.controls, b.controls);
    }
    var r := Merge2(a, b).controls;
    forall c, d | c in r && d in r && c.component == d.component ensures !Opposed(c.operation, d.operation) {
      if c in a.controls && d in a.controls {
      } else if c in b.controls && d in b.controls {
      }
    }
  }

  ghost predicate AllAtZero(steps: seq<Step>) {
    forall k | 0 <= k < |steps| :: steps[k].stage == 0
  }

  lemma {:induction false} MergingKeepsFine(steps: seq<Step>)
    requires EachFine(steps)
    ensures EachFine(Merged(steps))
    ensures AllAtZero(steps) ==> AllAtZero(Merged(steps))
  {
    if steps != [] {
      var n := |steps| - 1;
      MergingKeepsFine(steps[..n]);
      var rest := Merged(steps[..n]);
      if rest != [] && Mergeable(Last(rest), Last(steps)) {
        MergeKeepsFine(Last(rest), Last(steps));
      }
    }
  }

  lemma {:induction false} RemovalKeepsFine(steps: seq<Step>)
    requires EachFine(steps)
    ensures EachFine(NonEmpty(steps))
    ensures AllAtZero(steps) ==> AllAtZero(NonEmpty(steps))
  {
    if steps != [] { RemovalKeepsFine(steps[..|steps| - 1]); }
  }

  // ---------------------------------------------------------------- re-validation

  ghost predicate PreambleFine(preamble: seq<Step>) {
    EachFine(preamble) && AllAtZero(preamble)
  }

  /** The optimised preamble stays fine; it is never encoded, but every validation looks at it. */
  lemma PreambleStaysFine(preamble: seq<Step>)
    requires PreambleFine(preamble)
    ensures PreambleFine(NonEmpty(preamble)) && StagesOk(NonEmpty(preamble))
    ensures PreambleFine(Deduplicated(NonEmpty(preamble))) && StagesOk(Deduplicated(NonEmpty(preamble)))
    ensures PreambleFine(Merged(Deduplicated(NonEmpty(preamble)))) && StagesOk(Merged(Deduplicated(NonEmpty(preamble))))
  {
    var a := NonEmpty(preamble);
    RemovalKeepsFine(preamble);
    var b := Deduplicated(a);
    DeduplicationKeepsFine(a);
    if a != [] { DeduplicatedEnds(a); }
    MergingKeepsFine(b);
  }

  /** A rewriting that keeps each variant valid and the preamble fine keeps the whole set valid. */
  lemma RewriteKeepsValid(cfg: Config, s: InstructionSet, preamble: seq<Step>, f: seq<Step> -> seq<Step>)
    requires Valid(cfg, s) && EachFine(preamble) && StagesOk(preamble)
    requires forall i: nat, j: nat | VariantIndex(s, i, j) :: StepsValid(cfg, f(StepsOf(s, i, j)))
    ensures Valid(cfg, Rewrite(s, preamble, f))
  {
    var r := Rewrite(s, preamble, f);
    forall i | 0 <= i < |r.instructions| ensures InstructionValid(cfg, r.instructions[i]) {
      assert InstructionValid(cfg, s.instructions[i]);
      forall j | 0 <= j < |r.instructions[i].variants| ensures StepsValid(cfg, r.instructions[i].variants[j].steps) {
        assert VariantIndex(s, i, j);
      }
      SameConditionsSameStatus(cfg.bits, s.instructions[i].variants, r.instructions[i].variants);
    }
    assert (set i | 0 <= i < |r.instructions| :: r.instructions[i].opcode)
        == (set i | 0 <= i < |s.instructions| :: s.instructions[i].opcode) by {
      assert forall i | 0 <= i < |s.instructions| :: r.instructions[i].opcode == s.instructions[i].opcode;
    }
  }

  lemma {:induction false} SameConditionsSameExpansion(bits: StatusBits, a: seq<Variant>, b: seq<Variant>)
    requires |a| == |b| && forall j | 0 <= j < |a| :: a[j].conditions == b[j].conditions
    ensures AllExpanded(bits, a) == AllExpanded(bits, b)
  {
    if a != [] { SameConditionsSameExpansion(bits, a[..|a| - 1], b[..|b| - 1]); }
  }

  lemma SameConditionsSameStatus(bits: StatusBits, a: seq<Variant>, b: seq<Variant>)
    requires |a| == |b| && forall j | 0 <= j < |a| :: a[j].conditions == b[j].conditions
    ensures StatusOk(bits, a) == StatusOk(bits, b)
  {
    SameConditionsSameExpansion(bits, a, b);
  }

  /** Once the first full validation passes, validation after each optimizer passes too, and the
      compiled variants are the deduplicated ones. */
  lemma RevalidationCannotFail(cfg: Config, t: InstructionSet)
    requires CounterControls(cfg) && Valid(cfg, t) && AllAtZero(t.preamble)
    ensures Valid(cfg, WithoutEmpty(t))
    ensures Valid(cfg, WithoutDuplicates(WithoutEmpty(t)))
    ensures Valid(cfg, WithMerges(WithoutDuplicates(WithoutEmpty(t))))
    ensures forall i: nat, j: nat | VariantIndex(t, i, j) ::
              VariantIndex(WithMerges(WithoutDuplicates(WithoutEmpty(t))), i, j)
              && StepsOf(WithMerges(WithoutDuplicates(WithoutEmpty(t))), i, j) == Deduplicated(StepsOf(t, i, j))
  {
    PreambleStaysFine(t.preamble);
    forall i: nat, j: nat | VariantIndex(t, i, j)
      ensures NonEmpty(StepsOf(t, i, j)) == StepsOf(t, i, j) && StepsValid(cfg, StepsOf(t, i, j))
    {
      assert InstructionValid(cfg, t.instructions[i]);
      SequencedProcesses(cfg, StepsOf(t, i, j));
      NothingToRemove(StepsOf(t, i, j));
    }
    RewriteKeepsValid(cfg, t, NonEmpty(t.preamble), NonEmpty);
    var u := WithoutEmpty(t);
    forall i: nat, j: nat | VariantIndex(u, i, j)
      ensures StepsOf(u, i, j) == StepsOf(t, i, j) && StepsValid(cfg, Deduplicated(StepsOf(u, i, j)))
    {
      assert VariantIndex(t, i, j);
      DeduplicationKeepsValid(cfg, StepsOf(t, i, j));
    }
    RewriteKeepsValid(cfg, u, Deduplicated(u.preamble), Deduplicated);
    var v := WithoutDuplicates(u);
    forall i: nat, j: nat | VariantIndex(v, i, j)
      ensures Merged(StepsOf(v, i, j)) == StepsOf(v, i, j) == Deduplicated(StepsOf(t, i, j))
      ensures StepsValid(cfg, Merged(StepsOf(v, i, j)))
    {
      assert VariantIndex(u, i, j);
      assert InstructionValid(cfg, v.instructions[i]);
      SequencedProcesses(cfg, StepsOf(v, i, j));
      NothingToMerge(StepsOf(v, i, j));
    }
    RewriteKeepsValid(cfg, v, Merged(v.preamble), Merged);
    forall i: nat, j: nat | VariantIndex(t, i, j)
      ensures VariantIndex(WithMerges(v), i, j) && StepsOf(WithMerges(v), i, j) == Deduplicated(StepsOf(t, i, j))
    {
      assert VariantIndex(u, i, j) && VariantIndex(v, i, j);
    }
  }

  // ---------------------------------------------------------------- the preamble

  /** In a staged list the stage-0 steps are exactly a prefix. */
  lemma {:induction false} StageZeroIsPrefix(steps: seq<Step>)
    requires StagesOk(steps)
    ensures |StageZero(steps)| <= |steps|
    ensures forall k | 0 <= k < |steps| :: steps[k].stage >= 0 && (steps[k].stage == 0 <==> k < |StageZero(steps)|)
  {
    if steps != [] {
      var n := |steps| - 1;
      StageZeroIsPrefix(steps[..n]);
      if n > 0 {
        assert steps[..n][n - 1] == steps[n - 1];
      }
    }
  }

  lemma PrefixedShape(s: InstructionSet, i: nat, j: nat)
    requires VariantIndex(s, i, j)
    ensures VariantIndex(Fetched(s), i, j) && StepsOf(Fetched(s), i, j) == Prefixed(s.preamble, StepsOf(s, i, j))
  {
  }

  lemma TransformedShape(cfg: Config, s: InstructionSet, i: nat, j: nat)
    requires VariantIndex(s, i, j)
    ensures VariantIndex(Transformed(cfg, s), i, j)
    ensures StepsOf(Transformed(cfg, s), i, j) == Sequenced(cfg.increment, cfg.reset, Prefixed(s.preamble, StepsOf(s, i, j)))
  {
    PrefixedShape(s, i, j);
    assert VariantIndex(Fetched(s), i, j);
  }

  lemma {:induction false} SameStagesSameZero(a: seq<Step>, b: seq<Step>)
    requires |a| == |b| && forall k | 0 <= k < |a| :: a[k].stage == b[k].stage
    ensures |StageZero(a)| == |StageZero(b)| && (StagesOk(a) <==> StagesOk(b))
  {
    if a != [] {
      var n := |a| - 1;
      SameStagesSameZero(a[..n], b[..n]);
      if n > 0 {
        assert a[..n][n - 1] == a[n - 1];
      }
    }
  }

  /** The checks, read on the fetched steps: the stages are in order and stage 0 is as long as the preamble. */
  lemma FetchedStages(cfg: Config, s: InstructionSet, i: nat, j: nat)
    requires VariantIndex(s, i, j) && FetchValid(Fetched(s)) && Valid(cfg, Transformed(cfg, s)) && s.preamble != []
    ensures var fetched := Prefixed(s.preamble, StepsOf(s, i, j));
            StagesOk(fetched) && |StageZero(fetched)| == |s.preamble|
  {
    PrefixedShape(s, i, j);
    TransformedShape(cfg, s, i, j);
    var fetched := Prefixed(s.preamble, StepsOf(s, i, j));
    assert FetchOk(s.preamble, StepsOf(Fetched(s), i, j));
    assert InstructionValid(cfg, Transformed(cfg, s).instructions[i]);
    SameStagesSameZero(fetched, Sequenced(cfg.increment, cfg.reset, fetched));
  }

  lemma StagesOfParts(preamble: seq<Step>, body: seq<Step>)
    requires preamble != [] && StagesOk(preamble + Raised(body)) && |StageZero(preamble + Raised(body))| == |preamble|
    ensures AllAtZero(preamble)
    ensures forall k | 0 <= k < |body| :: body[k].stage + 1 >= 1
  {
    var fetched, p := preamble + Raised(body), |preamble|;
    StageZeroIsPrefix(fetched);
    forall k | 0 <= k < p ensures preamble[k].stage == 0 {
      assert fetched[k] == preamble[k];
    }
    forall k | 0 <= k < |body| ensures body[k].stage + 1 >= 1 {
      assert fetched[p + k] == NextStage(body[k]);
    }
  }

  /** After fetch validation and the first full validation, the stage-0 steps of a variant are exactly
      its preamble. */
  lemma PreambleIsStageZero(cfg: Config, s: InstructionSet, i: nat, j: nat)
    requires VariantIndex(s, i, j) && FetchValid(Fetched(s)) && Valid(cfg, Transformed(cfg, s))
    requires s.preamble != []
    ensures AllAtZero(s.preamble)
    ensures forall k | 0 <= k < |StepsOf(s, i, j)| :: StepsOf(s, i, j)[k].stage + 1 >= 1
  {
    FetchedStages(cfg, s, i, j);
    StagesOfParts(s.preamble, StepsOf(s, i, j));
  }

  predicate HasVariant(s: InstructionSet) {
    exists i: nat, j: nat | i < |s.instructions| && j < |s.instructions[i].variants| :: VariantIndex(s, i, j)
  }

  /** With any variant present, the compiler accepts exactly when the fetch check and the first full
      validation pass and the result can be encoded: the three later validations decide nothing. */
  lemma AcceptedByFirstValidation(cfg: Config, s: InstructionSet)
    requires CounterControls(cfg) && HasVariant(s)
    ensures Accepted(cfg, s) <==>
            FetchValid(Fetched(s)) && Valid(cfg, Transformed(cfg, s)) && SetEncodable(cfg, Compiled(cfg, s))
  {
    if FetchValid(Fetched(s)) && Valid(cfg, Transformed(cfg, s)) {
      var i: nat, j: nat :| i < |s.instructions| && j < |s.instructions[i].variants| && VariantIndex(s, i, j);
      if s.preamble != [] {
        PreambleIsStageZero(cfg, s, i, j);
      }
      RevalidationCannotFail(cfg, Transformed(cfg, s));
    }
  }

  /** Validation leaves the table builder nothing to reject but unregistered controls, unknown names and
      lists of more than 256 steps: no two variants of a valid set can disagree about a key. */
  lemma ValidNeverConflicts(cfg: Config, s: InstructionSet)
    requires Distinct(cfg.bits) && cfg.bits != [] && Valid(cfg, s)
    ensures SetEncodable(cfg, s) <==>
            forall i: nat, j: nat | VariantIndex(s, i, j) :: Encodable(cfg, s.instructions[i].variants[j])
  {
    forall i: nat, j: nat | VariantIndex(s, i, j) ensures Earlier(i, j, |s.instructions|, 0) {
    }
    if EncodableUpTo(cfg, s, |s.instructions|, 0) {
      forall k: nat, l: nat, m: nat, n: nat, key | VariantIndex(s, k, l) && VariantIndex(s, m, n)
        && EncodedAt(cfg, s, k, l, key) && EncodedAt(cfg, s, m, n, key)
        ensures k == m && l == n
      {
        assert s.instructions[k].opcode == s.instructions[m].opcode;
        assert InstructionValid(cfg, s.instructions[k]);
        var only := EveryStatusCoveredOnce(cfg.bits, s.instructions[k].variants, key.status);
        ListedAgrees(cfg.bits, s.instructions[k].variants[l].conditions, key.status);
        ListedAgrees(cfg.bits, s.instructions[k].variants[n].conditions, key.status);
      }
    }
  }

  lemma ListedAgrees(bits: StatusBits, partial: Conditions, status: nat)
    requires Distinct(bits) && status in Expanded(bits, partial)
    ensures Agrees(bits, partial, status)
  {
    var e := Expanded(bits, partial);
    var x: nat :| x < |e| && e[x] == status;
    ExpandedMatches(bits, partial, x);
  }

  // ---------------------------------------------------------------- uniform fetch

  /** The preamble as every variant with a body carries it: each step also increments the counter. */
  function Incremented(increment: Control, preamble: seq<Step>): (r: seq<Step>)
    ensures |r| == |preamble| && forall k | 0 <= k < |preamble| :: r[k] == WithControl(preamble[k], increment)
  {
    seq(|preamble|, k requires 0 <= k < |preamble| => WithControl(preamble[k], increment))
  }

  /** The compiled preamble. */
  function FetchSteps(cfg: Config, s: InstructionSet): seq<Step> {
    Deduplicated(Incremented(cfg.increment, s.preamble))
  }

  /** The body of a raw variant as the fetch transformer leaves it. */
  function RaisedBody(s: InstructionSet, body: seq<Step>): seq<Step> {
    if s.preamble == [] then body else Raised(body)
  }

  function BodySteps(cfg: Config, s: InstructionSet, body: seq<Step>): seq<Step> {
    Deduplicated(Sequenced(cfg.increment, cfg.reset, RaisedBody(s, body)))
  }

  lemma SequencedSplits(increment: Control, reset: Control, a: seq<Step>, b: seq<Step>)
    requires b != []
    ensures Sequenced(increment, reset, a + b) == Incremented(increment, a) + Sequenced(increment, reset, b)
  {
  }

  /** Deduplication never joins two parts whose meeting steps are in different stages. */
  lemma {:induction false} DeduplicationSplits(a: seq<Step>, b: seq<Step>)
    requires a == [] || b == [] || Last(a).stage != b[0].stage
    ensures Deduplicated(a + b) == Deduplicated(a) + Deduplicated(b)
  {
    if b == [] {
      assert a + b == a;
    } else if a == [] {
      assert a + b == b;
    } else {
      var n := |b| - 1;
      assert (a + b)[..|a + b| - 1] == a + b[..n];
      assert Last(a + b) == Last(b);
      DeduplicationSplits(a, b[..n]);
      DeduplicatedEnds(a);
      if n == 0 {
        assert Deduplicated(b[..0]) == [];
        assert b[0] == Last(b);
      }
    }
  }

  /** Deduplicating a fetched and sequenced step list deduplicates preamble and body apart. */
  lemma DeduplicatedFetch(cfg: Config, s: InstructionSet, body: seq<Step>)
    requires body != [] && AllAtZero(s.preamble)
    requires s.preamble != [] ==> forall k | 0 <= k < |body| :: body[k].stage + 1 >= 1
    ensures Deduplicated(Sequenced(cfg.increment, cfg.reset, Prefixed(s.preamble, body)))
         == FetchSteps(cfg, s) + BodySteps(cfg, s, body)
    ensures BodySteps(cfg, s, body) != []
  {
    var raised := RaisedBody(s, body);
    assert Prefixed(s.preamble, body) == s.preamble + raised;
    SequencedSplits(cfg.increment, cfg.reset, s.preamble, raised);
    DeduplicationSplits(Incremented(cfg.increment, s.preamble), Sequenced(cfg.increment, cfg.reset, raised));
  }

  /** A compiled variant is its fetched and sequenced step list, deduplicated. */
  lemma CompiledVariant(cfg: Config, s: InstructionSet, i: nat, j: nat)
    requires CounterControls(cfg) && Accepted(cfg, s) && VariantIndex(s, i, j) && AllAtZero(s.preamble)
    ensures VariantIndex(Compiled(cfg, s), i, j)
    ensures StepsOf(Compiled(cfg, s), i, j)
         == Deduplicated(Sequenced(cfg.increment, cfg.reset, Prefixed(s.preamble, StepsOf(s, i, j))))
  {
    RevalidationCannotFail(cfg, Transformed(cfg, s));
    TransformedShape(cfg, s, i, j);
    assert VariantIndex(Transformed(cfg, s), i, j);
  }

  /** Fetch is uniform in the output: every variant with a body step compiles to the same preamble steps
      followed by its own body steps. */
  lemma FetchIsUniform(cfg: Config, s: InstructionSet, i: nat, j: nat)
    requires CounterControls(cfg) && Accepted(cfg, s) && VariantIndex(s, i, j) && StepsOf(s, i, j) != []
    ensures VariantIndex(Compiled(cfg, s), i, j)
    ensures StepsOf(Compiled(cfg, s), i, j) == FetchSteps(cfg, s) + BodySteps(cfg, s, StepsOf(s, i, j))
    ensures BodySteps(cfg, s, StepsOf(s, i, j)) != []
  {
    if s.preamble != [] {
      PreambleIsStageZero(cfg, s, i, j);
    }
    DeduplicatedFetch(cfg, s, StepsOf(s, i, j));
    CompiledVariant(cfg, s, i, j);
  }
}
