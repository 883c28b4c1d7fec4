/** The compiler: pass order, validation after every pass, and the encoding of the table. */
module Compiler {
  import opened Wrappers
  import opened Bits
  import opened Hdl
  import opened Ir
  import opened Transformers
  import opened Validators
  import opened StatusEncoder
  import opened StatusValidator
  import opened Optimizers
  import opened Encoders

  datatype Config = Config(
    table: seq<Control>,
    bits: StatusBits,
    increment: Control,
    reset: Control,
    expected: set<byte>)

  /** The sparse table. Packed keys are unpacked here; packing loses nothing (`DecodeUndoesEncodeKey`). */
  type Table = map<MicrocodeKey, nat>

  // ---------------------------------------------------------------- all validators

  /** What every run of the validators requires of an instruction set. */
  ghost predicate Valid(cfg: Config, s: InstructionSet) {
    && (forall k | 0 <= k < |s.preamble| :: BusOk(s.preamble[k].controls) && ConflictFree(s.preamble[k].controls))
    && StagesOk(s.preamble)
    && (forall i | 0 <= i < |s.instructions| :: InstructionValid(cfg, s.instructions[i]))
    && CoverageOk(cfg.expected, s.instructions)
  }

  ghost predicate InstructionValid(cfg: Config, inst: Instruction) {
    && (forall j | 0 <= j < |inst.variants| :: StepsValid(cfg, inst.variants[j].steps))
    && StatusOk(cfg.bits, inst.variants)
  }

  ghost predicate StepsValid(cfg: Config, steps: seq<Step>) {
    && (forall k | 0 <= k < |steps| :: BusOk(steps[k].controls) && ConflictFree(steps[k].controls))
    && StagesOk(steps)
    && SequenceOk(cfg.increment, cfg.reset, steps)
  }

  method ValidateSteps(steps: seq<Step>) returns (ok: bool)
    ensures ok <==> forall k | 0 <= k < |steps| :: BusOk(steps[k].controls) && ConflictFree(steps[k].controls)
  {
    for k := 0 to |steps|
      invariant forall l | 0 <= l < k :: BusOk(steps[l].controls) && ConflictFree(steps[l].controls)
    {
      var bus := ValidateBusStep(steps[k]);
      var conflict := ValidateConflictStep(steps[k]);
      if !bus || !conflict {
        return false;
      }
    }
    return true;
  }

  method RunAllValidators(cfg: Config, s: InstructionSet) returns (ok: bool)
    ensures ok <==> Valid(cfg, s)
  {
    var preambleSteps := ValidateSteps(s.preamble);
    var preambleStages := ValidateStages(s.preamble);
    if !preambleSteps || !preambleStages {
      return false;
    }
    for i := 0 to |s.instructions|
      invariant forall l | 0 <= l < i :: InstructionValid(cfg, s.instructions[l])
    {
      var inst := s.instructions[i];
      for j := 0 to |inst.variants|
        invariant forall l | 0 <= l < j :: StepsValid(cfg, inst.variants[l].steps)
      {
        var bus := ValidateSteps(inst.variants[j].steps);
        var stages := ValidateStages(inst.variants[j].steps);
        var sequence := ValidateSequence(cfg.increment, cfg.reset, inst.variants[j].steps);
        if !bus || !stages || !sequence {
          return false;
        }
      }
      var status := ValidateStatus(cfg.bits, inst.variants);
      if !status {
        return false;
      }
    }
    ok := ValidateCoverage(cfg.expected, s.instructions);
  }

  ghost predicate FetchValid(s: InstructionSet) {
    forall i: nat, j: nat | VariantIndex(s, i, j) :: FetchOk(s.preamble, StepsOf(s, i, j))
  }

  method RunFetchValidator(s: InstructionSet) returns (ok: bool)
    ensures ok <==> FetchValid(s)
  {
    for i := 0 to |s.instructions|
      invariant forall k: nat, l: nat | VariantIndex(s, k, l) && k < i :: FetchOk(s.preamble, StepsOf(s, k, l))
    {
      for j := 0 to |s.instructions[i].variants|
        invariant forall k: nat, l: nat | VariantIndex(s, k, l) && (k < i || (k == i && l < j)) ::
                    FetchOk(s.preamble, StepsOf(s, k, l))
      {
        var fine := ValidateFetch(s.preamble, s.instructions[i].variants[j].steps);
        if !fine {
          assert VariantIndex(s, i, j) && !FetchOk(s.preamble, StepsOf(s, i, j));
          return false;
        }
      }
    }
    return true;
  }

  // ---------------------------------------------------------------- table construction

  /** A variant can be encoded: known status names, registered controls and at most 256 steps. */
  predicate Encodable(cfg: Config, v: Variant) {
    && AllNamed(cfg.bits, v.conditions)
    && |v.steps| <= 0x100
    && forall k | 0 <= k < |v.steps| :: Registered(cfg.table, v.steps[k].controls)
  }

  /** The variant is encoded under this key among its first `n` steps. */
  predicate KeyOf(cfg: Config, opcode: byte, v: Variant, n: nat, key: MicrocodeKey) {
    key.opcode == opcode && key.step < n && key.status in Expanded(cfg.bits, v.conditions)
  }

  function WordAt(cfg: Config, v: Variant, step: nat): nat
    requires step < |v.steps| && Registered(cfg.table, v.steps[step].controls)
  {
    Word(cfg.table, v.steps[step].controls)
  }

  /** `after` is `before` with the word added under every key of one step. */
  ghost predicate StepAdded(before: Table, after: Table, opcode: byte, step: byte, word: nat, statuses: seq<nat>) {
    && (forall key :: key in after <==>
          key in before || (key.opcode == opcode && key.step == step && key.status in statuses))
    && (forall key | key in before :: after[key] == before[key])
    && (forall key | key in after && key.opcode == opcode && key.step == step && key.status in statuses :: after[key] == word)
  }

  method EmplaceStep(table: Table, opcode: byte, step: byte, word: nat, statuses: seq<nat>) returns (r: Option<Table>)
    requires forall m | 0 <= m < |statuses| :: statuses[m] < 0x100
    ensures r.Some? ==> StepAdded(table, r.value, opcode, step, word, statuses)
    ensures r.None? ==> exists key :: key in table && key.opcode == opcode && key.step == step
                                      && key.status in statuses && table[key] != word
  {
    var result: Table := table;
    for m := 0 to |statuses|
      invariant StepAdded(table, result, opcode, step, word, statuses[..m])
    {
      var key := MicrocodeKey(opcode, step, statuses[m]);
      if key in result && result[key] != word {
        assert key in table;
        return None;
      }
      result := result[key := word];
      assert statuses[..m + 1] == statuses[..m] + [statuses[m]];
    }
    assert statuses[..|statuses|] == statuses;
    return Some(result);
  }

  /** `after` is `before` with the first `n` steps of the variant added. */
  ghost predicate VariantAdded(cfg: Config, before: Table, after: Table, opcode: byte, v: Variant, n: nat)
    requires n <= |v.steps|
  {
    && (forall key :: key in after <==> key in before || KeyOf(cfg, opcode, v, n, key))
    && (forall key | key in before :: after[key] == before[key])
    && (forall k | 0 <= k < n :: Registered(cfg.table, v.steps[k].controls))
    && (forall key | key in after && KeyOf(cfg, opcode, v, n, key) :: after[key] == WordAt(cfg, v, key.step))
  }

  /** The table says something else about a key of the variant. */
  ghost predicate Clashes(cfg: Config, table: Table, opcode: byte, v: Variant)
    requires Encodable(cfg, v)
  {
    exists key :: key in table && KeyOf(cfg, opcode, v, |v.steps|, key) && table[key] != WordAt(cfg, v, key.step)
  }

  method EncodeVariant(cfg: Config, table: Table, opcode: byte, v: Variant) returns (r: Option<Table>)
    ensures r.Some? ==> Encodable(cfg, v) && VariantAdded(cfg, table, r.value, opcode, v, |v.steps|)
    ensures r.None? ==> Encodable(cfg, v) ==> Clashes(cfg, table, opcode, v)
  {
    var expansion := ExpandPartial(cfg.bits, v.conditions);
    if expansion.None? {
      return None;
    }
    var statuses := expansion.value;
    forall m: nat | m < |statuses| ensures statuses[m] < 0x100 {
      ExpandedFits(cfg.bits, v.conditions, m);
    }
    var result: Table := table;
    for k := 0 to |v.steps|
      invariant k <= 0x100
      invariant VariantAdded(cfg, table, result, opcode, v, k)
    {
      if k > 0xFF {
        return None;
      }
      var word := EncodeControls(cfg.table, v.steps[k].controls);
      if word.None? {
        return None;
      }
      var next := EmplaceStep(result, opcode, k, word.value, statuses);
      if next.None? {
        ghost var key :| key in result && key.opcode == opcode && key.step == k
          && key.status in statuses && result[key] != word.value;
        assert key in table && KeyOf(cfg, opcode, v, |v.steps|, key);
        return None;
      }
      result := next.value;
    }
    return Some(result);
  }

  predicate Earlier(i: nat, j: nat, k: nat, l: nat) {
    i < k || (i == k && j < l)
  }

  /** Variant (k, l) is encoded under the key. */
  predicate EncodedAt(cfg: Config, s: InstructionSet, k: nat, l: nat, key: MicrocodeKey)
    requires VariantIndex(s, k, l)
  {
    var v := s.instructions[k].variants[l];
    KeyOf(cfg, s.instructions[k].opcode, v, |v.steps|, key)
  }

  ghost predicate EncodableUpTo(cfg: Config, s: InstructionSet, i: nat, j: nat) {
    forall k: nat, l: nat | VariantIndex(s, k, l) && Earlier(k, l, i, j) :: Encodable(cfg, s.instructions[k].variants[l])
  }

  /** The table holds exactly the words of the variants before (i, j). */
  ghost predicate TableUpTo(cfg: Config, s: InstructionSet, table: Table, i: nat, j: nat) {
    && EncodableUpTo(cfg, s, i, j)
    && (forall k: nat, l: nat, key | VariantIndex(s, k, l) && Earlier(k, l, i, j) && EncodedAt(cfg, s, k, l, key) ::
          key in table && table[key] == WordAt(cfg, s.instructions[k].variants[l], key.step))
    && (forall key | key in table :: Origin(cfg, s, key, i, j))
  }

  ghost predicate Origin(cfg: Config, s: InstructionSet, key: MicrocodeKey, i: nat, j: nat) {
    exists k: nat, l: nat | VariantIndex(s, k, l) && Earlier(k, l, i, j) :: EncodedAt(cfg, s, k, l, key)
  }

  /** The table holds exactly the words of every variant. */
  ghost predicate TableOf(cfg: Config, s: InstructionSet, table: Table) {
    TableUpTo(cfg, s, table, |s.instructions|, 0)
  }

  /** Every variant can be encoded and no two disagree about a key. */
  ghost predicate SetEncodable(cfg: Config, s: InstructionSet) {
    && EncodableUpTo(cfg, s, |s.instructions|, 0)
    && (forall k: nat, l: nat, m: nat, n: nat, key | VariantIndex(s, k, l) && VariantIndex(s, m, n)
          && EncodedAt(cfg, s, k, l, key) && EncodedAt(cfg, s, m, n, key) ::
          WordAt(cfg, s.instructions[k].variants[l], key.step) == WordAt(cfg, s.instructions[m].variants[n], key.step))
  }

  method Encode(cfg: Config, s: InstructionSet) returns (r: Option<Table>)
    ensures r.Some? <==> SetEncodable(cfg, s)
    ensures r.Some? ==> TableOf(cfg, s, r.value)
  {
    var table: Table := map[];
    for i := 0 to |s.instructions|
      invariant TableUpTo(cfg, s, table, i, 0)
    {
      var inst := s.instructions[i];
      for j := 0 to |inst.variants|
        invariant TableUpTo(cfg, s, table, i, j) && inst == s.instructions[i]
      {
        var next := EncodeVariant(cfg, table, inst.opcode, inst.variants[j]);
        if next.None? {
          CannotEncode(cfg, s, table, i, j);
          return None;
        }
        TableGrows(cfg, s, table, next.value, i, j);
        table := next.value;
      }
      RowDone(cfg, s, table, i);
    }
    CompleteTableAgrees(cfg, s, table);
    return Some(table);
  }

  lemma CannotEncode(cfg: Config, s: InstructionSet, table: Table, i: nat, j: nat)
    requires VariantIndex(s, i, j) && TableUpTo(cfg, s, table, i, j)
    requires var v := s.instructions[i].variants[j];
             Encodable(cfg, v) ==> Clashes(cfg, table, s.instructions[i].opcode, v)
    ensures !SetEncodable(cfg, s)
  {
    var v := s.instructions[i].variants[j];
    assert Earlier(i, j, |s.instructions|, 0);
    if Encodable(cfg, v) {
      var key :| key in table && KeyOf(cfg, s.instructions[i].opcode, v, |v.steps|, key)
        && table[key] != WordAt(cfg, v, key.step);
      assert Origin(cfg, s, key, i, j);
      var k: nat, l: nat :| VariantIndex(s, k, l) && Earlier(k, l, i, j) && EncodedAt(cfg, s, k, l, key);
      assert EncodedAt(cfg, s, i, j, key);
    }
  }

  lemma TableGrows(cfg: Config, s: InstructionSet, before: Table, after: Table, i: nat, j: nat)
    requires VariantIndex(s, i, j) && TableUpTo(cfg, s, before, i, j)
    requires Encodable(cfg, s.instructions[i].variants[j])
    requires var v := s.instructions[i].variants[j];
             VariantAdded(cfg, before, after, s.instructions[i].opcode, v, |v.steps|)
    ensures TableUpTo(cfg, s, after, i, j + 1)
  {
    forall key | key in after ensures Origin(cfg, s, key, i, j + 1) {
      if key in before {
        assert Origin(cfg, s, key, i, j);
        var k: nat, l: nat :| VariantIndex(s, k, l) && Earlier(k, l, i, j) && EncodedAt(cfg, s, k, l, key);
        assert Earlier(k, l, i, j + 1);
      } else {
        assert EncodedAt(cfg, s, i, j, key) && Earlier(i, j, i, j + 1);
      }
    }
    forall k: nat, l: nat, key | VariantIndex(s, k, l) && Earlier(k, l, i, j + 1) && EncodedAt(cfg, s, k, l, key)
      ensures key in after && after[key] == WordAt(cfg, s.instructions[k].variants[l], key.step)
    {
      if k != i || l != j {
        assert Earlier(k, l, i, j);
      }
    }
  }

  lemma RowDone(cfg: Config, s: InstructionSet, table: Table, i: nat)
    requires i < |s.instructions| && TableUpTo(cfg, s, table, i, |s.instructions[i].variants|)
    ensures TableUpTo(cfg, s, table, i + 1, 0)
  {
    var n := |s.instructions[i].variants|;
    forall key | key in table ensures Origin(cfg, s, key, i + 1, 0) {
      assert Origin(cfg, s, key, i, n);
      var k: nat, l: nat :| VariantIndex(s, k, l) && Earlier(k, l, i, n) && EncodedAt(cfg, s, k, l, key);
      assert Earlier(k, l, i + 1, 0);
    }
    forall k: nat, l: nat | VariantIndex(s, k, l) && Earlier(k, l, i + 1, 0) ensures Earlier(k, l, i, n) {
    }
  }

  lemma CompleteTableAgrees(cfg: Config, s: InstructionSet, table: Table)
    requires TableOf(cfg, s, table)
    ensures SetEncodable(cfg, s)
  {
    forall k: nat, l: nat | VariantIndex(s, k, l) ensures Earlier(k, l, |s.instructions|, 0) {
    }
  }

  // ---------------------------------------------------------------- the pipeline

  function Fetched(s: InstructionSet): InstructionSet {
    Rewrite(s, s.preamble, steps => Prefixed(s.preamble, steps))
  }

  function SequencedSet(cfg: Config, s: InstructionSet): InstructionSet {
    Rewrite(s, s.preamble, steps => Sequenced(cfg.increment, cfg.reset, steps))
  }

  function WithoutEmpty(s: InstructionSet): InstructionSet {
    Rewrite(s, NonEmpty(s.preamble), NonEmpty)
  }

  function WithoutDuplicates(s: InstructionSet): InstructionSet {
    Rewrite(s, Deduplicated(s.preamble), Deduplicated)
  }

  function WithMerges(s: InstructionSet): InstructionSet {
    Rewrite(s, Merged(s.preamble), Merged)
  }

  /** The set after the two transformers. */
  function Transformed(cfg: Config, s: InstructionSet): InstructionSet {
    SequencedSet(cfg, Fetched(s))
  }

  /** The set that is encoded. */
  function Compiled(cfg: Config, s: InstructionSet): InstructionSet {
    WithMerges(WithoutDuplicates(WithoutEmpty(Transformed(cfg, s))))
  }

  /** Every check of the pipeline passes. */
  ghost predicate Accepted(cfg: Config, s: InstructionSet) {
    var t := Transformed(cfg, s);
    && FetchValid(Fetched(s))
    && Valid(cfg, t)
    && Valid(cfg, WithoutEmpty(t))
    && Valid(cfg, WithoutDuplicates(WithoutEmpty(t)))
    && Valid(cfg, Compiled(cfg, s))
    && SetEncodable(cfg, Compiled(cfg, s))
  }

  method Compile(cfg: Config, s: InstructionSet) returns (r: Option<Table>)
    ensures r.Some? <==> Accepted(cfg, s)
    ensures r.Some? ==> TableOf(cfg, Compiled(cfg, s), r.value)
  {
    var work := new WorkingSet(s);
    RunFetchTransformer(work);
    var ok := RunFetchValidator(work.Value());
    if !ok { return None; }
    RunSequenceTransformer(work, cfg.increment, cfg.reset);
    ok := RunAllValidators(cfg, work.Value());
    if !ok { return None; }
    RunEmptyStepOptimizer(work);
    ok := RunAllValidators(cfg, work.Value());
    if !ok { return None; }
    RunDuplicateStepOptimizer(work);
    ok := RunAllValidators(cfg, work.Value());
    if !ok { return None; }
    RunStepMergingOptimizer(work);
    ok := RunAllValidators(cfg, work.Value());
    if !ok { return None; }
    r := Encode(cfg, work.Value());
  }
}
