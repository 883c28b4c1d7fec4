/** The microcode intermediate representation and the working copy that the passes edit. */
module Ir {
  import opened Bits
  import opened Hdl

  datatype Step = Step(stage: int, controls: seq<Control>)

  datatype Variant = Variant(conditions: map<string, bool>, steps: seq<Step>)

  datatype Instruction = Instruction(opcode: byte, variants: seq<Variant>)

  datatype InstructionSet = InstructionSet(preamble: seq<Step>, instructions: seq<Instruction>)

  /** The list of steps of variant `j` of instruction `i`. */
  function StepsOf(s: InstructionSet, i: nat, j: nat): seq<Step>
    requires i < |s.instructions| && j < |s.instructions[i].variants|
  {
    s.instructions[i].variants[j].steps
  }

  predicate VariantIndex(s: InstructionSet, i: nat, j: nat) {
    i < |s.instructions| && j < |s.instructions[i].variants|
  }

  /** Apply a rewriting of step lists to every variant of an instruction. */
  function RewriteVariants(variants: seq<Variant>, f: seq<Step> -> seq<Step>): (r: seq<Variant>)
    ensures |r| == |variants|
    ensures forall j | 0 <= j < |variants| :: r[j] == Variant(variants[j].conditions, f(variants[j].steps))
  {
    seq(|variants|, j requires 0 <= j < |variants| => Variant(variants[j].conditions, f(variants[j].steps)))
  }

  /** Apply a rewriting of step lists to every variant, giving the set the preamble `preamble`. */
  function Rewrite(s: InstructionSet, preamble: seq<Step>, f: seq<Step> -> seq<Step>): (r: InstructionSet)
    ensures r.preamble == preamble && |r.instructions| == |s.instructions|
    ensures forall i | 0 <= i < |s.instructions| ::
              r.instructions[i] == Instruction(s.instructions[i].opcode, RewriteVariants(s.instructions[i].variants, f))
  {
    InstructionSet(preamble,
                   seq(|s.instructions|, i requires 0 <= i < |s.instructions| =>
                     Instruction(s.instructions[i].opcode, RewriteVariants(s.instructions[i].variants, f))))
  }

  /** The instruction set under compilation, edited in place by the passes. */
  class WorkingSet {
    var preamble: seq<Step>
    var instructions: seq<Instruction>

    constructor (s: InstructionSet)
      ensures Value() == s
    {
      preamble := s.preamble;
      instructions := s.instructions;
    }

    function Value(): InstructionSet
      reads this
    {
      InstructionSet(preamble, instructions)
    }

    /** Replace the steps of one variant. */
    method SetSteps(i: nat, j: nat, steps: seq<Step>)
      requires VariantIndex(Value(), i, j)
      modifies this`instructions
      ensures |instructions| == |old(instructions)|
      ensures forall k | 0 <= k < |instructions| && k != i :: instructions[k] == old(instructions[k])
      ensures instructions[i] ==
              old(var inst := instructions[i];
                  inst.(variants := inst.variants[j := inst.variants[j].(steps := steps)]))
    {
      var inst := instructions[i];
      instructions := instructions[i := inst.(variants := inst.variants[j := inst.variants[j].(steps := steps)])];
    }
  }

  /** Progress of a pass: variants before (i, j) rewritten, the rest as they were. */
  ghost predicate RewrittenUpTo(before: seq<Instruction>, now: seq<Instruction>, i: nat, j: nat,
                                f: seq<Step> -> seq<Step>)
  {
    && |now| == |before|
    && i <= |before|
    && (forall k | 0 <= k < i :: now[k] == Instruction(before[k].opcode, RewriteVariants(before[k].variants, f)))
    && (forall k | i < k < |before| :: now[k] == before[k])
    && (i < |before| ==>
          && j <= |before[i].variants|
          && now[i].opcode == before[i].opcode
          && |now[i].variants| == |before[i].variants|
          && (forall l | 0 <= l < j :: now[i].variants[l] ==
                Variant(before[i].variants[l].conditions, f(before[i].variants[l].steps)))
          && (forall l | j <= l < |before[i].variants| :: now[i].variants[l] == before[i].variants[l]))
  }

  lemma RewrittenAll(s: InstructionSet, now: seq<Instruction>, preamble: seq<Step>, f: seq<Step> -> seq<Step>)
    requires RewrittenUpTo(s.instructions, now, |s.instructions|, 0, f)
    ensures InstructionSet(preamble, now) == Rewrite(s, preamble, f)
  {
    assert now == Rewrite(s, preamble, f).instructions;
  }

  lemma RewrittenRow(before: seq<Instruction>, now: seq<Instruction>, i: nat, f: seq<Step> -> seq<Step>)
    requires i < |before| && RewrittenUpTo(before, now, i, |before[i].variants|, f)
    ensures RewrittenUpTo(before, now, i + 1, 0, f)
  {
    assert now[i].variants == RewriteVariants(before[i].variants, f);
  }
}
