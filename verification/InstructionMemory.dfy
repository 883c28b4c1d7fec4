/** The instruction memory: the sparse table burned into a flat ROM, and the controller's lookup. */
module InstructionMemory {
  import opened Wrappers
  import opened Bits
  import opened Hdl
  import opened Ir
  import opened StatusEncoder
  import opened StatusValidator
  import opened Encoders
  import opened Compiler

  datatype LookupError = OutOfBounds | BitsOutsideTable

  /** The ROM is just long enough for the table, holds its words, and is zero elsewhere. */
  ghost predicate Burned(table: Table, rom: seq<nat>) {
    && |rom| > 0
    && (forall key | key in table :: EncodeKey(key) < |rom| && rom[EncodeKey(key)] == table[key])
    && (forall address | 0 <= address < |rom| && rom[address] != 0 :: exists key | key in table :: EncodeKey(key) == address)
    && (|rom| > 1 ==> exists key | key in table :: EncodeKey(key) == |rom| - 1)
  }

  method Burn(table: Table) returns (rom: array<nat>)
    ensures fresh(rom) && Burned(table, rom[..])
  {
    var maxAddress := 0;
    var todo := table.Keys;
    while todo != {}
      invariant todo <= table.Keys
      invariant forall key | key in table && key !in todo :: EncodeKey(key) <= maxAddress
      invariant maxAddress == 0 || exists key | key in table :: EncodeKey(key) == maxAddress
    {
      var key :| key in todo;
      if EncodeKey(key) > maxAddress {
        maxAddress := EncodeKey(key);
      }
      todo := todo - {key};
    }
    rom := new nat[maxAddress + 1](_ => 0);
    todo := table.Keys;
    while todo != {}
      invariant todo <= table.Keys
      invariant forall key | key in table && key !in todo :: rom[EncodeKey(key)] == table[key]
      invariant forall address | 0 <= address < rom.Length && rom[address] != 0 ::
                  exists key | key in table :: EncodeKey(key) == address
    {
      var key :| key in todo;
      forall other | other in table && other != key ensures EncodeKey(other) != EncodeKey(key) {
        if EncodeKey(other) == EncodeKey(key) { KeyInjective(other, key); }
      }
      rom[EncodeKey(key)] := table[key];
      todo := todo - {key};
    }
  }

  /** Read the word at the packed address and decode it, as the controller does every tick. */
  function Lookup(controls: seq<Control>, rom: seq<nat>, key: MicrocodeKey): Result<seq<Control>, LookupError> {
    var address := EncodeKey(key);
    if address >= |rom| then Err(OutOfBounds)
    else if rom[address] >= Pow2(|controls|) then Err(BitsOutsideTable)
    else Ok(Decoded(controls, rom[address]))
  }

  method ReadControls(controls: seq<Control>, rom: array<nat>, opcode: byte, step: byte, status: byte)
    returns (r: Result<seq<Control>, LookupError>)
    ensures r == Lookup(controls, rom[..], MicrocodeKey(opcode, step, status))
  {
    var address := opcode * 0x1_0000 + step * 0x100 + status;
    if address >= rom.Length {
      return Err(OutOfBounds);
    }
    var word := rom[address];
    if word >= Pow2(|controls|) {
      return Err(BitsOutsideTable);
    }
    var decoded := DecodeWord(controls, word);
    return Ok(decoded);
  }

  ghost predicate SameControls(a: seq<Control>, b: seq<Control>) {
    forall c :: c in a <==> c in b
  }

  /** The lookup of an encoded key gives exactly the controls of that compiled step. */
  lemma LookupOfEncoded(cfg: Config, s: InstructionSet, table: Table, rom: seq<nat>, i: nat, j: nat, key: MicrocodeKey)
    requires TableOk(cfg.table) && TableOf(cfg, s, table) && Burned(table, rom)
    requires VariantIndex(s, i, j) && EncodedAt(cfg, s, i, j, key)
    ensures Lookup(cfg.table, rom, key).Ok?
    ensures SameControls(Lookup(cfg.table, rom, key).value, StepsOf(s, i, j)[key.step].controls)
  {
    assert Earlier(i, j, |s.instructions|, 0);
    assert Encodable(cfg, s.instructions[i].variants[j]);
    var controls := StepsOf(s, i, j)[key.step].controls;
    assert table[key] == Word(cfg.table, controls);
    WordFits(cfg.table, controls);
    DecodeUndoesEncode(cfg.table, controls);
  }

  /** A key that no variant is encoded under asserts nothing, or lies past the end of the ROM. */
  lemma LookupOfOther(cfg: Config, s: InstructionSet, table: Table, rom: seq<nat>, key: MicrocodeKey)
    requires TableOf(cfg, s, table) && Burned(table, rom)
    requires forall i: nat, j: nat | VariantIndex(s, i, j) :: !EncodedAt(cfg, s, i, j, key)
    ensures Lookup(cfg.table, rom, key) == Ok([]) || Lookup(cfg.table, rom, key) == Err(OutOfBounds)
  {
    assert !Origin(cfg, s, key, |s.instructions|, 0);
    if EncodeKey(key) < |rom| {
      if rom[EncodeKey(key)] != 0 {
        var other :| other in table && EncodeKey(other) == EncodeKey(key);
        KeyInjective(other, key);
      }
      NoWordNoControls(cfg.table);
    }
  }

  /** Variant `j` of instruction `i` is the one that an opcode and a complete status select. */
  ghost predicate Selects(cfg: Config, s: InstructionSet, opcode: byte, status: byte, i: nat, j: nat) {
    && VariantIndex(s, i, j)
    && s.instructions[i].opcode == opcode
    && Agrees(cfg.bits, s.instructions[i].variants[j].conditions, status)
  }

  /** For every accepted set, opcode and status: exactly one variant of the opcode's instruction is
      selected, and the lookup at each of its steps gives exactly that step's controls. */
  lemma LookupExact(cfg: Config, s: InstructionSet, table: Table, rom: seq<nat>, i: nat, status: byte) returns (j: nat)
    requires TableOk(cfg.table) && Distinct(cfg.bits) && cfg.bits != []
    requires Valid(cfg, s) && TableOf(cfg, s, table) && Burned(table, rom)
    requires i < |s.instructions| && s.instructions[i].variants != [] && Confined(cfg.bits, status)
    ensures Selects(cfg, s, s.instructions[i].opcode, status, i, j)
    ensures forall m: nat, n: nat | Selects(cfg, s, s.instructions[i].opcode, status, m, n) :: m == i && n == j
    ensures |StepsOf(s, i, j)| <= 0x100
    ensures forall step: byte | step < |StepsOf(s, i, j)| ::
              var r := Lookup(cfg.table, rom, MicrocodeKey(s.instructions[i].opcode, step, status));
              r.Ok? && SameControls(r.value, StepsOf(s, i, j)[step].controls)
  {
    assert InstructionValid(cfg, s.instructions[i]);
    j := EveryStatusCoveredOnce(cfg.bits, s.instructions[i].variants, status);
    assert Earlier(i, j, |s.instructions|, 0);
    assert Encodable(cfg, s.instructions[i].variants[j]);
    MatchingIsExpanded(cfg.bits, s.instructions[i].variants[j].conditions, status);
    forall step: byte | step < |StepsOf(s, i, j)|
      ensures var r := Lookup(cfg.table, rom, MicrocodeKey(s.instructions[i].opcode, step, status));
              r.Ok? && SameControls(r.value, StepsOf(s, i, j)[step].controls)
    {
      LookupOfEncoded(cfg, s, table, rom, i, j, MicrocodeKey(s.instructions[i].opcode, step, status));
    }
  }

  /** Past the end of the selected variant the ROM asserts nothing. */
  lemma LookupPastEnd(cfg: Config, s: InstructionSet, table: Table, rom: seq<nat>, i: nat, j: nat, status: byte, step: byte)
    requires Distinct(cfg.bits) && cfg.bits != []
    requires Valid(cfg, s) && TableOf(cfg, s, table) && Burned(table, rom)
    requires VariantIndex(s, i, j) && Selects(cfg, s, s.instructions[i].opcode, status, i, j) && |StepsOf(s, i, j)| <= step
    ensures var r := Lookup(cfg.table, rom, MicrocodeKey(s.instructions[i].opcode, step, status));
            r == Ok([]) || r == Err(OutOfBounds)
  {
    var opcode := s.instructions[i].opcode;
    var key := MicrocodeKey(opcode, step, status);
    assert InstructionValid(cfg, s.instructions[i]);
    var only := EveryStatusCoveredOnce(cfg.bits, s.instructions[i].variants, status);
    forall m: nat, n: nat | VariantIndex(s, m, n) ensures !EncodedAt(cfg, s, m, n, key) {
      if EncodedAt(cfg, s, m, n, key) {
        assert m == i;
        var e := Expanded(cfg.bits, s.instructions[m].variants[n].conditions);
        var x: nat :| x < |e| && e[x] == status;
        ExpandedMatches(cfg.bits, s.instructions[m].variants[n].conditions, x);
      }
    }
    LookupOfOther(cfg, s, table, rom, key);
  }
}
