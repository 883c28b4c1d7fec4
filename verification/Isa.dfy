/** The instruction set as the assembler and the disassembler see it: a table of instructions, looked
    up by opcode or by mnemonic and addressing mode. */
module Isa {
  import opened Bits
  import opened Wrappers
  import opened Text

  datatype Mode = IMP | IMM | ABS | IND | IZX | IZY | ZP | ZPX | ZPY | ABX | ABY | REL

  datatype Entry = Entry(mnemonic: string, mode: Mode, opcode: byte)

  function OperandBytes(mode: Mode): (n: nat)
    ensures n <= 2
  {
    match mode
    case IMP => 0
    case ABS | IND | ABX | ABY => 2
    case _ => 1
  }

  /** The opcode map is filled in table order, so the last entry with an opcode is the one found. */
  function ByOpcode(isa: seq<Entry>, opcode: byte): (r: Option<Entry>)
    ensures r.Some? ==> r.value in isa && r.value.opcode == opcode
    ensures r.None? ==> forall i | 0 <= i < |isa| :: isa[i].opcode != opcode
  {
    LastWithOpcode(isa, |isa|, opcode)
  }

  function LastWithOpcode(isa: seq<Entry>, n: nat, opcode: byte): (r: Option<Entry>)
    requires n <= |isa|
    ensures r.Some? ==> r.value in isa && r.value.opcode == opcode
    ensures r.None? ==> forall i | 0 <= i < n :: isa[i].opcode != opcode
  {
    if n == 0 then None
    else if isa[n - 1].opcode == opcode then Some(isa[n - 1])
    else LastWithOpcode(isa, n - 1, opcode)
  }

  /** The first entry with this mnemonic, letter case aside, and this mode. */
  function ByMnemonic(isa: seq<Entry>, mnemonic: string, mode: Mode): (r: Option<Entry>)
    ensures r.Some? ==> r.value in isa && Lower(r.value.mnemonic) == Lower(mnemonic) && r.value.mode == mode
    ensures r.None? ==> forall i | 0 <= i < |isa| :: !(Lower(isa[i].mnemonic) == Lower(mnemonic) && isa[i].mode == mode)
  {
    FirstNamed(isa, 0, mnemonic, mode)
  }

  function FirstNamed(isa: seq<Entry>, i: nat, mnemonic: string, mode: Mode): (r: Option<Entry>)
    requires i <= |isa|
    ensures r.Some? ==> r.value in isa && Lower(r.value.mnemonic) == Lower(mnemonic) && r.value.mode == mode
    ensures r.None? ==> forall k | i <= k < |isa| :: !(Lower(isa[k].mnemonic) == Lower(mnemonic) && isa[k].mode == mode)
    decreases |isa| - i
  {
    if i == |isa| then None
    else if Lower(isa[i].mnemonic) == Lower(mnemonic) && isa[i].mode == mode then Some(isa[i])
    else FirstNamed(isa, i + 1, mnemonic, mode)
  }

  predicate IsRelative(mnemonic: string) {
    Lower(mnemonic) in ["beq", "bne", "bcs", "bcc", "bmi", "bpl", "bvs", "bvc"]
  }

  predicate IsWord(s: string) {
    s != "" && IsIdentifierStart(s[0]) && forall c | c in s :: IsIdentifierChar(c)
  }

  /** What the generated table satisfies: no opcode and no (mnemonic, mode) pair twice, mnemonics are
      identifiers, and exactly the eight branch mnemonics are relative. */
  ghost predicate WellFormed(isa: seq<Entry>) {
    && (forall e, f | e in isa && f in isa && e.opcode == f.opcode :: e == f)
    && (forall e, f | e in isa && f in isa && Lower(e.mnemonic) == Lower(f.mnemonic) && e.mode == f.mode :: e == f)
    && (forall e | e in isa :: IsWord(e.mnemonic))
    && (forall e | e in isa :: e.mode.REL? <==> IsRelative(e.mnemonic))
  }

  /** The two lookups agree on a well-formed table. */
  lemma FoundByName(isa: seq<Entry>, e: Entry, mnemonic: string)
    requires WellFormed(isa) && e in isa && Lower(mnemonic) == Lower(e.mnemonic)
    ensures ByMnemonic(isa, mnemonic, e.mode) == Some(e)
    ensures ByOpcode(isa, e.opcode) == Some(e)
  {
    var i :| 0 <= i < |isa| && isa[i] == e;
  }
}
