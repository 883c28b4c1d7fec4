/** When a program assembles: what its operands stand for, said in terms of its statements. */
module OperandMeaning {
  import opened Bits
  import opened Wrappers
  import opened Isa
  import opened Ast
  import opened Assembler
  import opened AssemblerLayout
  import opened Labels

  // ---------------------------------------------------------------- what a value stands for

  lemma SplitAt(isa: seq<Entry>, origin: word, statements: seq<Statement>, i: nat)
    requires i < |statements| && PlaceAll(isa, origin, Start(origin), statements).Some?
    ensures PlaceAll(isa, origin, Start(origin), statements[..i]).Some?
    ensures var p := PlaceAll(isa, origin, Start(origin), statements[..i]).value;
            && Place(isa, origin, p, statements[i]).Some?
            && PlaceAll(isa, origin, Place(isa, origin, p, statements[i]).value, statements[i + 1..])
               == PlaceAll(isa, origin, Start(origin), statements)
  {
    var rest := [statements[i]] + statements[i + 1..];
    assert statements == statements[..i] + rest && rest[0] == statements[i] && rest[1..] == statements[i + 1..];
    PlaceAllSplits(isa, origin, Start(origin), statements[..i], rest);
  }

  /** The address at which the statements before `i` end. */
  function ReachedAt(isa: seq<Entry>, origin: word, statements: seq<Statement>, i: nat): nat
    requires i < |statements| && PlaceAll(isa, origin, Start(origin), statements).Some?
  {
    SplitAt(isa, origin, statements, i);
    PlaceAll(isa, origin, Start(origin), statements[..i]).value.cursor
  }

  predicate Defines(s: Statement, name: string) {
    s.Equ? && s.constant == name
  }

  /** A number stands for itself; a name for its constant, wherever defined, and without one for its label. */
  ghost predicate Denotes(isa: seq<Entry>, origin: word, statements: seq<Statement>, value: Value, v: nat)
    requires PlaceAll(isa, origin, Start(origin), statements).Some?
  {
    match value
    case Number(number) => v == number
    case Name(name) =>
      || Equ(name, v) in statements
      || ((forall s | s in statements :: !Defines(s, name))
          && exists l | 0 <= l < |statements| :: statements[l] == Label(name) && v == ReachedAt(isa, origin, statements, l))
  }

  lemma LabelBound(isa: seq<Entry>, origin: word, statements: seq<Statement>, l: nat)
    requires l < |statements| && statements[l].Label? && PlaceAll(isa, origin, Start(origin), statements).Some?
    ensures var symbols := PlaceAll(isa, origin, Start(origin), statements).value.symbols;
            statements[l].name in symbols && symbols[statements[l].name] == ReachedAt(isa, origin, statements, l)
  {
    SplitAt(isa, origin, statements, l);
    var p := PlaceAll(isa, origin, Start(origin), statements[..l]).value;
    LayoutGrows(isa, origin, Place(isa, origin, p, statements[l]).value, statements[l + 1..]);
  }

  lemma {:induction false} NoSymbol(isa: seq<Entry>, origin: word, p: Layout, statements: seq<Statement>, name: string)
    requires PlaceAll(isa, origin, p, statements).Some? && name !in p.symbols && Label(name) !in statements
    ensures name !in PlaceAll(isa, origin, p, statements).value.symbols
    decreases |statements|
  {
    if statements != [] {
      assert statements[0] in statements;
      NoSymbol(isa, origin, Place(isa, origin, p, statements[0]).value, statements[1..], name);
    }
  }

  /** The assembler finds for an operand exactly what it stands for. */
  lemma ResolvedIsDenoted(isa: seq<Entry>, origin: word, statements: seq<Statement>, operand: Operand, p: Layout, v: nat)
    requires PlaceAll(isa, origin, Start(origin), statements) == Some(p)
    ensures Resolve(operand, p.symbols, p.constants) == Some(v) <==> Denotes(isa, origin, statements, operand.value, v)
  {
    match operand.value
    case Number(number) =>
    case Name(name) =>
      if e: nat :| e < |statements| && Defines(statements[e], name) {
        ConstantValue(isa, origin, statements, e);
        assert statements[e] in statements && statements[e] == Equ(name, p.constants[name]);
        if Equ(name, v) in statements {
          var e2: nat :| e2 < |statements| && statements[e2] == Equ(name, v);
          ConstantValue(isa, origin, statements, e2);
        }
      } else {
        NoConstant(isa, origin, Start(origin), statements, name);
        assert Equ(name, v) in statements ==> Defines(Equ(name, v), name);
        LabelOrNothing(isa, origin, statements, name, p, v);
      }
  }

  lemma LabelOrNothing(isa: seq<Entry>, origin: word, statements: seq<Statement>, name: string, p: Layout, v: nat)
    requires PlaceAll(isa, origin, Start(origin), statements) == Some(p)
    ensures name in p.symbols && p.symbols[name] == v <==>
            exists l | 0 <= l < |statements| :: statements[l] == Label(name) && v == ReachedAt(isa, origin, statements, l)
  {
    if l: nat :| l < |statements| && statements[l] == Label(name) {
      LabelBound(isa, origin, statements, l);
      forall k: nat | k < |statements| && statements[k] == Label(name) ensures p.symbols[name] == ReachedAt(isa, origin, statements, k) {
        LabelBound(isa, origin, statements, k);
      }
    } else {
      NoSymbol(isa, origin, Start(origin), statements, name);
    }
  }

  // ---------------------------------------------------------------- when the operands of a statement fit

  /** The values an operand of this mode can hold; a branch reaches from the end of its instruction. */
  predicate Holds(mode: Mode, address: nat, v: nat) {
    if mode.REL? then v <= 0xFFFF && -128 <= v - (address + 2) <= 127
    else if OperandBytes(mode) == 2 then v <= 0xFFFF
    else v <= 0xFF
  }

  ghost predicate FitsByte(isa: seq<Entry>, origin: word, statements: seq<Statement>, operand: Operand)
    requires PlaceAll(isa, origin, Start(origin), statements).Some?
  {
    exists v: nat :: Denotes(isa, origin, statements, operand.value, v) && v <= 0xFF
  }

  /** Every byte of `.byte` and the operand of every instruction that has one stand for a value that fits. */
  ghost predicate Fits(isa: seq<Entry>, origin: word, statements: seq<Statement>, item: Item)
    requires PlaceAll(isa, origin, Start(origin), statements).Some?
  {
    match item.content
    case Bytes => forall j | 0 <= j < |item.operands| :: FitsByte(isa, origin, statements, item.operands[j])
    case Instruction(mode, _) =>
      OperandBytes(mode) > 0 && item.operands != [] ==>
        exists v: nat :: Denotes(isa, origin, statements, item.operands[0].value, v) && Holds(mode, item.address, v)
  }

  lemma {:induction false} ByteResolved(operands: seq<Operand>, symbols: map<string, word>, constants: map<string, nat>, j: nat)
    requires j < |operands| && ResolveBytes(operands, symbols, constants).Some?
    ensures ResolveByte(operands[j], symbols, constants) == Some(ResolveBytes(operands, symbols, constants).value[j])
  {
    var n := |operands| - 1;
    if j < n { ByteResolved(operands[..n], symbols, constants, j); }
  }

  lemma {:induction false} BytesResolve(operands: seq<Operand>, symbols: map<string, word>, constants: map<string, nat>)
    ensures ResolveBytes(operands, symbols, constants).Some? <==>
            forall j | 0 <= j < |operands| :: ResolveByte(operands[j], symbols, constants).Some?
  {
    if operands != [] {
      var n := |operands| - 1;
      BytesResolve(operands[..n], symbols, constants);
      assert forall j | 0 <= j < n :: operands[..n][j] == operands[j];
    }
  }

  lemma ByteDenotes(isa: seq<Entry>, origin: word, statements: seq<Statement>, operand: Operand, p: Layout)
    requires PlaceAll(isa, origin, Start(origin), statements) == Some(p)
    ensures ResolveByte(operand, p.symbols, p.constants).Some? <==> FitsByte(isa, origin, statements, operand)
  {
    var value := Resolve(operand, p.symbols, p.constants);
    if value.Some? { ResolvedIsDenoted(isa, origin, statements, operand, p, value.value); }
    forall v: nat | Denotes(isa, origin, statements, operand.value, v) ensures value == Some(v) {
      ResolvedIsDenoted(isa, origin, statements, operand, p, v);
    }
  }

  lemma OperandDenotes(isa: seq<Entry>, origin: word, statements: seq<Statement>, item: Item, mode: Mode, opcode: byte, p: Layout)
    requires PlaceAll(isa, origin, Start(origin), statements) == Some(p)
    requires item.content == Instruction(mode, opcode) && OperandBytes(mode) > 0 && item.operands != []
    ensures Emitted(item, p.symbols, p.constants).Some? <==>
            exists v: nat :: Denotes(isa, origin, statements, item.operands[0].value, v) && Holds(mode, item.address, v)
  {
    var operand := item.operands[0];
    var value := Resolve(operand, p.symbols, p.constants);
    if value.Some? { ResolvedIsDenoted(isa, origin, statements, operand, p, value.value); }
    forall v: nat | Denotes(isa, origin, statements, operand.value, v) ensures value == Some(v) {
      ResolvedIsDenoted(isa, origin, statements, operand, p, v);
    }
  }

  lemma EmittedIfFits(isa: seq<Entry>, origin: word, statements: seq<Statement>, item: Item, p: Layout)
    requires PlaceAll(isa, origin, Start(origin), statements) == Some(p)
    requires item.content.Instruction? && OperandBytes(item.content.mode) > 0 ==> item.operands != []
    ensures Emitted(item, p.symbols, p.constants).Some? <==> Fits(isa, origin, statements, item)
  {
    match item.content
    case Bytes =>
      BytesResolve(item.operands, p.symbols, p.constants);
      forall j | 0 <= j < |item.operands|
        ensures ResolveByte(item.operands[j], p.symbols, p.constants).Some? <==> FitsByte(isa, origin, statements, item.operands[j])
      {
        ByteDenotes(isa, origin, statements, item.operands[j], p);
      }
    case Instruction(mode, opcode) =>
      if OperandBytes(mode) > 0 { OperandDenotes(isa, origin, statements, item, mode, opcode, p); }
  }

  // ---------------------------------------------------------------- exactly when a program assembles

  lemma {:induction false} PlacedBy(statements: seq<Statement>, k: nat) returns (r: nat)
    requires k < ItemCount(statements)
    ensures r < |statements| && Places(statements[r]) && ItemCount(statements[..r]) == k
    decreases |statements|
  {
    if Places(statements[0]) && k == 0 {
      r := 0;
    } else {
      var i := PlacedBy(statements[1..], if Places(statements[0]) then k - 1 else k);
      r := i + 1;
      assert statements[..r][1..] == statements[1..][..i];
    }
  }

  /** The item lies in the ROM. */
  predicate InRom(item: Item, origin: word, romSize: nat) {
    origin <= item.address && item.address + Size(item) <= origin + romSize
  }

  /** A program that passes the first pass assembles if and only if each of its `.byte`s and instructions lies in
      the ROM and each of their operands stands for a value that fits. */
  lemma AssemblesExactly(isa: seq<Entry>, origin: word, romSize: nat, statements: seq<Statement>)
    requires PlaceAll(isa, origin, Start(origin), statements).Some?
    ensures Assembled(isa, origin, romSize, statements).Some? <==>
            forall r: nat | r < |statements| && Places(statements[r]) ::
              && InRom(ItemOf(isa, origin, statements, r), origin, romSize)
              && Fits(isa, origin, statements, ItemOf(isa, origin, statements, r))
  {
    var p := PlaceAll(isa, origin, Start(origin), statements).value;
    SpaceCheckDecidesNothing(isa, origin, romSize, statements);
    PassOneReserves(isa, origin, Start(origin), statements);
    LayoutGrows(isa, origin, Start(origin), statements);
    forall item | item in p.items
      ensures Placeable(item, p, origin, romSize) <==> InRom(item, origin, romSize) && Fits(isa, origin, statements, item)
    {
      assert Reserved(item, origin, p.maxAddress);
      EmittedIfFits(isa, origin, statements, item, p);
    }
    forall r: nat | r < |statements| && Places(statements[r]) ensures ItemOf(isa, origin, statements, r) in p.items {
      StatementPlaced(isa, origin, statements, r);
    }
    forall item | item in p.items ensures exists r: nat | r < |statements| && Places(statements[r]) :: ItemOf(isa, origin, statements, r) == item {
      var k :| 0 <= k < |p.items| && p.items[k] == item;
      var r := PlacedBy(statements, k);
    }
  }

  /** Where nothing overwrites them, the bytes of `.byte` are what its operands stand for. */
  lemma BytesAreDenoted(isa: seq<Entry>, origin: word, romSize: nat, statements: seq<Statement>, r: nat, j: nat, v: nat)
    requires r < |statements| && statements[r].Data? && j < |statements[r].bytes| && Assembled(isa, origin, romSize, statements).Some?
    requires Final(isa, origin, statements, r) && Denotes(isa, origin, statements, statements[r].bytes[j].value, v)
    ensures ByteAt(Assembled(isa, origin, romSize, statements).value, origin, ItemOf(isa, origin, statements, r).address + j) == v
  {
    var p, item := PlaceAll(isa, origin, Start(origin), statements).value, ItemOf(isa, origin, statements, r);
    StatementPlaced(isa, origin, statements, r);
    BytesStand(isa, origin, romSize, statements, r, j);
    ResolvedIsDenoted(isa, origin, statements, statements[r].bytes[j], p, v);
    ByteResolved(item.operands, p.symbols, p.constants, j);
  }

  /** And the operand of an instruction says what it stands for. */
  lemma OperandIsDenoted(isa: seq<Entry>, origin: word, romSize: nat, statements: seq<Statement>, r: nat, v: nat)
    requires r < |statements| && statements[r].Instruct? && statements[r].operands != []
    requires Assembled(isa, origin, romSize, statements).Some? && Final(isa, origin, statements, r)
    requires Denotes(isa, origin, statements, statements[r].operands[0].value, v)
    ensures var item := ItemOf(isa, origin, statements, r);
            item.content.Instruction? && OperandSays(Assembled(isa, origin, romSize, statements).value, origin, item, v)
  {
    var p := PlaceAll(isa, origin, Start(origin), statements).value;
    ResolvedIsDenoted(isa, origin, statements, statements[r].operands[0], p, v);
    OperandComesOut(isa, origin, romSize, statements, r, v);
  }
}
