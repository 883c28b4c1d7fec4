/** What a name in an operand becomes: a label the address of what it stands before, a constant its value. */
module Labels {
  import opened Bits
  import opened Wrappers
  import opened Text
  import opened Isa
  import opened Ast
  import opened Assembler
  import opened AssemblerLayout
  import Branches
  import Disassembler

  /** The item that statement `r` places. */
  function ItemOf(isa: seq<Entry>, origin: word, statements: seq<Statement>, r: nat): Item
    requires r < |statements| && Places(statements[r]) && PlaceAll(isa, origin, Start(origin), statements).Some?
  {
    StatementPlaced(isa, origin, statements, r);
    PlaceAll(isa, origin, Start(origin), statements).value.items[ItemCount(statements[..r])]
  }

  function OperandsOf(s: Statement): seq<Operand>
    requires Places(s)
  {
    if s.Data? then s.bytes else s.operands
  }

  /** Its item is what the statement says. */
  lemma StatementPlaced(isa: seq<Entry>, origin: word, statements: seq<Statement>, r: nat)
    requires r < |statements| && Places(statements[r]) && PlaceAll(isa, origin, Start(origin), statements).Some?
    ensures var p, k := PlaceAll(isa, origin, Start(origin), statements).value, ItemCount(statements[..r]);
            && k < |p.items| && p.items[k].operands == OperandsOf(statements[r])
            && (statements[r].Data? ==> p.items[k].content == Bytes)
            && (statements[r].Instruct? ==>
                  var entry := SelectInstruction(isa, statements[r].mnemonic, statements[r].operands);
                  entry.Some? && p.items[k].content == Instruction(entry.value.mode, entry.value.opcode))
  {
    var before, s, after := statements[..r], statements[r], statements[r + 1..];
    assert statements == before + ([s] + after);
    PlaceAllSplits(isa, origin, Start(origin), before, [s] + after);
    LayoutGrows(isa, origin, Start(origin), before);
    var p := PlaceAll(isa, origin, Start(origin), before).value;
    assert ([s] + after)[0] == s && ([s] + after)[1..] == after;
    var q := Place(isa, origin, p, s).value;
    LayoutGrows(isa, origin, q, after);
    assert q.items[|p.items|].operands == OperandsOf(s);
  }

  /** Statement `n` is the first after the label at `l` that places something, and no origin comes between. */
  predicate StandsBefore(statements: seq<Statement>, l: nat, n: nat) {
    && l < n < |statements| && statements[l].Label? && Places(statements[n])
    && forall j | l < j < n :: !Places(statements[j]) && !statements[j].Org?
  }

  /** A label is bound to the address of the item it stands before. */
  lemma LabelAddress(isa: seq<Entry>, origin: word, statements: seq<Statement>, l: nat, n: nat)
    requires StandsBefore(statements, l, n) && PlaceAll(isa, origin, Start(origin), statements).Some?
    ensures var p := PlaceAll(isa, origin, Start(origin), statements).value;
            statements[l].name in p.symbols && p.symbols[statements[l].name] == ItemOf(isa, origin, statements, n).address
  {
    var before, between, after := statements[..l], statements[l + 1..n], statements[n + 1..];
    var name, placed := statements[l].name, statements[n];
    assert statements == before + ([Label(name)] + (between + ([placed] + after)));
    LabelNamesNextItem(isa, origin, before, name, between, placed, after);
    CountAfterLabel(statements, l, n);
  }

  lemma CountAfterLabel(statements: seq<Statement>, l: nat, n: nat)
    requires StandsBefore(statements, l, n)
    ensures ItemCount(statements[..n]) == ItemCount(statements[..l])
  {
    var between := statements[l + 1..n];
    assert statements[..n] == statements[..l] + ([statements[l]] + between);
    CountSplits(statements[..l], [statements[l]] + between);
    assert ([statements[l]] + between)[1..] == between;
    NothingPlaced(between);
  }

  lemma {:induction false} CountSplits(a: seq<Statement>, b: seq<Statement>)
    ensures ItemCount(a + b) == ItemCount(a) + ItemCount(b)
  {
    if a == [] {
      assert a + b == b;
    } else {
      assert (a + b)[1..] == a[1..] + b;
      CountSplits(a[1..], b);
    }
  }

  lemma {:induction false} NothingPlaced(between: seq<Statement>)
    requires forall s | s in between :: !Places(s)
    ensures ItemCount(between) == 0
  {
    if between != [] {
      assert between[0] in between;
      NothingPlaced(between[1..]);
    }
  }

  // ---------------------------------------------------------------- names in the ROM

  /** No later item writes over the bytes of statement `r`. */
  ghost predicate Final(isa: seq<Entry>, origin: word, statements: seq<Statement>, r: nat)
    requires r < |statements| && Places(statements[r]) && PlaceAll(isa, origin, Start(origin), statements).Some?
  {
    var items, item := PlaceAll(isa, origin, Start(origin), statements).value.items, ItemOf(isa, origin, statements, r);
    forall l, a | ItemCount(statements[..r]) < l < |items| && Covers(item, a) :: !Covers(items[l], a)
  }

  /** The byte that a successful assembly leaves at an address. */
  function ByteAt(image: Image, origin: word, address: int): int {
    if 0 <= address - origin < |image.rom| then image.rom[address - origin] else -1
  }

  /** The bytes of a statement that nothing overwrites stand in the ROM. */
  lemma BytesStand(isa: seq<Entry>, origin: word, romSize: nat, statements: seq<Statement>, r: nat, j: nat)
    requires r < |statements| && Places(statements[r]) && Assembled(isa, origin, romSize, statements).Some?
    requires Final(isa, origin, statements, r) && j < Size(ItemOf(isa, origin, statements, r))
    ensures var p, item := PlaceAll(isa, origin, Start(origin), statements).value, ItemOf(isa, origin, statements, r);
            && Emitted(item, p.symbols, p.constants).Some?
            && ByteAt(Assembled(isa, origin, romSize, statements).value, origin, item.address + j)
               == Emitted(item, p.symbols, p.constants).value[j]
  {
    StatementPlaced(isa, origin, statements, r);
    PassesAgree(isa, origin, romSize, statements);
    var p, item, k := PlaceAll(isa, origin, Start(origin), statements).value, ItemOf(isa, origin, statements, r), ItemCount(statements[..r]);
    assert Placeable(item, p, origin, romSize);
    var o := item.address + j - origin;
    assert LastToCover(p.items, k, origin + o);
  }

  /** The operand bytes of an instruction in the ROM stand for the value `v`: little-endian, or for a branch the
      displacement that leads there. */
  predicate OperandSays(image: Image, origin: word, item: Item, v: nat)
    requires item.content.Instruction?
  {
    var mode, first, second := item.content.mode, ByteAt(image, origin, item.address + 1), ByteAt(image, origin, item.address + 2);
    && ByteAt(image, origin, item.address) == item.content.opcode
    && (OperandBytes(mode) == 2 ==> v <= 0xFFFF && first == v % 256 && second == v / 256)
    && (mode.REL? ==> v <= 0xFFFF && 0 <= first < 256 && Disassembler.BranchTarget(item.address, first) == v)
    && (OperandBytes(mode) == 1 && !mode.REL? ==> v <= 0xFF && first == v)
  }

  /** The value of a name in an operand comes out of the ROM again. */
  lemma OperandComesOut(isa: seq<Entry>, origin: word, romSize: nat, statements: seq<Statement>, r: nat, v: nat)
    requires r < |statements| && statements[r].Instruct? && Assembled(isa, origin, romSize, statements).Some?
    requires Final(isa, origin, statements, r) && statements[r].operands != []
    requires var p := PlaceAll(isa, origin, Start(origin), statements).value;
             Resolve(statements[r].operands[0], p.symbols, p.constants) == Some(v)
    ensures var item := ItemOf(isa, origin, statements, r);
            item.content.Instruction? && OperandSays(Assembled(isa, origin, romSize, statements).value, origin, item, v)
  {
    StatementPlaced(isa, origin, statements, r);
    var p, item := PlaceAll(isa, origin, Start(origin), statements).value, ItemOf(isa, origin, statements, r);
    BytesStand(isa, origin, romSize, statements, r, 0);
    if OperandBytes(item.content.mode) > 0 { BytesStand(isa, origin, romSize, statements, r, 1); }
    if OperandBytes(item.content.mode) == 2 { BytesStand(isa, origin, romSize, statements, r, 2); }
    if item.content.mode.REL? { Branches.DisassemblerReturns(v, item.address); }
  }

  /** A label used as an operand, before or behind its definition, stands in the ROM as the address of the item
      it precedes: low byte first where the operand has two bytes, as the displacement that leads there in a
      branch. No constant has its name; no later item overwrites the instruction. */
  lemma LabelOperand(isa: seq<Entry>, origin: word, romSize: nat, statements: seq<Statement>, l: nat, n: nat, r: nat)
    requires Assembled(isa, origin, romSize, statements).Some? && StandsBefore(statements, l, n)
    requires r < |statements| && statements[r].Instruct? && statements[r].operands != []
    requires statements[r].operands[0].value == Name(statements[l].name)
    requires forall s | s in statements :: !(s.Equ? && s.constant == statements[l].name)
    requires Final(isa, origin, statements, r)
    ensures var item := ItemOf(isa, origin, statements, r);
            item.content.Instruction?
            && OperandSays(Assembled(isa, origin, romSize, statements).value, origin, item, ItemOf(isa, origin, statements, n).address)
  {
    LabelAddress(isa, origin, statements, l, n);
    NoConstant(isa, origin, Start(origin), statements, statements[l].name);
    OperandComesOut(isa, origin, romSize, statements, r, ItemOf(isa, origin, statements, n).address);
  }

  lemma {:induction false} NoConstant(isa: seq<Entry>, origin: word, p: Layout, statements: seq<Statement>, name: string)
    requires PlaceAll(isa, origin, p, statements).Some? && name !in p.constants
    requires forall s | s in statements :: !(s.Equ? && s.constant == name)
    ensures name !in PlaceAll(isa, origin, p, statements).value.constants
    decreases |statements|
  {
    if statements != [] {
      assert statements[0] in statements;
      NoConstant(isa, origin, Place(isa, origin, p, statements[0]).value, statements[1..], name);
    }
  }

  /** A constant is bound to its value, wherever it is defined. */
  lemma ConstantValue(isa: seq<Entry>, origin: word, statements: seq<Statement>, e: nat)
    requires e < |statements| && statements[e].Equ? && PlaceAll(isa, origin, Start(origin), statements).Some?
    ensures var p := PlaceAll(isa, origin, Start(origin), statements).value;
            statements[e].constant in p.constants && p.constants[statements[e].constant] == statements[e].value
  {
    var before, s, after := statements[..e], statements[e], statements[e + 1..];
    assert statements == before + ([s] + after);
    PlaceAllSplits(isa, origin, Start(origin), before, [s] + after);
    var p := PlaceAll(isa, origin, Start(origin), before).value;
    assert ([s] + after)[0] == s && ([s] + after)[1..] == after;
    LayoutGrows(isa, origin, Place(isa, origin, p, s).value, after);
  }

  /** A constant used as an operand stands in the ROM as its value, also when a label has its name. */
  lemma ConstantOperand(isa: seq<Entry>, origin: word, romSize: nat, statements: seq<Statement>, e: nat, r: nat)
    requires Assembled(isa, origin, romSize, statements).Some? && e < |statements| && statements[e].Equ?
    requires r < |statements| && statements[r].Instruct? && statements[r].operands != []
    requires statements[r].operands[0].value == Name(statements[e].constant)
    requires Final(isa, origin, statements, r)
    ensures var item := ItemOf(isa, origin, statements, r);
            item.content.Instruction? && OperandSays(Assembled(isa, origin, romSize, statements).value, origin, item, statements[e].value)
  {
    ConstantValue(isa, origin, statements, e);
    OperandComesOut(isa, origin, romSize, statements, r, statements[e].value);
  }

  // ---------------------------------------------------------------- when nothing is overwritten

  lemma {:induction false} InOrder(items: seq<Item>, start: nat, end: nat, k: nat, l: nat)
    requires Contiguous(items, start, end) && k < l < |items|
    ensures items[k].address + Size(items[k]) <= items[l].address
  {
    var n := |items| - 1;
    if l < n {
      InOrder(items[..n], start, items[n].address, k, l);
    } else {
      EndsBefore(items[..n], start, items[n].address, k);
    }
  }

  lemma {:induction false} EndsBefore(items: seq<Item>, start: nat, end: nat, k: nat)
    requires Contiguous(items, start, end) && k < |items|
    ensures items[k].address + Size(items[k]) <= end
  {
    var n := |items| - 1;
    if k < n { EndsBefore(items[..n], start, items[n].address, k); }
  }

  /** Without `.org` no item overwrites another. */
  lemma WithoutOrgFinal(isa: seq<Entry>, origin: word, statements: seq<Statement>, r: nat)
    requires r < |statements| && Places(statements[r]) && PlaceAll(isa, origin, Start(origin), statements).Some?
    requires forall s | s in statements :: !s.Org?
    ensures Final(isa, origin, statements, r)
  {
    WithoutOrgContiguous(isa, origin, Start(origin), statements);
    StatementPlaced(isa, origin, statements, r);
    var p, k := PlaceAll(isa, origin, Start(origin), statements).value, ItemCount(statements[..r]);
    forall l | k < l < |p.items| ensures p.items[k].address + Size(p.items[k]) <= p.items[l].address {
      InOrder(p.items, origin, p.cursor, k, l);
    }
  }

  // ---------------------------------------------------------------- the mode a name selects

  /** Before its address is known a name is taken for a full address; the branches are relative. */
  function NameMode(mnemonic: string, operand: Operand): Mode {
    if IsRelative(mnemonic) then REL
    else if operand.indirect then (match operand.index case NoIndex => IND case IndexX => IZX case IndexY => IZY)
    else if operand.immediate then IMM
    else match operand.index case NoIndex => ABS case IndexX => ABX case IndexY => ABY
  }

  /** The instruction selected for a name. */
  lemma NameSelects(isa: seq<Entry>, entry: Entry, mnemonic: string, operand: Operand)
    requires WellFormed(isa) && entry in isa && Lower(entry.mnemonic) == Lower(mnemonic)
    requires operand.value.Name? && entry.mode == NameMode(mnemonic, operand)
    requires IsRelative(mnemonic) ==> !operand.immediate
    ensures SelectInstruction(isa, mnemonic, [operand]) == Some(entry)
  {
    FoundByName(isa, entry, mnemonic);
    assert Candidates(mnemonic, [operand]).value[0] == entry.mode;
  }

  // ---------------------------------------------------------------- a constant is its literal

  function WithLiteral(operands: seq<Operand>, j: nat, v: nat): seq<Operand>
    requires j < |operands|
  {
    operands[j := operands[j].(value := Number(v))]
  }

  lemma {:induction false} BytesAsLiteral(operands: seq<Operand>, j: nat, v: nat, symbols: map<string, word>, constants: map<string, nat>)
    requires j < |operands| && Resolve(operands[j], symbols, constants) == Some(v)
    ensures ResolveBytes(WithLiteral(operands, j, v), symbols, constants) == ResolveBytes(operands, symbols, constants)
  {
    var n := |operands| - 1;
    var literal := WithLiteral(operands, j, v);
    if j < n {
      assert literal[..n] == WithLiteral(operands[..n], j, v);
      BytesAsLiteral(operands[..n], j, v, symbols, constants);
    } else {
      assert literal[..n] == operands[..n];
    }
  }

  lemma EmittedAsLiteral(item: Item, j: nat, v: nat, symbols: map<string, word>, constants: map<string, nat>)
    requires j < |item.operands| && Resolve(item.operands[j], symbols, constants) == Some(v)
    ensures Emitted(item.(operands := WithLiteral(item.operands, j, v)), symbols, constants) == Emitted(item, symbols, constants)
  {
    if item.content.Bytes? { BytesAsLiteral(item.operands, j, v, symbols, constants); }
  }

  /** Items that emit the same bytes at the same addresses. */
  ghost predicate SameBytes(a: seq<Item>, b: seq<Item>, p: Layout) {
    |a| == |b| && forall k | 0 <= k < |a| ::
      a[k].address == b[k].address && Size(a[k]) == Size(b[k])
      && Emitted(a[k], p.symbols, p.constants) == Emitted(b[k], p.symbols, p.constants)
  }

  lemma SamePlaceable(a: seq<Item>, b: seq<Item>, p: Layout, q: Layout, origin: word, romSize: nat)
    requires SameBytes(a, b, p) && AllPlaceable(a, p, origin, romSize) && p.symbols == q.symbols && p.constants == q.constants
    ensures AllPlaceable(b, q, origin, romSize)
  {
    forall item | item in b ensures Placeable(item, q, origin, romSize) {
      var k :| 0 <= k < |b| && b[k] == item;
      assert a[k] in a && Placeable(a[k], p, origin, romSize);
    }
  }

  lemma SameOverlay(x: Item, y: Item, p: Layout, q: Layout, origin: word, romSize: nat, rom: seq<byte>)
    requires |rom| == romSize && Placeable(x, p, origin, romSize) && Placeable(y, q, origin, romSize)
    requires x.address == y.address && Emitted(x, p.symbols, p.constants) == Emitted(y, q.symbols, q.constants)
    ensures Overlay(rom, x.address - origin, Emitted(x, p.symbols, p.constants).value)
         == Overlay(rom, y.address - origin, Emitted(y, q.symbols, q.constants).value)
  {
  }

  lemma {:induction false} SameWritten(a: seq<Item>, b: seq<Item>, p: Layout, q: Layout, origin: word, romSize: nat)
    requires SameBytes(a, b, p) && p.symbols == q.symbols && p.constants == q.constants
    requires AllPlaceable(a, p, origin, romSize) && AllPlaceable(b, q, origin, romSize)
    ensures Written(a, p, origin, romSize) == Written(b, q, origin, romSize)
  {
    if a != [] {
      var n := |a| - 1;
      assert a[n] in a && b[n] in b;
      SameWritten(a[..n], b[..n], p, q, origin, romSize);
      SameOverlay(a[n], b[n], p, q, origin, romSize, Written(b[..n], q, origin, romSize));
    }
  }

  lemma SameRecordsOf(x: Item, y: Item, origin: word, count: nat)
    requires origin <= x.address == y.address
    ensures RecordsOf(x, origin, count) == RecordsOf(y, origin, count)
  {
  }

  predicate NotBelow(items: seq<Item>, origin: word) {
    forall item | item in items :: origin <= item.address
  }

  lemma {:induction false} SameRecords(a: seq<Item>, b: seq<Item>, origin: word)
    requires |a| == |b| && forall k | 0 <= k < |a| :: a[k].address == b[k].address && Size(a[k]) == Size(b[k])
    requires NotBelow(a, origin) && NotBelow(b, origin)
    ensures AllRecords(a, origin) == AllRecords(b, origin)
  {
    if a != [] {
      var n := |a| - 1;
      assert a[n] in a && b[n] in b && NotBelow(a[..n], origin) && NotBelow(b[..n], origin);
      SameRecords(a[..n], b[..n], origin);
      SameRecordsOf(a[n], b[n], origin, Size(a[n]));
    }
  }

  /** Placing statements does not look at the items already placed. */
  lemma {:induction false} PlaceParallel(isa: seq<Entry>, origin: word, p: Layout, items: seq<Item>, statements: seq<Statement>)
    ensures var r, t := PlaceAll(isa, origin, p, statements), PlaceAll(isa, origin, p.(items := items), statements);
            && (r.None? <==> t.None?)
            && (r.Some? ==> p.items <= r.value.items && t.value == r.value.(items := items + r.value.items[|p.items|..]))
    decreases |statements|
  {
    if statements == [] {
      assert items + p.items[|p.items|..] == items;
    } else {
      var s, q := statements[0], p.(items := items);
      var p1, q1 := Place(isa, origin, p, s), Place(isa, origin, q, s);
      PlaceOneParallel(isa, origin, p, items, s);
      if p1.Some? {
        PlaceParallel(isa, origin, p1.value, q1.value.items, statements[1..]);
        if PlaceAll(isa, origin, p1.value, statements[1..]).Some? {
          TailsJoin(p.items, p1.value.items, PlaceAll(isa, origin, p1.value, statements[1..]).value.items, items, q1.value.items);
        }
      }
    }
  }

  lemma PlaceOneParallel(isa: seq<Entry>, origin: word, p: Layout, items: seq<Item>, s: Statement)
    ensures var r, t := Place(isa, origin, p, s), Place(isa, origin, p.(items := items), s);
            && (r.None? <==> t.None?)
            && (r.Some? ==> p.items <= r.value.items && t.value == r.value.(items := items + r.value.items[|p.items|..]))
  {
    if !Places(s) { assert items + p.items[|p.items|..] == items; }
  }

  lemma TailsJoin(a: seq<Item>, a1: seq<Item>, a2: seq<Item>, b: seq<Item>, b1: seq<Item>)
    requires a <= a1 <= a2 && b1 == b + a1[|a|..]
    ensures b1 + a2[|a1|..] == b + a2[|a|..]
  {
  }

  /** The statement with one operand written out as a literal. */
  function AsLiteral(s: Statement, j: nat, v: nat): Statement
    requires Places(s) && j < |OperandsOf(s)|
  {
    if s.Data? then Data(WithLiteral(s.bytes, j, v)) else Instruct(s.mnemonic, WithLiteral(s.operands, j, v))
  }

  /** Both statements place an item of the same size at the cursor. */
  lemma LiteralPlaced(isa: seq<Entry>, origin: word, p: Layout, s: Statement, j: nat, v: nat)
    requires Places(s) && j < |OperandsOf(s)|
    requires s.Instruct? ==> SelectInstruction(isa, s.mnemonic, WithLiteral(s.operands, j, v)) == SelectInstruction(isa, s.mnemonic, s.operands)
    ensures var r, t := Place(isa, origin, p, s), Place(isa, origin, p, AsLiteral(s, j, v));
            && (r.None? <==> t.None?)
            && (r.Some? ==>
                  && |r.value.items| == |p.items| + 1 && r.value.items[|p.items|].operands == OperandsOf(s)
                  && t.value == r.value.(items := LiteralItems(r.value.items, |p.items|, j, v)))
  {
    var r := Place(isa, origin, p, s);
    if r.Some? {
      var k := |p.items|;
      var item := r.value.items[k];
      assert r.value.items == p.items + [item];
      assert (p.items + [item])[k := item.(operands := WithLiteral(item.operands, j, v))]
          == p.items + [item.(operands := WithLiteral(item.operands, j, v))];
    }
  }

  function LiteralItems(items: seq<Item>, k: nat, j: nat, v: nat): seq<Item>
    requires k < |items| && j < |items[k].operands|
  {
    items[k := items[k].(operands := WithLiteral(items[k].operands, j, v))]
  }

  lemma ItemsAsLiteral(p: Layout, k: nat, j: nat, v: nat)
    requires k < |p.items| && j < |p.items[k].operands| && Resolve(p.items[k].operands[j], p.symbols, p.constants) == Some(v)
    ensures SameBytes(p.items, LiteralItems(p.items, k, j, v), p)
  {
    EmittedAsLiteral(p.items[k], j, v, p.symbols, p.constants);
  }

  lemma EncodedAsLiteral(p: Layout, q: Layout, origin: word, romSize: nat)
    requires SameBytes(p.items, q.items, p) && q == p.(items := q.items)
    ensures Encodable(p, origin, romSize) <==> Encodable(q, origin, romSize)
    ensures Encodable(p, origin, romSize) ==> Encoded(p, origin, romSize) == Encoded(q, origin, romSize)
  {
    if AllPlaceable(p.items, p, origin, romSize) {
      SamePlaceable(p.items, q.items, p, q, origin, romSize);
      SameWritten(p.items, q.items, p, q, origin, romSize);
      SameRecords(p.items, q.items, origin);
    }
    if AllPlaceable(q.items, q, origin, romSize) { SamePlaceable(q.items, p.items, q, p, origin, romSize); }
  }

  /** The statements behind lay out alike. */
  lemma LiteralTail(isa: seq<Entry>, origin: word, p: Layout, k: nat, j: nat, v: nat, after: seq<Statement>)
    requires k < |p.items| && j < |p.items[k].operands|
    ensures var q := p.(items := LiteralItems(p.items, k, j, v));
            var r, t := PlaceAll(isa, origin, p, after), PlaceAll(isa, origin, q, after);
            && (r.None? <==> t.None?)
            && (r.Some? ==>
                  && k < |r.value.items| && r.value.items[k] == p.items[k]
                  && t.value == r.value.(items := LiteralItems(r.value.items, k, j, v)))
  {
    var items := LiteralItems(p.items, k, j, v);
    PlaceParallel(isa, origin, p, items, after);
    var r := PlaceAll(isa, origin, p, after);
    if r.Some? {
      assert items + r.value.items[|p.items|..] == LiteralItems(r.value.items, k, j, v);
    }
  }

  /** The two layouts of a program, with the name and with the literal. */
  lemma LiteralLayouts(isa: seq<Entry>, origin: word, before: seq<Statement>, s: Statement, after: seq<Statement>, j: nat, v: nat)
    requires Places(s) && j < |OperandsOf(s)|
    requires s.Instruct? ==> SelectInstruction(isa, s.mnemonic, WithLiteral(s.operands, j, v)) == SelectInstruction(isa, s.mnemonic, s.operands)
    ensures var r := PlaceAll(isa, origin, Start(origin), before + ([s] + after));
            var t := PlaceAll(isa, origin, Start(origin), before + ([AsLiteral(s, j, v)] + after));
            && (r.None? <==> t.None?)
            && (r.Some? ==>
                  var k := ItemCount(before);
                  && k < |r.value.items| && r.value.items[k].operands == OperandsOf(s)
                  && t.value == r.value.(items := LiteralItems(r.value.items, k, j, v)))
  {
    var literal := AsLiteral(s, j, v);
    PlaceAllSplits(isa, origin, Start(origin), before, [s] + after);
    PlaceAllSplits(isa, origin, Start(origin), before, [literal] + after);
    assert ([s] + after)[0] == s && ([s] + after)[1..] == after;
    assert ([literal] + after)[0] == literal && ([literal] + after)[1..] == after;
    var first := PlaceAll(isa, origin, Start(origin), before);
    if first.Some? {
      LayoutGrows(isa, origin, Start(origin), before);
      LiteralPlaced(isa, origin, first.value, s, j, v);
      var p := Place(isa, origin, first.value, s);
      if p.Some? { LiteralTail(isa, origin, p.value, |first.value.items|, j, v, after); }
    }
  }

  /** A name bound by `.equ` may be written out: wherever the constant is defined, and also when a label has its
      name, the program with the literal in place of the name assembles to the same image, or fails likewise,
      provided that the literal selects the same instruction. */
  lemma ConstantIsLiteral(isa: seq<Entry>, origin: word, romSize: nat, before: seq<Statement>, s: Statement, after: seq<Statement>,
                          j: nat, e: nat, v: nat)
    requires Places(s) && j < |OperandsOf(s)|
    requires var statements := before + ([s] + after);
             e < |statements| && statements[e].Equ? && statements[e].value == v && OperandsOf(s)[j].value == Name(statements[e].constant)
    requires s.Instruct? ==> SelectInstruction(isa, s.mnemonic, WithLiteral(s.operands, j, v)) == SelectInstruction(isa, s.mnemonic, s.operands)
    ensures Assembled(isa, origin, romSize, before + ([AsLiteral(s, j, v)] + after))
         == Assembled(isa, origin, romSize, before + ([s] + after))
  {
    LiteralLayouts(isa, origin, before, s, after, j, v);
    var r := PlaceAll(isa, origin, Start(origin), before + ([s] + after));
    if r.Some? {
      ConstantValue(isa, origin, before + ([s] + after), e);
      var p, k := r.value, ItemCount(before);
      ItemsAsLiteral(p, k, j, v);
      EncodedAsLiteral(p, p.(items := LiteralItems(p.items, k, j, v)), origin, romSize);
    }
  }

  /** An immediate name selects what its literal selects. */
  lemma ImmediateIsLiteral(isa: seq<Entry>, mnemonic: string, operand: Operand, v: nat)
    requires operand.immediate && !operand.indirect
    ensures SelectInstruction(isa, mnemonic, WithLiteral([operand], 0, v)) == SelectInstruction(isa, mnemonic, [operand])
  {
    assert WithLiteral([operand], 0, v) == [operand.(value := Number(v))];
  }
}
