/** The two passes of the assembler: the first reserves addresses and binds names, the second resolves
    operands and writes the ROM. Every error is the absence of a result. */
module Assembler {
  import opened Bits
  import opened Wrappers
  import opened Isa
  import opened Ast

  // ---------------------------------------------------------------- choosing an instruction

  /** The addressing modes to try, in order, for an instruction written with these operands. */
  function Candidates(mnemonic: string, operands: seq<Operand>): Option<seq<Mode>> {
    if operands == [] then Some([IMP])
    else if |operands| > 1 then None
    else
      var operand := operands[0];
      var small := operand.value.Number? && operand.value.number <= 0xFF;
      if IsRelative(mnemonic) then if operand.immediate then None else Some([REL])
      else if operand.indirect then
        Some([if operand.index.IndexX? then IZX else if operand.index.IndexY? then IZY else IND])
      else if operand.immediate then Some([IMM])
      else if operand.index.IndexX? then Some(if small then [ZPX, ABX] else [ABX])
      else if operand.index.IndexY? then Some(if small then [ZPY, ABY] else [ABY])
      else if operand.value.Number? then Some(if small then [ZP, ABS] else [ABS])
      else Some([ABS, ZP])
  }

  function FirstFound(isa: seq<Entry>, mnemonic: string, modes: seq<Mode>): (r: Option<Entry>)
    ensures r.Some? ==> r.value in isa && r.value.mode in modes
  {
    if modes == [] then None
    else
      var found := ByMnemonic(isa, mnemonic, modes[0]);
      if found.Some? then found else FirstFound(isa, mnemonic, modes[1..])
  }

  function SelectInstruction(isa: seq<Entry>, mnemonic: string, operands: seq<Operand>): Option<Entry> {
    var modes := Candidates(mnemonic, operands);
    if modes.None? then None else FirstFound(isa, mnemonic, modes.value)
  }

  // ---------------------------------------------------------------- pass one

  datatype Content = Bytes | Instruction(mode: Mode, opcode: byte)

  /** A stretch of ROM reserved by one statement. */
  datatype Item = Item(address: word, content: Content, operands: seq<Operand>)

  function Size(item: Item): nat {
    if item.content.Bytes? then |item.operands| else 1 + OperandBytes(item.content.mode)
  }

  datatype Layout = Layout(items: seq<Item>, symbols: map<string, word>, constants: map<string, nat>,
                           cursor: nat, maxAddress: word)

  function Start(origin: word): Layout {
    Layout([], map[], map[], origin, origin)
  }

  function Reserve(p: Layout, content: Content, operands: seq<Operand>, size: nat): Option<Layout>
    requires size > 0
  {
    var last := p.cursor + size - 1;
    if last > 0xFFFF then None
    else Some(p.(items := p.items + [Item(p.cursor, content, operands)],
                 cursor := p.cursor + size,
                 maxAddress := if last > p.maxAddress then last else p.maxAddress))
  }

  /** What one statement does to the layout. */
  function Place(isa: seq<Entry>, origin: word, p: Layout, s: Statement): Option<Layout> {
    match s
    case Label(name) =>
      if name in p.symbols || p.cursor > 0xFFFF then None
      else Some(p.(symbols := p.symbols[name := p.cursor]))
    case Equ(name, value) =>
      if name in p.constants || name in p.symbols then None
      else Some(p.(constants := p.constants[name := value]))
    case Org(operands) =>
      if |operands| != 1 || !operands[0].value.Number? then None
      else if !(origin <= operands[0].value.number <= 0xFFFF) then None
      else Some(p.(cursor := operands[0].value.number))
    case Data(operands) =>
      if operands == [] then None else Reserve(p, Bytes, operands, |operands|)
    case Include(_) => Some(p)
    case Instruct(mnemonic, operands) =>
      var entry := SelectInstruction(isa, mnemonic, operands);
      if entry.None? then None
      else Reserve(p, Instruction(entry.value.mode, entry.value.opcode), operands, 1 + OperandBytes(entry.value.mode))
  }

  function PlaceAll(isa: seq<Entry>, origin: word, p: Layout, statements: seq<Statement>): Option<Layout>
    decreases |statements|
  {
    if statements == [] then Some(p)
    else
      var next := Place(isa, origin, p, statements[0]);
      if next.None? then None else PlaceAll(isa, origin, next.value, statements[1..])
  }

  method FirstPass(isa: seq<Entry>, origin: word, statements: seq<Statement>) returns (r: Option<Layout>)
    ensures r == PlaceAll(isa, origin, Start(origin), statements)
  {
    var items: seq<Item> := [];
    var symbols: map<string, word> := map[];
    var constants: map<string, nat> := map[];
    var cursor: nat := origin;
    var maxAddress := origin;
    var i := 0;
    while i < |statements|
      invariant 0 <= i <= |statements|
      invariant PlaceAll(isa, origin, Start(origin), statements)
             == PlaceAll(isa, origin, Layout(items, symbols, constants, cursor, maxAddress), statements[i..])
    {
      var statement := statements[i];
      assert statements[i..][0] == statement && statements[i..][1..] == statements[i + 1..];
      match statement {
        case Label(name) =>
          if name in symbols || cursor > 0xFFFF {
            return None;
          }
          symbols := symbols[name := cursor];
        case Equ(name, value) =>
          if name in constants || name in symbols {
            return None;
          }
          constants := constants[name := value];
        case Org(operands) =>
          if |operands| != 1 || !operands[0].value.Number? {
            return None;
          }
          var value := operands[0].value.number;
          if value > 0xFFFF || value < origin {
            return None;
          }
          cursor := value;
        case Data(operands) =>
          if operands == [] || cursor > 0xFFFF || cursor + |operands| - 1 > 0xFFFF {
            return None;
          }
          items := items + [Item(cursor, Bytes, operands)];
          if cursor + |operands| - 1 > maxAddress {
            maxAddress := cursor + |operands| - 1;
          }
          cursor := cursor + |operands|;
        case Include(_) =>
        case Instruct(mnemonic, operands) =>
          var entry := SelectInstruction(isa, mnemonic, operands);
          if entry.None? {
            return None;
          }
          var size := 1 + OperandBytes(entry.value.mode);
          if cursor > 0xFFFF || cursor + size - 1 > 0xFFFF {
            return None;
          }
          items := items + [Item(cursor, Instruction(entry.value.mode, entry.value.opcode), operands)];
          if cursor + size - 1 > maxAddress {
            maxAddress := cursor + size - 1;
          }
          cursor := cursor + size;
      }
      i := i + 1;
    }
    r := Some(Layout(items, symbols, constants, cursor, maxAddress));
  }

  // ---------------------------------------------------------------- resolving operands

  /** The number an operand stands for: itself, a constant, else a label. */
  function Resolve(operand: Operand, symbols: map<string, word>, constants: map<string, nat>): Option<nat> {
    match operand.value
    case Number(number) => Some(number)
    case Name(symbol) =>
      if symbol in constants then Some(constants[symbol])
      else if symbol in symbols then Some(symbols[symbol])
      else None
  }

  function ResolveByte(operand: Operand, symbols: map<string, word>, constants: map<string, nat>): Option<byte> {
    var value := Resolve(operand, symbols, constants);
    if value.None? || value.value > 0xFF then None else Some(value.value)
  }

  function ResolveWord(operand: Operand, symbols: map<string, word>, constants: map<string, nat>): Option<word> {
    var value := Resolve(operand, symbols, constants);
    if value.None? || value.value > 0xFFFF then None else Some(value.value)
  }

  /** The displacement byte of a branch at `address` to `target`. */
  function BranchByte(target: word, address: word): Option<byte> {
    var offset := target - (address + 2);
    if offset < -128 || offset > 127 then None else Some(offset % 0x100)
  }

  function ResolveRelative(operand: Operand, symbols: map<string, word>, constants: map<string, nat>,
                           address: word): Option<byte>
  {
    var target := ResolveWord(operand, symbols, constants);
    if target.None? then None else BranchByte(target.value, address)
  }

  function ResolveBytes(operands: seq<Operand>, symbols: map<string, word>, constants: map<string, nat>)
    : (r: Option<seq<byte>>)
    ensures r.Some? ==> |r.value| == |operands|
  {
    if operands == [] then Some([])
    else
      var n := |operands| - 1;
      var most := ResolveBytes(operands[..n], symbols, constants);
      var last := ResolveByte(operands[n], symbols, constants);
      if most.None? || last.None? then None else Some(most.value + [last.value])
  }

  /** The bytes of one item, if its operands resolve. */
  function Emitted(item: Item, symbols: map<string, word>, constants: map<string, nat>): (r: Option<seq<byte>>)
    ensures r.Some? ==> |r.value| == Size(item)
  {
    match item.content
    case Bytes => ResolveBytes(item.operands, symbols, constants)
    case Instruction(mode, opcode) =>
      if OperandBytes(mode) == 0 then Some([opcode])
      else if item.operands == [] then None
      else if OperandBytes(mode) == 1 then
        var value := if mode.REL? then ResolveRelative(item.operands[0], symbols, constants, item.address)
                     else ResolveByte(item.operands[0], symbols, constants);
        if value.None? then None else Some([opcode, value.value])
      else
        var value := ResolveWord(item.operands[0], symbols, constants);
        if value.None? then None else Some([opcode, value.value % 0x100, value.value / 0x100])
  }

  // ---------------------------------------------------------------- pass two

  datatype Record = Record(address: word, romOffset: nat)

  datatype Image = Image(rom: seq<byte>, records: seq<Record>)

  /** The item lies inside the ROM and its operands resolve. */
  predicate Placeable(item: Item, p: Layout, origin: word, romSize: nat) {
    && origin <= item.address
    && item.address - origin < romSize
    && item.address - origin + Size(item) <= romSize
    && Emitted(item, p.symbols, p.constants).Some?
  }

  predicate AllPlaceable(items: seq<Item>, p: Layout, origin: word, romSize: nat) {
    forall item | item in items :: Placeable(item, p, origin, romSize)
  }

  function Blank(romSize: nat): (rom: seq<byte>)
    ensures |rom| == romSize
  {
    seq(romSize, _ => 0xFF)
  }

  function Overlay(rom: seq<byte>, offset: nat, bytes: seq<byte>): (r: seq<byte>)
    requires offset + |bytes| <= |rom|
    ensures |r| == |rom|
  {
    rom[..offset] + bytes + rom[offset + |bytes|..]
  }

  /** The ROM after the items are written in order into a ROM of 0xFF. */
  function Written(items: seq<Item>, p: Layout, origin: word, romSize: nat): (rom: seq<byte>)
    requires AllPlaceable(items, p, origin, romSize)
    ensures |rom| == romSize
  {
    if items == [] then Blank(romSize)
    else
      var n := |items| - 1;
      assert Placeable(items[n], p, origin, romSize);
      Overlay(Written(items[..n], p, origin, romSize), items[n].address - origin,
              Emitted(items[n], p.symbols, p.constants).value)
  }

  /** One record per byte of an item. */
  function RecordsOf(item: Item, origin: word, count: nat): (r: seq<Record>)
    requires origin <= item.address
    ensures |r| == count
  {
    seq(count, i requires 0 <= i < count => Record((item.address + i) % 0x1_0000, item.address - origin + i))
  }

  function AllRecords(items: seq<Item>, origin: word): seq<Record>
    requires forall item | item in items :: origin <= item.address
  {
    if items == [] then []
    else
      var n := |items| - 1;
      AllRecords(items[..n], origin) + RecordsOf(items[n], origin, Size(items[n]))
  }

  /** The space check compares the distance to the last byte, not the byte count, with the ROM size. */
  predicate FitsCartridge(p: Layout, origin: word, romSize: nat) {
    (if p.maxAddress < origin then 0 else p.maxAddress - origin) <= romSize
  }

  predicate Encodable(p: Layout, origin: word, romSize: nat) {
    FitsCartridge(p, origin, romSize) && AllPlaceable(p.items, p, origin, romSize)
  }

  function Encoded(p: Layout, origin: word, romSize: nat): Image
    requires Encodable(p, origin, romSize)
  {
    assert forall item | item in p.items :: Placeable(item, p, origin, romSize);
    Image(Written(p.items, p, origin, romSize), AllRecords(p.items, origin))
  }

  method Encode(p: Layout, origin: word, romSize: nat) returns (r: Option<Image>)
    ensures r.Some? <==> Encodable(p, origin, romSize)
    ensures r.Some? ==> r.value == Encoded(p, origin, romSize)
  {
    var maxAddress := p.maxAddress;
    if maxAddress < origin {
      maxAddress := origin;
    }
    if maxAddress - origin > romSize {
      return None;
    }
    var rom := new byte[romSize](_ => 0xFF);
    var records: seq<Record> := [];
    assert rom[..] == Blank(romSize);
    for k := 0 to |p.items|
      invariant WrittenUpTo(p, origin, romSize, k, rom[..], records)
    {
      var item := p.items[k];
      assert item in p.items;
      if item.address < origin {
        return None;
      }
      var offset := item.address - origin;
      if offset >= romSize {
        return None;
      }
      ghost var before := rom[..];
      var written := EmitItem(item, p, origin, rom);
      if written.None? {
        return None;
      }
      WrittenNext(p, origin, romSize, k, before, records);
      records := records + written.value;
    }
    assert p.items[..|p.items|] == p.items;
    r := Some(Image(rom[..], records));
  }

  /** The first `k` items are written, and their records listed. */
  ghost predicate WrittenUpTo(p: Layout, origin: word, romSize: nat, k: nat, rom: seq<byte>, records: seq<Record>) {
    && k <= |p.items| && AllPlaceable(p.items[..k], p, origin, romSize)
    && rom == Written(p.items[..k], p, origin, romSize)
    && (forall item | item in p.items[..k] :: origin <= item.address)
    && records == AllRecords(p.items[..k], origin)
  }

  lemma WrittenNext(p: Layout, origin: word, romSize: nat, k: nat, rom: seq<byte>, records: seq<Record>)
    requires WrittenUpTo(p, origin, romSize, k, rom, records) && k < |p.items|
    requires Placeable(p.items[k], p, origin, romSize)
    ensures var item := p.items[k];
            WrittenUpTo(p, origin, romSize, k + 1,
                       Overlay(rom, item.address - origin, Emitted(item, p.symbols, p.constants).value),
                       records + RecordsOf(item, origin, Size(item)))
  {
    assert p.items[..k + 1][..k] == p.items[..k];
    assert forall other | other in p.items[..k + 1] :: other == p.items[k] || other in p.items[..k];
  }

  lemma OverlayGrows(rom: seq<byte>, offset: nat, bytes: seq<byte>, v: byte)
    requires offset + |bytes| < |rom|
    ensures Overlay(rom, offset, bytes + [v]) == Overlay(rom, offset, bytes)[offset + |bytes| := v]
  {
  }

  /** Writes one item into the ROM and returns its records. */
  method EmitItem(item: Item, p: Layout, origin: word, rom: array<byte>) returns (r: Option<seq<Record>>)
    requires origin <= item.address < origin + rom.Length
    modifies rom
    ensures r.Some? <==> Placeable(item, p, origin, rom.Length)
    ensures r.Some? ==> rom[..] == Overlay(old(rom[..]), item.address - origin, Emitted(item, p.symbols, p.constants).value)
    ensures r.Some? ==> r.value == RecordsOf(item, origin, Size(item))
  {
    var offset := item.address - origin;
    if item.content.Instruction? {
      r := EmitInstruction(item, p, origin, rom);
      return;
    }
    r := EmitBytes(item, p, origin, rom, offset);
  }

  /** The bytes of a `.byte` directive. */
  method EmitBytes(item: Item, p: Layout, origin: word, rom: array<byte>, offset: nat) returns (r: Option<seq<Record>>)
    requires origin <= item.address < origin + rom.Length && offset == item.address - origin && item.content.Bytes?
    modifies rom
    ensures r.Some? <==> offset + |item.operands| <= rom.Length && ResolveBytes(item.operands, p.symbols, p.constants).Some?
    ensures r.Some? ==> rom[..] == Overlay(old(rom[..]), offset, ResolveBytes(item.operands, p.symbols, p.constants).value)
    ensures r.Some? ==> r.value == RecordsOf(item, origin, |item.operands|)
  {
    var records: seq<Record> := [];
    assert Overlay(rom[..], offset, []) == rom[..];
    for i := 0 to |item.operands|
      invariant offset + i <= rom.Length
      invariant ResolveBytes(item.operands[..i], p.symbols, p.constants).Some?
      invariant rom[..] == Overlay(old(rom[..]), offset, ResolveBytes(item.operands[..i], p.symbols, p.constants).value)
      invariant records == RecordsOf(item, origin, i)
    {
      assert item.operands[..i + 1][..i] == item.operands[..i];
      if offset + i >= rom.Length {
        return None;
      }
      var value := ResolveByte(item.operands[i], p.symbols, p.constants);
      if value.None? {
        PrefixResolves(item.operands, i + 1, p);
        return None;
      }
      Put(rom, offset, old(rom[..]), ResolveBytes(item.operands[..i], p.symbols, p.constants).value, offset + i, value.value);
      RecordsGrow(item, origin, i);
      records := records + [Record((item.address + i) % 0x1_0000, offset + i)];
    }
    assert item.operands[..|item.operands|] == item.operands;
    r := Some(records);
  }

  /** Writes the byte behind those already written from `offset` on. */
  method Put(rom: array<byte>, offset: nat, ghost before: seq<byte>, ghost bytes: seq<byte>, at: nat, v: byte)
    requires offset + |bytes| == at < rom.Length == |before| && rom[..] == Overlay(before, offset, bytes)
    modifies rom
    ensures rom[..] == Overlay(before, offset, bytes + [v])
  {
    OverlayGrows(before, offset, bytes, v);
    rom[at] := v;
  }

  lemma RecordsGrow(item: Item, origin: word, n: nat)
    requires origin <= item.address
    ensures RecordsOf(item, origin, n + 1)
         == RecordsOf(item, origin, n) + [Record((item.address + n) % 0x1_0000, item.address - origin + n)]
  {
  }

  method EmitInstruction(item: Item, p: Layout, origin: word, rom: array<byte>) returns (r: Option<seq<Record>>)
    requires origin <= item.address < origin + rom.Length && item.content.Instruction?
    modifies rom
    ensures r.Some? <==> Placeable(item, p, origin, rom.Length)
    ensures r.Some? ==> rom[..] == Overlay(old(rom[..]), item.address - origin, Emitted(item, p.symbols, p.constants).value)
    ensures r.Some? ==> r.value == RecordsOf(item, origin, Size(item))
  {
    var offset := item.address - origin;
    ghost var before := rom[..];
    assert before == Overlay(before, offset, []);
    Put(rom, offset, before, [], offset, item.content.opcode);
    assert [] + [item.content.opcode] == [item.content.opcode];
    var operandBytes := OperandBytes(item.content.mode);
    if operandBytes == 0 {
      return Some([Record(item.address, offset)]);
    }
    if item.operands == [] {
      return None;
    }
    if operandBytes == 1 {
      r := EmitByteOperand(item, p, origin, rom, before);
    } else {
      r := EmitWordOperand(item, p, origin, rom, before);
    }
  }

  /** The one operand byte behind the opcode. */
  method EmitByteOperand(item: Item, p: Layout, origin: word, rom: array<byte>, ghost before: seq<byte>)
    returns (r: Option<seq<Record>>)
    requires origin <= item.address < origin + rom.Length && |before| == rom.Length
    requires item.content.Instruction? && OperandBytes(item.content.mode) == 1 && item.operands != []
    requires rom[..] == Overlay(before, item.address - origin, [item.content.opcode])
    modifies rom
    ensures r.Some? <==> Placeable(item, p, origin, rom.Length)
    ensures r.Some? ==> rom[..] == Overlay(before, item.address - origin, Emitted(item, p.symbols, p.constants).value)
    ensures r.Some? ==> r.value == RecordsOf(item, origin, 2)
  {
    var offset := item.address - origin;
    var value := if item.content.mode.REL? then ResolveRelative(item.operands[0], p.symbols, p.constants, item.address)
                 else ResolveByte(item.operands[0], p.symbols, p.constants);
    if value.None? || offset + 1 >= rom.Length {
      return None;
    }
    Put(rom, offset, before, [item.content.opcode], offset + 1, value.value);
    assert [item.content.opcode] + [value.value] == [item.content.opcode, value.value];
    r := Some([Record(item.address, offset), Record((item.address + 1) % 0x1_0000, offset + 1)]);
  }

  /** The two operand bytes behind the opcode, the low one first. */
  method EmitWordOperand(item: Item, p: Layout, origin: word, rom: array<byte>, ghost before: seq<byte>)
    returns (r: Option<seq<Record>>)
    requires origin <= item.address < origin + rom.Length && |before| == rom.Length
    requires item.content.Instruction? && OperandBytes(item.content.mode) == 2 && item.operands != []
    requires rom[..] == Overlay(before, item.address - origin, [item.content.opcode])
    modifies rom
    ensures r.Some? <==> Placeable(item, p, origin, rom.Length)
    ensures r.Some? ==> rom[..] == Overlay(before, item.address - origin, Emitted(item, p.symbols, p.constants).value)
    ensures r.Some? ==> r.value == RecordsOf(item, origin, 3)
  {
    var offset := item.address - origin;
    var value := ResolveWord(item.operands[0], p.symbols, p.constants);
    if value.None? || offset + 2 >= rom.Length {
      return None;
    }
    var low, high := value.value % 0x100, value.value / 0x100;
    Put(rom, offset, before, [item.content.opcode], offset + 1, low);
    Put(rom, offset, before, [item.content.opcode] + [low], offset + 2, high);
    assert [item.content.opcode] + [low] + [high] == [item.content.opcode, low, high];
    r := Some([Record(item.address, offset), Record((item.address + 1) % 0x1_0000, offset + 1),
               Record((item.address + 2) % 0x1_0000, offset + 2)]);
  }

  /** Operands that all resolve resolve in every prefix. */
  lemma {:induction false} PrefixResolves(operands: seq<Operand>, n: nat, p: Layout)
    requires n <= |operands|
    ensures ResolveBytes(operands, p.symbols, p.constants).Some? ==> ResolveBytes(operands[..n], p.symbols, p.constants).Some?
  {
    if n < |operands| {
      var m := |operands| - 1;
      PrefixResolves(operands[..m], n, p);
      assert operands[..m][..n] == operands[..n];
    } else {
      assert operands[..n] == operands;
    }
  }

  // ---------------------------------------------------------------- both passes

  function Assembled(isa: seq<Entry>, origin: word, romSize: nat, statements: seq<Statement>): Option<Image> {
    var layout := PlaceAll(isa, origin, Start(origin), statements);
    if layout.None? || !Encodable(layout.value, origin, romSize) then None
    else Some(Encoded(layout.value, origin, romSize))
  }

  method Assemble(isa: seq<Entry>, origin: word, romSize: nat, statements: seq<Statement>) returns (r: Option<Image>)
    ensures r == Assembled(isa, origin, romSize, statements)
  {
    var layout := FirstPass(isa, origin, statements);
    if layout.None? {
      return None;
    }
    r := Encode(layout.value, origin, romSize);
  }
}
