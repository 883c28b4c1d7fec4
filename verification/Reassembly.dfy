/** Reassembling the statements of a disassembly: exactly when the ROM comes back. */
module Reassembly {
  import opened Bits
  import opened Wrappers
  import opened Text
  import opened Isa
  import opened Ast
  import opened Assembler
  import opened AssemblerLayout
  import opened Disassembler
  import Branches

  function Plain(number: nat): Operand {
    Operand(Number(number), false, false, NoIndex)
  }

  function OperandsOf(mode: Mode, bytes: seq<byte>, address: word): seq<Operand>
    requires |bytes| == OperandBytes(mode)
  {
    match mode
    case IMP => []
    case IMM => [Plain(bytes[0]).(immediate := true)]
    case ZP => [Plain(bytes[0])]
    case ZPX => [Plain(bytes[0]).(index := IndexX)]
    case ZPY => [Plain(bytes[0]).(index := IndexY)]
    case IZX => [Plain(bytes[0]).(indirect := true, index := IndexX)]
    case IZY => [Plain(bytes[0]).(indirect := true, index := IndexY)]
    case ABS => [Plain(Target(bytes))]
    case ABX => [Plain(Target(bytes)).(index := IndexX)]
    case ABY => [Plain(Target(bytes)).(index := IndexY)]
    case IND => [Plain(Target(bytes)).(indirect := true)]
    case REL => [Plain(BranchTarget(address, bytes[0]))]
  }

  /** The statement a line of disassembly reads back as. */
  function StatementOf(line: Line): Statement
    requires LineOk(line)
  {
    match line
    case ByteLine(value) => Data([Plain(value)])
    case CodeLine(entry, bytes, address) => Instruct(Lower(entry.mnemonic), OperandsOf(entry.mode, bytes, address))
  }

  function StatementsOf(listing: Listing): (r: seq<Statement>)
    requires ListingOk(listing)
    ensures forall s | s in r :: !s.Org?
  {
    match listing
    case Done => []
    case Next(line, rest) => [StatementOf(line)] + StatementsOf(rest)
  }

  /** The zero-page form an absolute mode competes with. */
  function ShortForm(mode: Mode): Option<Mode> {
    match mode
    case ABS => Some(ZP)
    case ABX => Some(ZPX)
    case ABY => Some(ZPY)
    case _ => None
  }

  predicate Has(isa: seq<Entry>, mnemonic: string, mode: Mode) {
    exists e | e in isa :: Lower(e.mnemonic) == Lower(mnemonic) && e.mode == mode
  }

  /** A small absolute operand has no zero-page form to fall into. */
  predicate HasNoShortForm(isa: seq<Entry>, line: Line)
    requires line.CodeLine? && LineOk(line)
  {
    ShortForm(line.entry.mode).Some? && Target(line.bytes) <= 0xFF ==>
      !Has(isa, line.entry.mnemonic, ShortForm(line.entry.mode).value)
  }

  /** The branch target stays in memory, and a small absolute operand has no zero-page form to fall into. */
  predicate Faithful(isa: seq<Entry>, line: Line) {
    line.CodeLine? && LineOk(line) ==>
      && (line.entry.mode.REL? ==> 0 <= line.address + 2 + SignedByte(line.bytes[0]) <= 0xFFFF)
      && HasNoShortForm(isa, line)
  }

  lemma ModesOf(entry: Entry, bytes: seq<byte>, address: word)
    requires |bytes| == OperandBytes(entry.mode) && (entry.mode.REL? <==> IsRelative(entry.mnemonic))
    ensures var operands := OperandsOf(entry.mode, bytes, address);
            Candidates(Lower(entry.mnemonic), operands)
            == Some(if ShortForm(entry.mode).Some? && Target(bytes) <= 0xFF
                    then [ShortForm(entry.mode).value, entry.mode]
                    else if entry.mode.ZP? then [ZP, ABS]
                    else if entry.mode.ZPX? then [ZPX, ABX]
                    else if entry.mode.ZPY? then [ZPY, ABY]
                    else [entry.mode])
  {
    LowerTwice(entry.mnemonic);
    assert IsRelative(Lower(entry.mnemonic)) == IsRelative(entry.mnemonic);
  }

  /** The assembler selects the very instruction that was disassembled, unless the short form intervenes. */
  lemma SelectsSame(isa: seq<Entry>, entry: Entry, bytes: seq<byte>, address: word)
    requires WellFormed(isa) && entry in isa && |bytes| == OperandBytes(entry.mode)
    ensures var short := ShortForm(entry.mode).Some? && Target(bytes) <= 0xFF
                         && Has(isa, entry.mnemonic, ShortForm(entry.mode).value);
            var selected := SelectInstruction(isa, Lower(entry.mnemonic), OperandsOf(entry.mode, bytes, address));
            selected.Some? && (selected.value == entry <==> !short) && (!short ==> selected.value.mode == entry.mode)
            && (short ==> selected.value.mode != entry.mode && selected.value.opcode != entry.opcode)
  {
    LowerTwice(entry.mnemonic);
    ModesOf(entry, bytes, address);
    FoundByName(isa, entry, Lower(entry.mnemonic));
    var modes := Candidates(Lower(entry.mnemonic), OperandsOf(entry.mode, bytes, address)).value;
    if ShortForm(entry.mode).Some? && Target(bytes) <= 0xFF {
      var short := ShortForm(entry.mode).value;
      assert modes[0] == short && modes[1..] == [entry.mode];
      var found := ByMnemonic(isa, Lower(entry.mnemonic), short);
      assert found.Some? <==> Has(isa, entry.mnemonic, short);
      assert FirstFound(isa, Lower(entry.mnemonic), modes[1..]) == Some(entry);
    } else {
      assert modes[0] == entry.mode;
    }
  }

  /** The item pass one makes of a faithful line. */
  function ItemOf(line: Line, address: word): Item
    requires LineOk(line)
  {
    match line
    case ByteLine(value) => Item(address, Bytes, [Plain(value)])
    case CodeLine(entry, bytes, target) =>
      Item(address, Assembler.Instruction(entry.mode, entry.opcode), OperandsOf(entry.mode, bytes, target))
  }

  /** A faithful line resolves to the bytes it was disassembled from. */
  lemma FaithfulBytes(isa: seq<Entry>, line: Line, address: word,
                      symbols: map<string, word>, constants: map<string, nat>)
    requires FromTable(isa, line) && Faithful(isa, line) && (line.CodeLine? ==> line.address == address)
    ensures Size(ItemOf(line, address)) == |LineBytes(line)|
    ensures Emitted(ItemOf(line, address), symbols, constants) == Some(LineBytes(line))
  {
    match line
    case ByteLine(value) =>
      assert [Plain(value)][..0] == [];
      assert ResolveBytes([], symbols, constants) == Some([]);
      assert [] + [value] == [value];
    case CodeLine(entry, bytes, _) =>
      if entry.mode.REL? { Branches.ReturnsUnlessWrapped(address, bytes[0]); }
      if |bytes| == 0 {
        assert [entry.opcode] + bytes == [entry.opcode];
      } else if |bytes| == 1 {
        assert [entry.opcode] + bytes == [entry.opcode, bytes[0]];
      } else if |bytes| == 2 {
        assert [entry.opcode] + bytes == [entry.opcode, bytes[0], bytes[1]];
        assert Target(bytes) % 0x100 == bytes[0] && Target(bytes) / 0x100 == bytes[1];
      }
  }

  /** Pass one reserves a faithful line at the cursor. */
  lemma FaithfulPlaced(isa: seq<Entry>, origin: word, p: Layout, line: Line)
    requires WellFormed(isa) && FromTable(isa, line) && Faithful(isa, line)
    requires p.cursor + |LineBytes(line)| <= 0x1_0000
    ensures var r := Place(isa, origin, p, StatementOf(line));
            && r.Some? && r.value.items == p.items + [ItemOf(line, p.cursor)]
            && r.value.cursor == p.cursor + |LineBytes(line)|
            && r.value.symbols == p.symbols && r.value.constants == p.constants
            && r.value.maxAddress == if r.value.cursor - 1 > p.maxAddress then r.value.cursor - 1 else p.maxAddress
  {
    if line.CodeLine? {
      SelectsSame(isa, line.entry, line.bytes, line.address);
    }
  }

  /** Every line of a listing is faithful. */
  predicate AllFaithful(isa: seq<Entry>, listing: Listing) {
    listing.Next? ==> Faithful(isa, listing.line) && AllFaithful(isa, listing.rest)
  }

  /** The item, whose operands are all numbers, resolves to its own stretch of the ROM. */
  predicate ReadsRom(item: Item, origin: word, rom: seq<byte>) {
    && origin <= item.address && 0 < Size(item)
    && Emitted(item, map[], map[]).Some? && StandsAt(rom, item.address - origin, Emitted(item, map[], map[]).value)
  }

  /** Pass one has faithfully placed the ROM up to `index`. */
  ghost predicate PlacedUpTo(rom: seq<byte>, origin: word, index: nat, p: Layout) {
    && index <= |rom|
    && p.cursor == origin + index && Contiguous(p.items, origin, p.cursor)
    && p.maxAddress == (if index == 0 then origin else origin + index - 1)
    && p.symbols == map[] && p.constants == map[] && forall item | item in p.items :: ReadsRom(item, origin, rom)
  }

  lemma PlaceFaithful(isa: seq<Entry>, rom: seq<byte>, origin: word, index: nat, p: Layout, line: Line)
    returns (next: Layout)
    requires WellFormed(isa) && origin + |rom| <= 0x1_0000 && PlacedUpTo(rom, origin, index, p)
    requires FromTable(isa, line) && Faithful(isa, line) && (line.CodeLine? ==> line.address == p.cursor)
    requires StandsAt(rom, index, LineBytes(line))
    ensures Place(isa, origin, p, StatementOf(line)) == Some(next)
    ensures PlacedUpTo(rom, origin, index + |LineBytes(line)|, next)
  {
    FaithfulPlaced(isa, origin, p, line);
    FaithfulBytes(isa, line, p.cursor, map[], map[]);
    next := Place(isa, origin, p, StatementOf(line)).value;
    SnocPlaced(rom, origin, index, p, ItemOf(line, p.cursor), next);
  }

  lemma SnocPlaced(rom: seq<byte>, origin: word, index: nat, p: Layout, item: Item, next: Layout)
    requires PlacedUpTo(rom, origin, index, p)
    requires item.address == p.cursor && Size(item) > 0 && ReadsRom(item, origin, rom)
    requires next.items == p.items + [item] && next.cursor == p.cursor + Size(item)
    requires next.symbols == map[] && next.constants == map[]
    requires next.maxAddress == if next.cursor - 1 > p.maxAddress then next.cursor - 1 else p.maxAddress
    ensures PlacedUpTo(rom, origin, index + Size(item), next)
  {
    assert next.items[..|p.items|] == p.items;
    assert forall other | other in next.items :: other in p.items || other == item;
  }

  /** Faithful lines from `index` on are placed one after the other, each resolving to its stretch of the ROM. */
  lemma {:induction false} FaithfulRun(isa: seq<Entry>, rom: seq<byte>, origin: word, index: nat, address: word,
                                       p: Layout, listing: Listing)
    requires WellFormed(isa) && origin + |rom| <= 0x1_0000 && PlacedUpTo(rom, origin, index, p)
    requires ListingOk(listing) && AllFaithful(isa, listing)
    requires Spells(isa, rom, index, address, listing) && (index < |rom| ==> address == origin + index)
    ensures var r := PlaceAll(isa, origin, p, StatementsOf(listing));
            r.Some? && PlacedUpTo(rom, origin, |rom|, r.value)
    decreases listing
  {
    if listing.Next? {
      var line, size := listing.line, |LineBytes(listing.line)|;
      var next := PlaceFaithful(isa, rom, origin, index, p, line);
      FaithfulRun(isa, rom, origin, index + size, Advance(address, size), next, listing.rest);
      PlaceFirst(isa, origin, p, StatementOf(line), StatementsOf(listing.rest));
    }
  }

  lemma PlaceFirst(isa: seq<Entry>, origin: word, p: Layout, first: Statement, rest: seq<Statement>)
    ensures var next := Place(isa, origin, p, first);
            PlaceAll(isa, origin, p, [first] + rest)
            == if next.None? then None else PlaceAll(isa, origin, next.value, rest)
  {
    assert ([first] + rest)[1..] == rest;
  }

  /** Items that read their stretch of the ROM stream back to the ROM. */
  lemma {:induction false} StreamReadsRom(items: seq<Item>, p: Layout, origin: word, end: nat, rom: seq<byte>)
    requires p.symbols == map[] && p.constants == map[]
    requires Contiguous(items, origin, end) && forall item | item in items :: ReadsRom(item, origin, rom)
    requires origin <= end <= origin + |rom|
    ensures AllEmitted(items, p) && Stream(items, p) == rom[..end - origin]
  {
    assert forall item | item in items :: ReadsRom(item, origin, rom) ==> Emitted(item, p.symbols, p.constants).Some?;
    if items != [] {
      var n := |items| - 1;
      assert ReadsRom(items[n], origin, rom);
      assert forall item | item in items[..n] :: item in items;
      StreamReadsRom(items[..n], p, origin, items[n].address, rom);
    }
  }

  /** What the disassembly assembles to, without the optional origin directive. */
  function Back(isa: seq<Entry>, rom: seq<byte>, origin: word): Option<Image> {
    Assembled(isa, origin, |rom|, StatementsOf(Lines(isa, rom, 0, origin)))
  }

  predicate ComesBack(isa: seq<Entry>, rom: seq<byte>, origin: word) {
    Back(isa, rom, origin).Some? && Back(isa, rom, origin).value.rom == rom
  }

  lemma PlacedIsRom(rom: seq<byte>, origin: word, p: Layout)
    requires origin + |rom| <= 0x1_0000 && PlacedUpTo(rom, origin, |rom|, p)
    ensures Encodable(p, origin, |rom|) && Encoded(p, origin, |rom|).rom == rom
  {
    forall item | item in p.items ensures Placeable(item, p, origin, |rom|) {
      assert ReadsRom(item, origin, rom);
    }
    StreamReadsRom(p.items, p, origin, origin + |rom|, rom);
    ContiguousWritten(p.items, p, origin, |rom|, origin + |rom|);
    assert rom[..|rom|] == rom;
  }

  /** A ROM that fits in memory comes back whole when every line is faithful. */
  lemma FaithfulComesBack(isa: seq<Entry>, rom: seq<byte>, origin: word)
    requires WellFormed(isa) && origin + |rom| <= 0x1_0000 && AllFaithful(isa, Lines(isa, rom, 0, origin))
    ensures ComesBack(isa, rom, origin)
  {
    var listing := Lines(isa, rom, 0, origin);
    LinesSpell(isa, rom, 0, origin);
    assert PlacedUpTo(rom, origin, 0, Start(origin));
    FaithfulRun(isa, rom, origin, 0, origin, Start(origin), listing);
    PlacedIsRom(rom, origin, PlaceAll(isa, origin, Start(origin), StatementsOf(listing)).value);
  }

  // ---------------------------------------------------------------- only faithful ROMs come back

  lemma {:induction false} ContiguousOrder(items: seq<Item>, start: nat, end: nat, k: nat, l: nat)
    requires Contiguous(items, start, end) && k < l < |items|
    ensures items[k].address + Size(items[k]) <= items[l].address
  {
    var n := |items| - 1;
    if l < n {
      ContiguousOrder(items[..n], start, items[n].address, k, l);
    } else if k < n - 1 {
      ContiguousOrder(items[..n], start, items[n].address, k, n - 1);
      assert items[..n][n - 1] == items[n - 1];
    }
  }

  /** Nothing later overwrites the first byte of a contiguous item. */
  lemma FirstByteStays(p: Layout, origin: word, romSize: nat, k: nat)
    requires AllPlaceable(p.items, p, origin, romSize) && Contiguous(p.items, origin, p.cursor)
    requires k < |p.items| && Size(p.items[k]) > 0
    ensures Placeable(p.items[k], p, origin, romSize)
    ensures Written(p.items, p, origin, romSize)[p.items[k].address - origin]
         == Emitted(p.items[k], p.symbols, p.constants).value[0]
  {
    var item := p.items[k];
    assert Placeable(item, p, origin, romSize);
    forall l | k < l < |p.items| ensures !Covers(p.items[l], item.address) {
      ContiguousOrder(p.items, origin, p.cursor, k, l);
    }
    assert LastToCover(p.items, k, item.address);
    LastItemWins(p.items, p, origin, romSize, item.address - origin, k);
  }

  /** The final layout of a whole assembly gives the ROM back. */
  ghost predicate GivesBack(rom: seq<byte>, origin: word, r: Layout) {
    && Encodable(r, origin, |rom|) && Contiguous(r.items, origin, r.cursor)
    && Written(r.items, r, origin, |rom|) == rom
  }

  lemma OpcodeFirst(item: Item, symbols: map<string, word>, constants: map<string, nat>)
    requires item.content.Instruction? && Emitted(item, symbols, constants).Some?
    ensures Emitted(item, symbols, constants).value[0] == item.content.opcode
  {
  }

  /** An item's opcode, if it is an instruction that resolves, stands in the ROM at its address. */
  predicate OpcodeStands(rom: seq<byte>, origin: word, item: Item, r: Layout) {
    item.content.Instruction? ==>
      && Emitted(item, r.symbols, r.constants).Some?
      && origin <= item.address < origin + |rom|
      && rom[item.address - origin] == item.content.opcode
  }

  lemma OpcodeReturns(rom: seq<byte>, origin: word, r: Layout, k: nat)
    requires GivesBack(rom, origin, r) && k < |r.items|
    ensures OpcodeStands(rom, origin, r.items[k], r)
  {
    if r.items[k].content.Instruction? {
      FirstByteStays(r, origin, |rom|, k);
      OpcodeFirst(r.items[k], r.symbols, r.constants);
    }
  }

  lemma BranchStays(item: Item, operand: word, symbols: map<string, word>, constants: map<string, nat>, offset: byte)
    requires item.content.Instruction? && item.content.mode.REL?
    requires |item.operands| == 1 && item.operands[0] == Plain(operand)
    requires operand == BranchTarget(item.address, offset) && Emitted(item, symbols, constants).Some?
    ensures 0 <= item.address + 2 + SignedByte(offset) <= 0xFFFF
  {
    Branches.ReturnsUnlessWrapped(item.address, offset);
    assert ResolveRelative(item.operands[0], symbols, constants, item.address).Some?;
  }

  /** The item pass one makes of a line, if it can make any. */
  function MadeOf(isa: seq<Entry>, line: Line, address: word): Option<Item>
    requires LineOk(line)
  {
    match line
    case ByteLine(value) => Some(Item(address, Bytes, [Plain(value)]))
    case CodeLine(entry, bytes, target) =>
      var operands := OperandsOf(entry.mode, bytes, target);
      var selected := SelectInstruction(isa, Lower(entry.mnemonic), operands);
      if selected.None? then None
      else Some(Item(address, Assembler.Instruction(selected.value.mode, selected.value.opcode), operands))
  }

  /** An item with a line's opcode can only be that line's. */
  lemma SameOpcode(isa: seq<Entry>, line: Line, item: Item)
    requires WellFormed(isa) && FromTable(isa, line) && line.CodeLine? && MadeOf(isa, line, item.address) == Some(item)
    requires item.content.opcode == line.entry.opcode
    ensures HasNoShortForm(isa, line) && item.content.mode == line.entry.mode
  {
    SelectsSame(isa, line.entry, line.bytes, line.address);
  }

  lemma BranchOperand(isa: seq<Entry>, line: Line, item: Item)
    requires line.CodeLine? && LineOk(line) && line.entry.mode.REL? && MadeOf(isa, line, item.address) == Some(item)
    ensures |item.operands| == 1 && item.operands[0] == Plain(BranchTarget(line.address, line.bytes[0]))
  {
  }

  /** The line is faithful if the item with its opcode resolves. */
  lemma SameOpcodeIsFaithful(isa: seq<Entry>, line: Line, item: Item,
                             symbols: map<string, word>, constants: map<string, nat>)
    requires WellFormed(isa) && FromTable(isa, line) && line.CodeLine? && MadeOf(isa, line, item.address) == Some(item)
    requires item.address == line.address && item.content.opcode == line.entry.opcode
    requires Emitted(item, symbols, constants).Some?
    ensures Faithful(isa, line) && item.content.mode == line.entry.mode
  {
    SameOpcode(isa, line, item);
    if line.entry.mode.REL? {
      BranchOperand(isa, line, item);
      BranchStays(item, BranchTarget(line.address, line.bytes[0]), symbols, constants, line.bytes[0]);
    }
  }

  /** Pass one adds one item for a line. */
  lemma PlacedLine(isa: seq<Entry>, origin: word, p: Layout, line: Line, next: Layout) returns (item: Item)
    requires LineOk(line) && Place(isa, origin, p, StatementOf(line)) == Some(next)
    ensures |next.items| == |p.items| + 1 && next.items[|p.items|] == item
    ensures item.address == p.cursor && next.cursor == p.cursor + Size(item) <= 0x1_0000
    ensures MadeOf(isa, line, p.cursor) == Some(item)
  {
    item := next.items[|p.items|];
  }

  function FirstByte(line: Line): byte {
    if line.ByteLine? then line.value else line.entry.opcode
  }

  function LineSize(line: Line): nat {
    if line.ByteLine? then 1 else 1 + |line.bytes|
  }

  lemma ReturnedItemIsFaithful(isa: seq<Entry>, rom: seq<byte>, origin: word, index: nat, line: Line, item: Item, r: Layout)
    requires WellFormed(isa) && FromTable(isa, line) && OpcodeStands(rom, origin, item, r)
    requires MadeOf(isa, line, item.address) == Some(item) && (line.CodeLine? ==> item.address == line.address)
    requires item.address == origin + index && index < |rom| && rom[index] == FirstByte(line)
    ensures Faithful(isa, line) && Size(item) == LineSize(line)
  {
    if line.CodeLine? {
      SameOpcodeIsFaithful(isa, line, item, r.symbols, r.constants);
    }
  }

  /** The first line of a listing that spells out the ROM, and where the rest goes on. */
  lemma SpelledFirst(isa: seq<Entry>, rom: seq<byte>, index: nat, address: word, listing: Listing)
    returns (after: nat, nextAddress: word)
    requires Spells(isa, rom, index, address, listing) && listing.Next?
    ensures FromTable(isa, listing.line) && (listing.line.CodeLine? ==> listing.line.address == address)
    ensures index < after == index + LineSize(listing.line) <= |rom| && FirstByte(listing.line) == rom[index]
    ensures address as int + (after - index) <= 0xFFFF ==> nextAddress == address + (after - index)
    ensures Spells(isa, rom, after, nextAddress, listing.rest)
  {
    var line := listing.line;
    after, nextAddress := index + |LineBytes(line)|, Advance(address, |LineBytes(line)|);
    assert rom[index + 0] == LineBytes(line)[0];
  }

  predicate AllOpcodesStand(rom: seq<byte>, origin: word, r: Layout) {
    forall item | item in r.items :: OpcodeStands(rom, origin, item, r)
  }

  /** The first line's item, which is still there in the final layout. */
  lemma PlacedFirst(isa: seq<Entry>, rom: seq<byte>, origin: word, p: Layout, listing: Listing, r: Layout)
    returns (next: Layout, item: Item)
    requires AllOpcodesStand(rom, origin, r)
    requires ListingOk(listing) && listing.Next? && PlaceAll(isa, origin, p, StatementsOf(listing)) == Some(r)
    ensures PlaceAll(isa, origin, next, StatementsOf(listing.rest)) == Some(r)
    ensures OpcodeStands(rom, origin, item, r)
    ensures item.address == p.cursor && next.cursor == p.cursor + Size(item) <= 0x1_0000
    ensures MadeOf(isa, listing.line, item.address) == Some(item)
  {
    PlaceFirst(isa, origin, p, StatementOf(listing.line), StatementsOf(listing.rest));
    next := Place(isa, origin, p, StatementOf(listing.line)).value;
    item := PlacedLine(isa, origin, p, listing.line, next);
    LayoutGrows(isa, origin, next, StatementsOf(listing.rest));
    assert item == r.items[|p.items|] && item in r.items;
  }

  /** Where disassembly and layout stand, in step, before the rest of a listing. */
  ghost predicate InStep(isa: seq<Entry>, rom: seq<byte>, origin: word, index: nat, address: word, p: Layout,
                         listing: Listing, r: Layout)
  {
    && ListingOk(listing) && Spells(isa, rom, index, address, listing)
    && p.cursor == origin + index <= 0x1_0000 && (p.cursor <= 0xFFFF ==> address == p.cursor)
    && PlaceAll(isa, origin, p, StatementsOf(listing)) == Some(r)
  }

  lemma StaysInStep(isa: seq<Entry>, rom: seq<byte>, origin: word, index: nat, address: word, p: Layout,
                    listing: Listing, r: Layout)
    returns (after: nat, nextAddress: word, next: Layout)
    requires WellFormed(isa) && AllOpcodesStand(rom, origin, r)
    requires InStep(isa, rom, origin, index, address, p, listing, r) && listing.Next?
    ensures Faithful(isa, listing.line)
    ensures InStep(isa, rom, origin, after, nextAddress, next, listing.rest, r)
  {
    var item;
    after, nextAddress := SpelledFirst(isa, rom, index, address, listing);
    next, item := PlacedFirst(isa, rom, origin, p, listing, r);
    ReturnedItemIsFaithful(isa, rom, origin, index, listing.line, item, r);
  }

  lemma {:induction false} ReturnedIsFaithful(isa: seq<Entry>, rom: seq<byte>, origin: word, index: nat, address: word,
                                              p: Layout, listing: Listing, r: Layout)
    requires WellFormed(isa) && AllOpcodesStand(rom, origin, r)
    requires InStep(isa, rom, origin, index, address, p, listing, r)
    ensures AllFaithful(isa, listing) && origin + |rom| <= 0x1_0000
    decreases listing
  {
    if listing.Next? {
      var after, nextAddress, next := StaysInStep(isa, rom, origin, index, address, p, listing, r);
      ReturnedIsFaithful(isa, rom, origin, after, nextAddress, next, listing.rest, r);
    }
  }

  /** A ROM survives disassembly and reassembly exactly when it fits in memory at its origin and all its
      lines are faithful: no branch target wraps around, and no absolute operand of at most $FF belongs to a
      mnemonic with the matching zero-page mode. */
  lemma ComesBackExactly(isa: seq<Entry>, rom: seq<byte>, origin: word)
    requires WellFormed(isa)
    ensures ComesBack(isa, rom, origin) <==> origin + |rom| <= 0x1_0000 && AllFaithful(isa, Lines(isa, rom, 0, origin))
  {
    var listing := Lines(isa, rom, 0, origin);
    if origin + |rom| <= 0x1_0000 && AllFaithful(isa, listing) {
      FaithfulComesBack(isa, rom, origin);
    }
    if ComesBack(isa, rom, origin) {
      LinesSpell(isa, rom, 0, origin);
      var r := PlaceAll(isa, origin, Start(origin), StatementsOf(listing)).value;
      WithoutOrgContiguous(isa, origin, Start(origin), StatementsOf(listing));
      forall item | item in r.items ensures OpcodeStands(rom, origin, item, r) {
        var k :| 0 <= k < |r.items| && r.items[k] == item;
        OpcodeReturns(rom, origin, r, k);
      }
      ReturnedIsFaithful(isa, rom, origin, 0, origin, Start(origin), listing, r);
    }
  }
}
