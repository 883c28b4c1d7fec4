/** Disassembly of a ROM without a symbol map. */
module Disassembler {
  import opened Bits
  import opened Wrappers
  import opened Text
  import opened Isa

  datatype Options = Options(origin: word, emitOrg: bool, emitAddresses: bool, emitBytes: bool)

  /** Where a branch at `address` goes, in 16-bit arithmetic. */
  function BranchTarget(address: word, offset: byte): word {
    (address + 2 + SignedByte(offset)) % 0x1_0000
  }

  function FormatByte(v: byte): string {
    "$" + HexByte(v)
  }

  function FormatWord(v: word): string {
    "$" + HexWord(v)
  }

  function Target(bytes: seq<byte>): word
    requires |bytes| == 2
  {
    (bytes[0] as int) + 0x100 * (bytes[1] as int)
  }

  function FormatOperand(mode: Mode, bytes: seq<byte>, address: word): string
    requires |bytes| == OperandBytes(mode)
  {
    match mode
    case IMP => ""
    case IMM => "#" + FormatByte(bytes[0])
    case ZP => FormatByte(bytes[0])
    case ZPX => FormatByte(bytes[0]) + ",X"
    case ZPY => FormatByte(bytes[0]) + ",Y"
    case IZX => "(" + FormatByte(bytes[0]) + ",X)"
    case IZY => "(" + FormatByte(bytes[0]) + "),Y"
    case ABS => FormatWord(Target(bytes))
    case ABX => FormatWord(Target(bytes)) + ",X"
    case ABY => FormatWord(Target(bytes)) + ",Y"
    case IND => "(" + FormatWord(Target(bytes)) + ")"
    case REL => FormatWord(BranchTarget(address, bytes[0]))
  }

  /** One line of output: a lone byte, or an instruction with its operand bytes. */
  datatype Line = ByteLine(value: byte) | CodeLine(entry: Entry, bytes: seq<byte>, address: word)

  predicate LineOk(line: Line) {
    line.CodeLine? ==> |line.bytes| == OperandBytes(line.entry.mode)
  }

  function LineBytes(line: Line): (r: seq<byte>)
    ensures |r| > 0
  {
    match line
    case ByteLine(value) => [value]
    case CodeLine(entry, bytes, _) => [entry.opcode] + bytes
  }

  /** The address a few bytes on, in 16-bit arithmetic. */
  function Advance(address: word, size: nat): word
    requires size <= 3
  {
    if address + size > 0xFFFF then address + size - 0x1_0000 else address + size
  }

  /** What stands at `index`: an instruction if the byte is an opcode and its operand bytes are in the ROM. */
  function LineAt(isa: seq<Entry>, rom: seq<byte>, index: nat, address: word): (line: Line)
    requires index < |rom|
    ensures LineOk(line) && |LineBytes(line)| <= 3
    ensures index + |LineBytes(line)| <= |rom|
  {
    var entry := ByOpcode(isa, rom[index]);
    if entry.None? || index + OperandBytes(entry.value.mode) >= |rom| then ByteLine(rom[index])
    else CodeLine(entry.value, rom[index + 1..index + 1 + OperandBytes(entry.value.mode)], address)
  }

  /** A line that came from the table. */
  predicate FromTable(isa: seq<Entry>, line: Line) {
    LineOk(line) && (line.CodeLine? ==> line.entry in isa)
  }

  /** The lines of a disassembly, first to last. */
  datatype Listing = Done | Next(line: Line, rest: Listing)

  predicate ListingOk(listing: Listing) {
    listing.Next? ==> LineOk(listing.line) && ListingOk(listing.rest)
  }

  /** The lines from `index` on. */
  function Lines(isa: seq<Entry>, rom: seq<byte>, index: nat, address: word): (r: Listing)
    requires index <= |rom|
    ensures ListingOk(r)
    decreases |rom| - index
  {
    if index == |rom| then Done
    else
      var size := |LineBytes(LineAt(isa, rom, index, address))|;
      Next(LineAt(isa, rom, index, address), Lines(isa, rom, index + size, Advance(address, size)))
  }

  function BytesText(bytes: seq<byte>): string {
    if bytes == [] then "" else BytesText(bytes[..|bytes| - 1]) + " " + FormatByte(bytes[|bytes| - 1])
  }

  /** The trailing comment of an instruction line. */
  function Comment(options: Options, line: Line): string
    requires line.CodeLine?
  {
    if !options.emitAddresses && !options.emitBytes then ""
    else
      " ;" + (if options.emitAddresses then " " + FormatWord(line.address) else "")
           + (if options.emitBytes then " " + FormatByte(line.entry.opcode) + BytesText(line.bytes) else "")
  }

  function Instruction(line: Line): string
    requires line.CodeLine? && LineOk(line)
  {
    var operand := FormatOperand(line.entry.mode, line.bytes, line.address);
    line.entry.mnemonic + (if operand != "" then " " + operand else "")
  }

  function Render(options: Options, line: Line): string
    requires LineOk(line)
  {
    match line
    case ByteLine(value) => ".byte " + FormatByte(value) + "\n"
    case CodeLine(_, _, _) => Instruction(line) + Comment(options, line) + "\n"
  }

  function RenderAll(options: Options, listing: Listing): string
    requires ListingOk(listing)
  {
    match listing
    case Done => ""
    case Next(line, rest) => Render(options, line) + RenderAll(options, rest)
  }

  function Header(options: Options): string {
    if options.emitOrg then ".org " + FormatWord(options.origin) + "\n" else ""
  }

  function Disassembly(isa: seq<Entry>, rom: seq<byte>, options: Options): string {
    Header(options) + RenderAll(options, Lines(isa, rom, 0, options.origin))
  }

  method Disassemble(isa: seq<Entry>, rom: seq<byte>, options: Options) returns (out: string)
    ensures out == Disassembly(isa, rom, options)
  {
    out := "";
    if options.emitOrg {
      out := out + ".org " + FormatWord(options.origin) + "\n";
    }
    out := DisassembleLines(isa, rom, options, out);
  }

  method DisassembleLines(isa: seq<Entry>, rom: seq<byte>, options: Options, header: string) returns (out: string)
    ensures out == header + RenderAll(options, Lines(isa, rom, 0, options.origin))
  {
    out := header;
    var index, address: word := 0, options.origin;
    ghost var rest := RenderAll(options, Lines(isa, rom, 0, options.origin));
    ghost var whole := header + rest;
    while index < |rom|
      invariant Remaining(isa, rom, options, index, address, rest)
      invariant out + rest == whole
    {
      var text;
      text, index, address, rest := NextLine(isa, rom, options, index, address, out, rest, whole);
      out := out + text;
    }
    assert rest == "";
  }

  /** The text at `index`, and where the next line starts. */
  method NextLine(isa: seq<Entry>, rom: seq<byte>, options: Options, index: nat, address: word,
                  ghost out: string, ghost rest: string, ghost whole: string)
    returns (text: string, nextIndex: nat, nextAddress: word, ghost nextRest: string)
    requires Remaining(isa, rom, options, index, address, rest) && index < |rom| && out + rest == whole
    ensures index < nextIndex && Remaining(isa, rom, options, nextIndex, nextAddress, nextRest)
    ensures (out + text) + nextRest == whole
  {
    var size;
    text, size := LineText(isa, rom, options, index, address);
    nextIndex, nextAddress := index + size, Advance(address, size);
    nextRest := RenderAll(options, Lines(isa, rom, nextIndex, nextAddress));
    NextRemaining(isa, rom, options, index, address, rest, text, size);
    Regroup(out, text, nextRest);
  }

  /** `rest` is the text of the lines still to come. */
  ghost predicate Remaining(isa: seq<Entry>, rom: seq<byte>, options: Options, index: nat, address: word, rest: string) {
    index <= |rom| && rest == RenderAll(options, Lines(isa, rom, index, address))
  }

  lemma NextRemaining(isa: seq<Entry>, rom: seq<byte>, options: Options, index: nat, address: word, rest: string,
                      text: string, size: nat)
    requires Remaining(isa, rom, options, index, address, rest) && index < |rom|
    requires text == Render(options, LineAt(isa, rom, index, address))
    requires size == |LineBytes(LineAt(isa, rom, index, address))|
    ensures rest == text + RenderAll(options, Lines(isa, rom, index + size, Advance(address, size)))
  {
  }

  /** Text and size of the line at `index`. */
  method LineText(isa: seq<Entry>, rom: seq<byte>, options: Options, index: nat, address: word)
    returns (text: string, size: nat)
    requires index < |rom|
    ensures text == Render(options, LineAt(isa, rom, index, address))
    ensures size == |LineBytes(LineAt(isa, rom, index, address))|
  {
    var opcode := rom[index];
    var entry := ByOpcode(isa, opcode);
    if entry.None? || index + OperandBytes(entry.value.mode) >= |rom| {
      return ".byte " + FormatByte(opcode) + "\n", 1;
    }
    var operandSize := OperandBytes(entry.value.mode);
    var bytes: seq<byte> := [];
    for i := 0 to operandSize
      invariant bytes == rom[index + 1..index + 1 + i]
    {
      bytes := bytes + [rom[index + 1 + i]];
    }
    text := CodeText(options, entry.value, bytes, address);
    size := 1 + operandSize;
  }

  /** Text of one instruction: mnemonic, operand and optional comment. */
  method CodeText(options: Options, entry: Entry, bytes: seq<byte>, address: word) returns (text: string)
    requires |bytes| == OperandBytes(entry.mode)
    ensures text == Render(options, CodeLine(entry, bytes, address))
  {
    text := entry.mnemonic;
    var operand := FormatOperand(entry.mode, bytes, address);
    if operand != "" {
      text := text + (" " + operand);
    }
    ghost var line := CodeLine(entry, bytes, address);
    assert text == Instruction(line) by {
      assert entry.mnemonic + "" == entry.mnemonic;
    }
    var comment := "";
    if options.emitAddresses || options.emitBytes {
      var shown := "";
      if options.emitAddresses {
        shown := " " + FormatWord(address);
      }
      var listed := "";
      if options.emitBytes {
        var values := "";
        for i := 0 to |bytes|
          invariant values == BytesText(bytes[..i])
        {
          assert bytes[..i + 1][..i] == bytes[..i];
          values := values + " " + FormatByte(bytes[i]);
        }
        assert bytes[..|bytes|] == bytes;
        listed := " " + FormatByte(entry.opcode) + values;
      }
      comment := " ;" + shown + listed;
    }
    assert comment == Comment(options, line);
    text := text + comment + "\n";
  }

  /** The lines are what stands at `index`, then at the end of that line, and so on to the end of the ROM.
      Together they spell out the ROM. */
  ghost predicate Spells(isa: seq<Entry>, rom: seq<byte>, index: nat, address: word, listing: Listing)
    decreases listing
  {
    match listing
    case Done => index == |rom|
    case Next(line, rest) =>
      var size := |LineBytes(line)|;
      && size <= 3 && StandsAt(rom, index, LineBytes(line))
      && FromTable(isa, line) && line == LineAt(isa, rom, index, address)
      && Spells(isa, rom, index + size, Advance(address, size), rest)
  }

  lemma LineSpells(isa: seq<Entry>, rom: seq<byte>, index: nat, address: word)
    requires index < |rom|
    ensures var line := LineAt(isa, rom, index, address);
            && FromTable(isa, line) && (line.CodeLine? ==> line.address == address)
            && StandsAt(rom, index, LineBytes(line))
  {
  }

  /** Nothing of the ROM is lost in a disassembly. */
  lemma {:induction false} LinesSpell(isa: seq<Entry>, rom: seq<byte>, index: nat, address: word)
    requires index <= |rom|
    ensures Spells(isa, rom, index, address, Lines(isa, rom, index, address))
    decreases |rom| - index
  {
    if index < |rom| {
      var size := |LineBytes(LineAt(isa, rom, index, address))|;
      LineSpells(isa, rom, index, address);
      LinesSpell(isa, rom, index + size, Advance(address, size));
    }
  }
}
