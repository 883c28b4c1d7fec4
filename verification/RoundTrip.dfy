/** Text to ROM and back: a disassembly without symbols reassembles to its ROM. */
module RoundTrip {
  import opened Bits
  import opened Wrappers
  import opened Text
  import opened Isa
  import opened Ast
  import opened Lexer
  import opened Parser
  import opened Disassembler
  import opened Relexing
  import Assembler
  import Reassembly

  // ---------------------------------------------------------------- lexing a whole listing

  function TokensOf(listing: Listing): (ts: seq<Lexer.Token>)
    requires ListingOk(listing)
    ensures WellEnded(ts)
  {
    match listing
    case Done => [EndOfFile]
    case Next(line, rest) => LineTokens(line) + TokensOf(rest)
  }

  ghost predicate WordsIn(listing: Listing) {
    listing.Next? ==> (listing.line.CodeLine? ==> IsWord(listing.line.entry.mnemonic)) && WordsIn(listing.rest)
  }

  lemma LexLine(s: string, i: nat, options: Options, line: Line) returns (end: nat)
    requires LineOk(line) && (line.CodeLine? ==> IsWord(line.entry.mnemonic))
    requires StandsAt(s, i, Render(options, line))
    ensures end == i + |Render(options, line)| && Reads(s, i, LineTokens(line), end)
  {
    if line.CodeLine? {
      end := LexCodeLine(s, i, options, line);
    } else {
      end := LexByteLine(s, i, line.value);
    }
  }

  lemma {:induction false} LexListing(s: string, i: nat, options: Options, listing: Listing)
    requires ListingOk(listing) && WordsIn(listing)
    requires StandsAt(s, i, RenderAll(options, listing)) && i + |RenderAll(options, listing)| == |s|
    ensures LexFrom(s, i) == Some(TokensOf(listing))
    decreases listing
  {
    if listing.Next? {
      var text, rest := Render(options, listing.line), RenderAll(options, listing.rest);
      StandsSplit(s, i, text, rest);
      var end := LexLine(s, i, options, listing.line);
      StandsAfter(s, i, text, rest, end);
      LexListing(s, end, options, listing.rest);
    }
  }

  // ---------------------------------------------------------------- parsing a whole listing

  /** The statement at `i` ends at `end`, where the line breaks. */
  ghost predicate ParsesLine(ts: seq<Lexer.Token>, i: nat, statement: Statement, end: nat) {
    && WellEnded(ts) && i < |ts| && (ts[i].Directive? || ts[i].Identifier?) && !ts[i + 1].Colon?
    && StatementAt(ts, i) == Some((statement, end)) && end < |ts| && ts[end].Newline?
  }

  lemma TokensStand(ts: seq<Lexer.Token>, i: nat, part: seq<Lexer.Token>)
    requires StandsAt(ts, i, part) && |part| <= 7
    ensures i + |part| <= |ts|
    ensures |part| > 0 ==> ts[i] == part[0]
    ensures |part| > 1 ==> ts[i + 1] == part[1]
    ensures |part| > 2 ==> ts[i + 2] == part[2]
    ensures |part| > 3 ==> ts[i + 3] == part[3]
    ensures |part| > 4 ==> ts[i + 4] == part[4]
    ensures |part| > 5 ==> ts[i + 5] == part[5]
    ensures |part| > 6 ==> ts[i + 6] == part[6]
  {
    assert |part| > 0 ==> ts[i + 0] == part[0];
  }

  /** `directive $literal` */
  lemma ParseDirectiveLine(ts: seq<Lexer.Token>, i: nat, name: string, literal: string, number: nat)
    requires WellEnded(ts) && StandsAt(ts, i, [Directive(name), Lexer.Number(literal, number), Newline])
    requires (name == "byte" || name == "org") && literal != "" && literal[0] == '$'
    ensures var operands := [Reassembly.Plain(number)];
            ParsesLine(ts, i, if name == "org" then Org(operands) else Data(operands), i + 2)
  {
    TokensStand(ts, i, [Directive(name), Lexer.Number(literal, number), Newline]);
    assert OperandAt(ts, i + 1) == Some((Reassembly.Plain(number), i + 2));
    assert OperandsAt(ts, i + 1, false) == Some(([Reassembly.Plain(number)], i + 2));
  }

  /** What an operand's opening and closing tokens make of its number. */
  function Shaped(mode: Mode, number: nat): Operand {
    Operand(Value.Number(number), mode.IMM?, mode.IZX? || mode.IZY? || mode.IND?,
            if mode.ZPX? || mode.ABX? || mode.IZX? then IndexX
            else if mode.ZPY? || mode.ABY? || mode.IZY? then IndexY else NoIndex)
  }

  lemma OperandsAreShaped(mode: Mode, bytes: seq<byte>, address: word)
    requires |bytes| == OperandBytes(mode)
    ensures bytes == [] ==> Reassembly.OperandsOf(mode, bytes, address) == []
    ensures bytes != [] ==>
              Reassembly.OperandsOf(mode, bytes, address) == [Shaped(mode, Shown(mode, bytes, address))]
  {
  }

  /** The tokens of an operand that shows `number`, written out. */
  function FlatTokens(mode: Mode, number: Lexer.Token): seq<Lexer.Token> {
    match mode
    case ZPX | ABX => [number, Comma, Identifier("x")]
    case ZPY | ABY => [number, Comma, Identifier("y")]
    case IZX => [LeftParen, number, Comma, Identifier("x"), RightParen]
    case IZY => [LeftParen, number, RightParen, Comma, Identifier("y")]
    case IND => [LeftParen, number, RightParen]
    case _ => [number]
  }

  lemma OperandTokensFlat(mode: Mode, bytes: seq<byte>, address: word)
    requires |bytes| == OperandBytes(mode) > 0
    ensures OperandTokens(mode, bytes, address)
         == FlatTokens(mode, Lexer.Number(Literal(mode, bytes, address), Shown(mode, bytes, address)))
  {
  }

  /** An operand in front of a line break parses to its shape. */
  lemma ParseShaped(ts: seq<Lexer.Token>, i: nat, mode: Mode, literal: string, number: nat) returns (end: nat)
    requires WellEnded(ts) && literal != "" && (literal[0] == '#' <==> mode.IMM?)
    requires StandsAt(ts, i, FlatTokens(mode, Lexer.Number(literal, number)))
    requires var after := i + |FlatTokens(mode, Lexer.Number(literal, number))|; after < |ts| && ts[after].Newline?
    ensures end == i + |FlatTokens(mode, Lexer.Number(literal, number))|
    ensures OperandsAt(ts, i, true) == Some(([Shaped(mode, number)], end))
  {
    var tokens := FlatTokens(mode, Lexer.Number(literal, number));
    TokensStand(ts, i, tokens);
    end := i + |tokens|;
    var plain := Operand(Value.Number(number), mode.IMM?, false, NoIndex);
    match mode
    case IZX =>
      assert OperandAt(ts, i + 1) == Some((plain, i + 2));
      assert OperandAt(ts, i) == Some((Shaped(mode, number), end));
    case IZY | IND =>
      assert OperandAt(ts, i + 1) == Some((plain, i + 2));
      assert OperandAt(ts, i) == Some((plain.(indirect := true), i + 3));
    case _ => assert OperandAt(ts, i) == Some((plain, i + 1));
  }

  lemma ParseBareLine(ts: seq<Lexer.Token>, i: nat, name: string)
    requires WellEnded(ts) && StandsAt(ts, i, [Identifier(name), Newline])
    ensures ParsesLine(ts, i, Instruct(name, []), i + 1)
  {
    TokensStand(ts, i, [Identifier(name), Newline]);
  }

  lemma ParseOperandLine(ts: seq<Lexer.Token>, i: nat, name: string, mode: Mode, literal: string, number: nat)
    requires WellEnded(ts) && literal != "" && (literal[0] == '#' <==> mode.IMM?)
    requires StandsAt(ts, i, [Identifier(name)] + (FlatTokens(mode, Lexer.Number(literal, number)) + [Newline]))
    ensures ParsesLine(ts, i, Instruct(name, [Shaped(mode, number)]),
                       i + 1 + |FlatTokens(mode, Lexer.Number(literal, number))|)
  {
    var tokens := FlatTokens(mode, Lexer.Number(literal, number));
    StandsSplit(ts, i, [Identifier(name)], tokens + [Newline]);
    StandsSplit(ts, i + 1, tokens, [Newline]);
    TokensStand(ts, i, [Identifier(name)]);
    TokensStand(ts, i + 1 + |tokens|, [Newline]);
    TokensStand(ts, i + 1, tokens);
    var end := ParseShaped(ts, i + 1, mode, literal, number);
  }

  lemma ParseByteLine(ts: seq<Lexer.Token>, i: nat, value: byte)
    requires WellEnded(ts) && StandsAt(ts, i, LineTokens(ByteLine(value)))
    ensures ParsesLine(ts, i, Reassembly.StatementOf(ByteLine(value)), i + 2)
    ensures |LineTokens(ByteLine(value))| == 3
  {
    var literal := "$" + HexByte(value);
    assert LineTokens(ByteLine(value)) == [Directive("byte"), Lexer.Number(literal, value), Newline];
    ParseDirectiveLine(ts, i, "byte", literal, value);
  }

  lemma ParseCodeLine(ts: seq<Lexer.Token>, i: nat, entry: Entry, bytes: seq<byte>, address: word)
    requires WellEnded(ts) && |bytes| == OperandBytes(entry.mode)
    requires StandsAt(ts, i, [Identifier(Lower(entry.mnemonic))]
                             + (LineOperandTokens(entry.mode, bytes, address) + [Newline]))
    ensures ParsesLine(ts, i, Instruct(Lower(entry.mnemonic), Reassembly.OperandsOf(entry.mode, bytes, address)),
                       i + 1 + |LineOperandTokens(entry.mode, bytes, address)|)
  {
    var name := Lower(entry.mnemonic);
    OperandsAreShaped(entry.mode, bytes, address);
    if bytes == [] {
      assert [Identifier(name)] + ([] + [Newline]) == [Identifier(name), Newline];
      ParseBareLine(ts, i, name);
    } else {
      OperandTokensFlat(entry.mode, bytes, address);
      ParseOperandLine(ts, i, name, entry.mode, Literal(entry.mode, bytes, address), Shown(entry.mode, bytes, address));
    }
  }

  /** A line's tokens parse to its statement. */
  lemma ParseLine(ts: seq<Lexer.Token>, i: nat, line: Line)
    requires WellEnded(ts) && LineOk(line) && StandsAt(ts, i, LineTokens(line))
    ensures ParsesLine(ts, i, Reassembly.StatementOf(line), i + |LineTokens(line)| - 1)
  {
    match line
    case ByteLine(value) => ParseByteLine(ts, i, value);
    case CodeLine(entry, bytes, address) => ParseCodeLine(ts, i, entry, bytes, address);
  }

  lemma ParseStep(ts: seq<Lexer.Token>, i: nat, statement: Statement, end: nat)
    requires ParsesLine(ts, i, statement, end)
    ensures end + 1 < |ts|
    ensures ProgramFrom(ts, i) == Prefixed([statement], ProgramFrom(ts, end + 1))
  {
    assert LabelsAt(ts, i) == ([], i);
    assert [] + [statement] == [statement];
  }

  lemma {:induction false} ParseListing(ts: seq<Lexer.Token>, i: nat, listing: Listing)
    requires ListingOk(listing) && WellEnded(ts)
    requires StandsAt(ts, i, TokensOf(listing)) && i + |TokensOf(listing)| == |ts|
    ensures ProgramFrom(ts, i) == Some(Reassembly.StatementsOf(listing))
    decreases listing
  {
    if listing.Next? {
      var tokens, rest := LineTokens(listing.line), TokensOf(listing.rest);
      StandsSplit(ts, i, tokens, rest);
      ParseLine(ts, i, listing.line);
      ParseStep(ts, i, Reassembly.StatementOf(listing.line), i + |tokens| - 1);
      ParseListing(ts, i + |tokens|, listing.rest);
    } else {
      TokensStand(ts, i, [EndOfFile]);
    }
  }

  // ---------------------------------------------------------------- source text in, ROM out

  /** Lexing, parsing and both passes; `.include` is not expanded. */
  function FromText(isa: seq<Entry>, origin: word, romSize: nat, source: string): Option<Assembler.Image> {
    var tokens := LexFrom(source, 0);
    if tokens.None? then None
    else
      var statements := ProgramFrom(tokens.value, 0);
      if statements.None? then None else Assembler.Assembled(isa, origin, romSize, statements.value)
  }

  method AssembleText(isa: seq<Entry>, origin: word, romSize: nat, source: string) returns (r: Option<Assembler.Image>)
    ensures r == FromText(isa, origin, romSize, source)
  {
    var scanner := new Scanner(source);
    var tokens := scanner.Lex();
    if tokens.None? {
      return None;
    }
    var parsing := new Parsing(tokens.value);
    var statements := parsing.Parse();
    if statements.None? {
      return None;
    }
    r := Assembler.Assemble(isa, origin, romSize, statements.value);
  }

  function HeaderTokens(options: Options): seq<Lexer.Token> {
    if options.emitOrg then [Directive("org"), Lexer.Number("$" + HexWord(options.origin), options.origin), Newline] else []
  }

  function HeaderStatements(options: Options): seq<Statement> {
    if options.emitOrg then [Org([Reassembly.Plain(options.origin)])] else []
  }

  lemma LexHeader(s: string, options: Options) returns (end: nat)
    requires StandsAt(s, 0, Header(options))
    ensures end == |Header(options)| && Reads(s, 0, HeaderTokens(options), end)
  {
    if options.emitOrg {
      var hex := HexWord(options.origin);
      assert ".org " + FormatWord(options.origin) + "\n" == DirectiveText("org", hex);
      HexByteIsHex(options.origin / 0x100);
      HexByteIsHex(options.origin % 0x100);
      ReadHexWord(options.origin);
      assert IsWord("org") && Lower("org") == "org";
      end := LexDirectiveLine(s, 0, "org", hex, options.origin);
      assert DirectiveTokens("org", hex, options.origin) == HeaderTokens(options);
    } else {
      AfterNothing(LexFrom(s, 0));
      end := 0;
    }
  }

  lemma ParseOrigin(ts: seq<Lexer.Token>, literal: string, origin: word)
    requires WellEnded(ts) && literal != "" && literal[0] == '$'
    requires StandsAt(ts, 0, [Directive("org"), Lexer.Number(literal, origin), Newline])
    ensures 3 < |ts| && ProgramFrom(ts, 0) == Prefixed([Org([Reassembly.Plain(origin)])], ProgramFrom(ts, 3))
  {
    ParseDirectiveLine(ts, 0, "org", literal, origin);
    ParseStep(ts, 0, Org([Reassembly.Plain(origin)]), 2);
  }

  lemma ParseHeader(ts: seq<Lexer.Token>, options: Options, rest: Option<seq<Statement>>)
    requires WellEnded(ts) && StandsAt(ts, 0, HeaderTokens(options)) && |HeaderTokens(options)| < |ts|
    requires rest == ProgramFrom(ts, |HeaderTokens(options)|)
    ensures ProgramFrom(ts, 0) == Prefixed(HeaderStatements(options), rest)
  {
    if options.emitOrg {
      ParseOrigin(ts, "$" + HexWord(options.origin), options.origin);
    } else {
      SameProgramStart(rest);
    }
  }

  lemma {:induction false} WordsOf(isa: seq<Entry>, rom: seq<byte>, index: nat, address: word, listing: Listing)
    requires WellFormed(isa) && Spells(isa, rom, index, address, listing)
    ensures WordsIn(listing)
    decreases listing
  {
    if listing.Next? {
      var size := |LineBytes(listing.line)|;
      WordsOf(isa, rom, index + size, Advance(address, size), listing.rest);
    }
  }

  lemma LexDocument(header: string, body: string, options: Options, listing: Listing)
    requires ListingOk(listing) && WordsIn(listing)
    requires header == Header(options) && body == RenderAll(options, listing)
    ensures LexFrom(header + body, 0) == Some(HeaderTokens(options) + TokensOf(listing))
  {
    var source := header + body;
    assert StandsAt(source, 0, header + body);
    StandsSplit(source, 0, header, body);
    var end := LexHeader(source, options);
    LexListing(source, end, options, listing);
  }

  lemma ParseDocument(header: seq<Lexer.Token>, body: seq<Lexer.Token>, options: Options, listing: Listing)
    requires ListingOk(listing)
    requires header == HeaderTokens(options) && body == TokensOf(listing)
    ensures WellEnded(header + body)
    ensures ProgramFrom(header + body, 0) == Some(HeaderStatements(options) + Reassembly.StatementsOf(listing))
  {
    var ts := header + body;
    assert StandsAt(ts, 0, header + body);
    StandsSplit(ts, 0, header, body);
    ParseListing(ts, |header|, listing);
    ParseHeader(ts, options, Some(Reassembly.StatementsOf(listing)));
  }

  /** A disassembly reads back as its optional origin directive and the statements of its lines. */
  lemma TextReadsBack(isa: seq<Entry>, rom: seq<byte>, options: Options) returns (ts: seq<Lexer.Token>)
    requires WellFormed(isa)
    ensures LexFrom(Disassembly(isa, rom, options), 0) == Some(ts) && WellEnded(ts)
    ensures ProgramFrom(ts, 0)
         == Some(HeaderStatements(options) + Reassembly.StatementsOf(Lines(isa, rom, 0, options.origin)))
  {
    var listing := Lines(isa, rom, 0, options.origin);
    LinesSpell(isa, rom, 0, options.origin);
    WordsOf(isa, rom, 0, options.origin, listing);
    LexDocument(Header(options), RenderAll(options, listing), options, listing);
    ts := HeaderTokens(options) + TokensOf(listing);
    ParseDocument(HeaderTokens(options), TokensOf(listing), options, listing);
  }

  /** An origin directive that names the entry point changes nothing. */
  lemma OrgAtEntry(isa: seq<Entry>, options: Options, romSize: nat, statements: seq<Statement>)
    ensures Assembler.Assembled(isa, options.origin, romSize, HeaderStatements(options) + statements)
         == Assembler.Assembled(isa, options.origin, romSize, statements)
  {
    if options.emitOrg {
      Reassembly.PlaceFirst(isa, options.origin, Assembler.Start(options.origin),
                            Org([Reassembly.Plain(options.origin)]), statements);
    } else {
      assert [] + statements == statements;
    }
  }

  /** Disassembling a ROM without symbols, under any options, and assembling the text with the same origin
      and size gives the ROM back exactly when it fits in memory at its origin and every line is faithful:
      no branch target wraps past the ends of memory, and no absolute operand of at most $FF belongs to a
      mnemonic that also has the matching zero-page mode. */
  lemma TextRoundTrip(isa: seq<Entry>, rom: seq<byte>, options: Options)
    requires WellFormed(isa)
    ensures var back := FromText(isa, options.origin, |rom|, Disassembly(isa, rom, options));
            back.Some? && back.value.rom == rom
            <==> options.origin + |rom| <= 0x1_0000
                 && Reassembly.AllFaithful(isa, Lines(isa, rom, 0, options.origin))
  {
    var ts := TextReadsBack(isa, rom, options);
    OrgAtEntry(isa, options, |rom|, Reassembly.StatementsOf(Lines(isa, rom, 0, options.origin)));
    Reassembly.ComesBackExactly(isa, rom, options.origin);
  }

  // ---------------------------------------------------------------- ROMs that do not come back

  /** Disassembling the ROM and assembling the text gives the ROM back. */
  predicate ReturnsAsText(isa: seq<Entry>, rom: seq<byte>, options: Options) {
    var back := FromText(isa, options.origin, |rom|, Disassembly(isa, rom, options));
    back.Some? && back.value.rom == rom
  }

  lemma UnfaithfulFirstLine(isa: seq<Entry>, rom: seq<byte>, options: Options)
    requires WellFormed(isa) && rom != [] && !Reassembly.Faithful(isa, LineAt(isa, rom, 0, options.origin))
    ensures !ReturnsAsText(isa, rom, options)
  {
    TextRoundTrip(isa, rom, options);
  }

  /** LDA $0010 comes back as LDA $10: under every table with the shipped zero-page and absolute loads, at
      every origin and under all options, the text of the ROM 50 10 00 does not assemble to it. */
  lemma SmallAbsoluteIsLost(isa: seq<Entry>, options: Options)
    requires WellFormed(isa) && Entry("LDA", ZP, 0x40) in isa && Entry("LDA", ABS, 0x50) in isa
    ensures !ReturnsAsText(isa, [0x50, 0x10, 0x00], options)
  {
    var rom: seq<byte>, load := [0x50, 0x10, 0x00], Entry("LDA", ABS, 0x50);
    FoundByName(isa, load, "LDA");
    FoundByName(isa, Entry("LDA", ZP, 0x40), "LDA");
    assert LineAt(isa, rom, 0, options.origin) == CodeLine(load, rom[1..3], options.origin);
    assert Target(rom[1..3]) == 0x10;
    assert Reassembly.Has(isa, "LDA", ZP) by { assert Entry("LDA", ZP, 0x40) in isa; }
    UnfaithfulFirstLine(isa, rom, options);
  }

  /** A branch whose target wraps below address 0 does not reassemble: BEQ with displacement -128 at address 0. */
  lemma WrappingBranchIsLost(isa: seq<Entry>, options: Options)
    requires WellFormed(isa) && Entry("BEQ", REL, 0x70) in isa && options.origin == 0
    ensures !ReturnsAsText(isa, [0x70, 0x80], options)
  {
    var rom: seq<byte>, branch := [0x70, 0x80], Entry("BEQ", REL, 0x70);
    FoundByName(isa, branch, "BEQ");
    assert LineAt(isa, rom, 0, 0) == CodeLine(branch, rom[1..2], 0);
    UnfaithfulFirstLine(isa, rom, options);
  }

  lemma LoadName()
    ensures IsWord("LDA") && Lower("LDA") == "lda" && !IsRelative("LDA")
  {
  }

  lemma BranchName()
    ensures IsWord("BEQ") && Lower("BEQ") == "beq" && IsRelative("BEQ")
  {
  }

  lemma TableOfThree(a: Entry, b: Entry, c: Entry)
    requires a.opcode != b.opcode && a.opcode != c.opcode && b.opcode != c.opcode && a.mode != b.mode
    requires IsWord(a.mnemonic) && a.mnemonic == b.mnemonic && IsWord(c.mnemonic) && Lower(a.mnemonic) != Lower(c.mnemonic)
    requires !IsRelative(a.mnemonic) && IsRelative(c.mnemonic) && !a.mode.REL? && !b.mode.REL? && c.mode.REL?
    ensures WellFormed([a, b, c])
  {
  }

  /** A table with all three instructions is well formed. */
  lemma SampleTable()
    ensures WellFormed([Entry("LDA", ZP, 0x40), Entry("LDA", ABS, 0x50), Entry("BEQ", REL, 0x70)])
  {
    LoadName();
    BranchName();
    assert "lda"[0] != "beq"[0];
    TableOfThree(Entry("LDA", ZP, 0x40), Entry("LDA", ABS, 0x50), Entry("BEQ", REL, 0x70));
  }
}
