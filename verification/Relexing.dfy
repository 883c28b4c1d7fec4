/** The text of a disassembly lexes to the tokens of its lines. */
module Relexing {
  import opened Bits
  import opened Wrappers
  import opened Text
  import opened Isa
  import opened Lexer
  import Disassembler

  type Line = Disassembler.Line

  // ---------------------------------------------------------------- one token at a time

  /** Lexing from `i` reads these tokens and goes on at `j`. */
  ghost predicate Reads(s: string, i: nat, tokens: seq<Token>, j: nat) {
    i <= |s| && j <= |s| && LexFrom(s, i) == After(tokens, LexFrom(s, j))
  }

  function After(read: seq<Token>, rest: Option<seq<Token>>): Option<seq<Token>> {
    if rest.None? then None else Some(read + rest.value)
  }

  lemma LexStep(s: string, i: nat, token: Token, j: nat)
    requires i <= |s| && TokenAt(s, i) == Some((token, j)) && !token.EndOfFile?
    ensures LexFrom(s, i) == After([token], LexFrom(s, j))
  {
  }

  lemma AfterAfter(a: seq<Token>, b: seq<Token>, rest: Option<seq<Token>>)
    ensures After(a, After(b, rest)) == After(a + b, rest)
  {
    if rest.Some? { assert a + (b + rest.value) == (a + b) + rest.value; }
  }

  /** Identifiers and numbers end here. */
  predicate StopsAt(s: string, i: nat) {
    i < |s| ==> !IsIdentifierChar(s[i])
  }

  lemma {:induction false} IdentifierRun(s: string, i: nat, j: nat)
    requires i <= j <= |s| && StopsAt(s, j) && forall k | i <= k < j :: IsIdentifierChar(s[k])
    ensures IdentifierEnd(s, i) == j
    decreases j - i
  {
    if i < j { IdentifierRun(s, i + 1, j); }
  }

  lemma {:induction false} AlnumRun(s: string, i: nat, j: nat)
    requires i <= j <= |s| && StopsAt(s, j) && forall k | i <= k < j :: IsAlnum(s[k])
    ensures AlnumEnd(s, i) == j
    decreases j - i
  {
    if i < j { AlnumRun(s, i + 1, j); }
  }

  lemma StandsIsSlice(s: string, i: nat, t: string)
    requires StandsAt(s, i, t)
    ensures s[i..i + |t|] == t
  {
  }

  lemma WordStands(s: string, i: nat, word: string)
    requires StandsAt(s, i, word) && IsWord(word) && StopsAt(s, i + |word|)
    ensures i < |s| && IsIdentifierStart(s[i]) && IdentifierEnd(s, i) == i + |word| && s[i..i + |word|] == word
  {
    assert s[i + 0] == word[0];
    forall k | i <= k < i + |word| ensures IsIdentifierChar(s[k]) {
      assert s[i + (k - i)] == word[k - i] && word[k - i] in word;
    }
    IdentifierRun(s, i, i + |word|);
    StandsIsSlice(s, i, word);
  }

  lemma LexWord(s: string, i: nat, word: string)
    requires StandsAt(s, i, word) && IsWord(word) && StopsAt(s, i + |word|)
    ensures TokenAt(s, i) == Some((Identifier(Lower(word)), i + |word|))
  {
    WordStands(s, i, word);
  }

  lemma LexDirective(s: string, i: nat, word: string, start: nat, end: nat)
    requires i < |s| && s[i] == '.' && start == i + 1 && end == start + |word|
    requires StandsAt(s, start, word) && IsWord(word) && StopsAt(s, end)
    ensures TokenAt(s, i) == Some((Directive(Lower(word)), end))
  {
    WordStands(s, start, word);
    DirectiveToken(s, i, end, word);
  }

  lemma DirectiveToken(s: string, i: nat, end: nat, word: string)
    requires i + 1 < |s| && s[i] == '.' && IsIdentifierStart(s[i + 1]) && IdentifierEnd(s, i + 1) == end
    requires s[i + 1..end] == word
    ensures TokenAt(s, i) == Some((Directive(Lower(word)), end))
  {
  }

  predicate IsHex(hex: string) {
    hex != "" && forall c | c in hex :: IsAlnum(c)
  }

  function Sigil(hash: bool): string {
    if hash then "#$" else "$"
  }

  /** Where a hexadecimal literal, with or without `#`, ends. */
  lemma HexEnd(s: string, i: nat, hash: bool, hex: string)
    requires IsHex(hex) && StandsAt(s, i, Sigil(hash) + hex) && StopsAt(s, i + |Sigil(hash) + hex|)
    ensures i < |s| && s[i] == (if hash then '#' else '$')
    ensures hash ==> i + 1 < |s| && s[i + 1] == '$'
    ensures AlnumEnd(s, DigitsStart(s, i)) == i + |Sigil(hash) + hex|
  {
    var start, end := i + |Sigil(hash)|, i + |Sigil(hash) + hex|;
    StandsSplit(s, i, Sigil(hash), hex);
    assert s[i + 0] == Sigil(hash)[0];
    if hash { assert s[i + 1] == Sigil(hash)[1]; }
    forall k | start <= k < end ensures IsAlnum(s[k]) {
      assert s[start + (k - start)] == hex[k - start] && hex[k - start] in hex;
    }
    AlnumRun(s, start, end);
  }

  lemma LexHex(s: string, i: nat, hash: bool, hex: string, text: string, value: nat)
    requires IsHex(hex) && ReadDigits(hex, 16, 0) == Some(value) && text == Sigil(hash) + hex
    requires StandsAt(s, i, text) && StopsAt(s, i + |text|)
    ensures TokenAt(s, i) == Some((Number(text, value), i + |text|))
  {
    HexEnd(s, i, hash, hex);
    StandsIsSlice(s, i, text);
    NumberOfHex(hash, hex, value);
    SigilStarts(s, i);
  }

  lemma SigilStarts(s: string, i: nat)
    requires i < |s| && (s[i] == '$' || (s[i] == '#' && i + 1 < |s| && s[i + 1] == '$'))
    ensures TokenAt(s, i) == NumberToken(s, i)
  {
  }

  lemma NumberOfHex(hash: bool, hex: string, value: nat)
    requires IsHex(hex) && ReadDigits(hex, 16, 0) == Some(value)
    ensures NumberValue(Sigil(hash) + hex) == Some(value)
  {
    var text := Sigil(hash) + hex;
    var bare := "$" + hex;
    if hash { assert text[1..] == bare; }
    assert bare[1..] == hex;
  }

  /** A blank is skipped. */
  lemma LexBlank(s: string, i: nat)
    requires i < |s| && s[i] == ' '
    ensures TokenAt(s, i) == TokenAt(s, i + 1)
  {
    assert SkipBlanks(s, i) == SkipBlanks(s, i + 1);
  }

  /** A comment is skipped to its line's end. */
  lemma LexLineEnd(s: string, i: nat, comment: string)
    requires StandsAt(s, i, comment + "\n") && '\n' !in comment
    requires comment == "" || (|comment| >= 2 && comment[0] == ' ' && comment[1] == ';')
    ensures TokenAt(s, i) == Some((Newline, i + |comment| + 1))
  {
    StandsSplit(s, i, comment, "\n");
    var end := i + |comment|;
    assert s[end + 0] == "\n"[0];
    if comment != "" {
      assert s[i + 0] == ' ' && s[i + 1] == ';';
      LexBlank(s, i);
      forall k | i <= k < end ensures s[k] != '\n' {
        assert s[i + (k - i)] == comment[k - i] && comment[k - i] in comment;
      }
      LineRun(s, i + 1, end);
      assert TokenAt(s, i + 1) == TokenAt(s, end);
    }
  }

  lemma {:induction false} LineRun(s: string, i: nat, j: nat)
    requires i <= j < |s| && s[j] == '\n' && forall k | i <= k < j :: s[k] != '\n'
    ensures LineEnd(s, i) == j
    decreases j - i
  {
    if i < j { LineRun(s, i + 1, j); }
  }

  // ---------------------------------------------------------------- operands

  /** What stands before and behind the literal of an operand. */
  function Opening(mode: Mode): string {
    if mode.IZX? || mode.IZY? || mode.IND? then "(" else ""
  }

  function Closing(mode: Mode): string {
    match mode
    case ZPX | ABX => ",X"
    case ZPY | ABY => ",Y"
    case IZX => ",X)"
    case IZY => "),Y"
    case IND => ")"
    case _ => ""
  }

  function OpeningTokens(mode: Mode): seq<Token> {
    if mode.IZX? || mode.IZY? || mode.IND? then [LeftParen] else []
  }

  function ClosingTokens(mode: Mode): seq<Token> {
    match mode
    case ZPX | ABX => [Comma, Identifier("x")]
    case ZPY | ABY => [Comma, Identifier("y")]
    case IZX => [Comma, Identifier("x"), RightParen]
    case IZY => [RightParen, Comma, Identifier("y")]
    case IND => [RightParen]
    case _ => []
  }

  /** The number an operand shows. */
  function Shown(mode: Mode, bytes: seq<byte>, address: word): word
    requires |bytes| == OperandBytes(mode) > 0
  {
    if |bytes| == 2 then Disassembler.Target(bytes)
    else if mode.REL? then Disassembler.BranchTarget(address, bytes[0])
    else bytes[0]
  }

  function Digits(mode: Mode, bytes: seq<byte>, address: word): string
    requires |bytes| == OperandBytes(mode) > 0
  {
    if |bytes| == 2 || mode.REL? then HexWord(Shown(mode, bytes, address)) else HexByte(bytes[0])
  }

  function Literal(mode: Mode, bytes: seq<byte>, address: word): string
    requires |bytes| == OperandBytes(mode) > 0
  {
    Sigil(mode.IMM?) + Digits(mode, bytes, address)
  }

  lemma OperandParts(mode: Mode, bytes: seq<byte>, address: word)
    requires |bytes| == OperandBytes(mode) > 0
    ensures Disassembler.FormatOperand(mode, bytes, address)
         == Opening(mode) + (Literal(mode, bytes, address) + Closing(mode))
  {
  }

  lemma HexByteIsHex(v: byte)
    ensures IsHex(HexByte(v))
  {
  }

  lemma DigitsRead(mode: Mode, bytes: seq<byte>, address: word)
    requires |bytes| == OperandBytes(mode) > 0
    ensures IsHex(Digits(mode, bytes, address))
    ensures ReadDigits(Digits(mode, bytes, address), 16, 0) == Some(Shown(mode, bytes, address))
  {
    var v := Shown(mode, bytes, address);
    if |bytes| == 2 || mode.REL? {
      ReadHexWord(v);
      HexByteIsHex(v / 0x100);
      HexByteIsHex(v % 0x100);
    } else {
      ReadHexByte(bytes[0]);
      HexByteIsHex(bytes[0]);
    }
  }

  lemma LexMark(s: string, i: nat, mark: char)
    requires i < |s| && s[i] == mark && (mark == ',' || mark == '(' || mark == ')')
    ensures TokenAt(s, i) == Some((if mark == ',' then Comma else if mark == '(' then LeftParen else RightParen, i + 1))
  {
  }

  lemma LexRegister(s: string, i: nat, register: char)
    requires i < |s| && s[i] == register && StopsAt(s, i + 1) && (register == 'X' || register == 'Y')
    ensures TokenAt(s, i) == Some((Identifier(if register == 'X' then "x" else "y"), i + 1))
  {
    assert forall k | 0 <= k < 1 :: s[i + k] == [register][k];
    LexWord(s, i, [register]);
    assert Lower([register]) == (if register == 'X' then "x" else "y");
  }

  /** `,X` or `,Y`. */
  lemma LexIndex(s: string, i: nat, register: char)
    requires i + 1 < |s| && s[i] == ',' && s[i + 1] == register && StopsAt(s, i + 2)
    requires register == 'X' || register == 'Y'
    ensures LexFrom(s, i)
         == After([Comma, Identifier(if register == 'X' then "x" else "y")], LexFrom(s, i + 2))
  {
    var token := Identifier(if register == 'X' then "x" else "y");
    LexMark(s, i, ',');
    LexStep(s, i, Comma, i + 1);
    LexRegister(s, i + 1, register);
    LexStep(s, i + 1, token, i + 2);
    AfterAfter([Comma], [token], LexFrom(s, i + 2));
    assert [Comma] + [token] == [Comma, token];
  }

  lemma LexOneMark(s: string, i: nat)
    requires i < |s| && (s[i] == '(' || s[i] == ')')
    ensures LexFrom(s, i) == After([if s[i] == '(' then LeftParen else RightParen], LexFrom(s, i + 1))
  {
    LexMark(s, i, s[i]);
    LexStep(s, i, if s[i] == '(' then LeftParen else RightParen, i + 1);
  }

  /** `,X)` */
  lemma LexIndexedClose(s: string, i: nat)
    requires i + 2 < |s| && s[i] == ',' && s[i + 1] == 'X' && s[i + 2] == ')'
    ensures LexFrom(s, i) == After([Comma, Identifier("x"), RightParen], LexFrom(s, i + 3))
  {
    LexIndex(s, i, 'X');
    LexOneMark(s, i + 2);
    AfterAfter([Comma, Identifier("x")], [RightParen], LexFrom(s, i + 3));
    assert [Comma, Identifier("x")] + [RightParen] == [Comma, Identifier("x"), RightParen];
  }

  /** `),Y` */
  lemma LexCloseIndexed(s: string, i: nat)
    requires i + 2 < |s| && s[i] == ')' && s[i + 1] == ',' && s[i + 2] == 'Y' && StopsAt(s, i + 3)
    ensures LexFrom(s, i) == After([RightParen, Comma, Identifier("y")], LexFrom(s, i + 3))
  {
    LexOneMark(s, i);
    LexIndex(s, i + 1, 'Y');
    AfterAfter([RightParen], [Comma, Identifier("y")], LexFrom(s, i + 3));
    assert [RightParen] + [Comma, Identifier("y")] == [RightParen, Comma, Identifier("y")];
  }

  lemma CharsStand(s: string, i: nat, t: string)
    requires StandsAt(s, i, t) && |t| <= 3
    ensures |t| > 0 ==> i < |s| && s[i] == t[0]
    ensures |t| > 1 ==> i + 1 < |s| && s[i + 1] == t[1]
    ensures |t| > 2 ==> i + 2 < |s| && s[i + 2] == t[2]
  {
    assert |t| > 0 ==> s[i + 0] == t[0];
  }

  lemma LexClosing(s: string, i: nat, mode: Mode) returns (end: nat)
    requires StandsAt(s, i, Closing(mode)) && StopsAt(s, i + |Closing(mode)|)
    ensures end == i + |Closing(mode)| && Reads(s, i, ClosingTokens(mode), end)
  {
    CharsStand(s, i, Closing(mode));
    match mode
    case ZPX | ABX =>
      LexIndex(s, i, 'X');
      end := i + 2;
    case ZPY | ABY =>
      LexIndex(s, i, 'Y');
      end := i + 2;
    case IZX =>
      LexIndexedClose(s, i);
      end := i + 3;
    case IZY =>
      LexCloseIndexed(s, i);
      end := i + 3;
    case IND =>
      LexOneMark(s, i);
      end := i + 1;
    case _ =>
      AfterNothing(LexFrom(s, i));
      end := i;
  }

  lemma AfterNothing(rest: Option<seq<Token>>)
    ensures After([], rest) == rest
  {
    if rest.Some? { assert [] + rest.value == rest.value; }
  }

  function OperandTokens(mode: Mode, bytes: seq<byte>, address: word): seq<Token>
    requires |bytes| == OperandBytes(mode) > 0
  {
    OpeningTokens(mode)
    + ([Number(Literal(mode, bytes, address), Shown(mode, bytes, address))] + ClosingTokens(mode))
  }

  lemma LexLiteral(s: string, i: nat, mode: Mode, bytes: seq<byte>, address: word, literal: string) returns (end: nat)
    requires |bytes| == OperandBytes(mode) > 0 && literal == Literal(mode, bytes, address)
    requires StandsAt(s, i, literal) && StopsAt(s, i + |literal|)
    ensures end == i + |literal| && Reads(s, i, [Number(literal, Shown(mode, bytes, address))], end)
  {
    DigitsRead(mode, bytes, address);
    LexHex(s, i, mode.IMM?, Digits(mode, bytes, address), literal, Shown(mode, bytes, address));
    end := i + |literal|;
    LexStep(s, i, Number(literal, Shown(mode, bytes, address)), end);
  }

  lemma LexOpening(s: string, i: nat, mode: Mode) returns (end: nat)
    requires StandsAt(s, i, Opening(mode))
    ensures end == i + |Opening(mode)| && Reads(s, i, OpeningTokens(mode), end)
  {
    CharsStand(s, i, Opening(mode));
    if mode.IZX? || mode.IZY? || mode.IND? {
      LexOneMark(s, i);
      end := i + 1;
    } else {
      AfterNothing(LexFrom(s, i));
      end := i;
    }
  }

  /** Stretches of text lex to their tokens one after the other. */
  lemma ReadsInTurn(s: string, i: nat, j: nat, k: nat, a: seq<Token>, b: seq<Token>)
    requires Reads(s, i, a, j) && Reads(s, j, b, k)
    ensures Reads(s, i, a + b, k)
  {
    AfterAfter(a, b, LexFrom(s, k));
  }

  lemma StopsBeforeClosing(s: string, i: nat, mode: Mode, closing: string, stop: nat)
    requires closing == Closing(mode) && StandsAt(s, i, closing) && stop == i + |closing| && StopsAt(s, stop)
    ensures StopsAt(s, i)
  {
    CharsStand(s, i, Closing(mode));
  }

  /** An operand lexes to its parenthesis, its number and its index register. */
  lemma LexOperand(s: string, i: nat, mode: Mode, bytes: seq<byte>, address: word, text: string, end: nat)
    requires |bytes| == OperandBytes(mode) > 0 && text == Disassembler.FormatOperand(mode, bytes, address)
    requires StandsAt(s, i, text) && end == i + |text| && StopsAt(s, end)
    ensures Reads(s, i, OperandTokens(mode, bytes, address), end)
  {
    OperandParts(mode, bytes, address);
    LexParts(s, i, mode, bytes, address, Opening(mode), Literal(mode, bytes, address), Closing(mode), end);
  }

  lemma LexParts(s: string, i: nat, mode: Mode, bytes: seq<byte>, address: word,
                 opening: string, literal: string, closing: string, stop: nat)
    requires |bytes| == OperandBytes(mode) > 0
    requires opening == Opening(mode) && literal == Literal(mode, bytes, address) && closing == Closing(mode)
    requires StandsAt(s, i, opening + (literal + closing))
    requires stop == i + |opening| + |literal| + |closing| && StopsAt(s, stop)
    ensures Reads(s, i, OperandTokens(mode, bytes, address), stop)
  {
    StandsSplit(s, i, opening, literal + closing);
    var j := LexOpening(s, i, mode);
    StandsAfter(s, i, opening, literal + closing, j);
    LexLiteralAndClosing(s, j, mode, bytes, address, literal, closing, stop);
    ReadsInTurn(s, i, j, stop, OpeningTokens(mode), [Number(literal, Shown(mode, bytes, address))] + ClosingTokens(mode));
  }

  lemma LexLiteralAndClosing(s: string, j: nat, mode: Mode, bytes: seq<byte>, address: word, literal: string, closing: string,
                             stop: nat)
    requires |bytes| == OperandBytes(mode) > 0 && literal == Literal(mode, bytes, address) && closing == Closing(mode)
    requires StandsAt(s, j, literal + closing) && stop == j + |literal| + |closing| && StopsAt(s, stop)
    ensures Reads(s, j, [Number(literal, Shown(mode, bytes, address))] + ClosingTokens(mode), stop)
  {
    StandsSplit(s, j, literal, closing);
    StopsBeforeClosing(s, j + |literal|, mode, closing, stop);
    var k := LexLiteral(s, j, mode, bytes, address, literal);
    StandsAfter(s, j, literal, closing, k);
    var end := LexClosing(s, k, mode);
    ReadsInTurn(s, j, k, stop, [Number(literal, Shown(mode, bytes, address))], ClosingTokens(mode));
  }

  // ---------------------------------------------------------------- lines

  function LineTokens(line: Line): seq<Token>
    requires Disassembler.LineOk(line)
  {
    match line
    case ByteLine(value) => [Directive("byte")] + ([Number("$" + HexByte(value), value)] + [Newline])
    case CodeLine(entry, bytes, address) =>
      [Identifier(Lower(entry.mnemonic))]
      + (LineOperandTokens(entry.mode, bytes, address) + [Newline])
  }

  predicate OneLine(comment: string) {
    '\n' !in comment && (comment == "" || (|comment| >= 2 && comment[0] == ' ' && comment[1] == ';'))
  }

  lemma {:induction false} BytesTextOneLine(bytes: seq<byte>)
    ensures '\n' !in Disassembler.BytesText(bytes)
  {
    if bytes != [] {
      BytesTextOneLine(bytes[..|bytes| - 1]);
      HexByteIsHex(bytes[|bytes| - 1]);
      assert '\n' !in HexByte(bytes[|bytes| - 1]);
    }
  }

  lemma CommentOneLine(options: Disassembler.Options, line: Line)
    requires line.CodeLine?
    ensures OneLine(Disassembler.Comment(options, line))
  {
    HexByteIsHex(line.address / 0x100);
    HexByteIsHex(line.address % 0x100);
    HexByteIsHex(line.entry.opcode);
    assert '\n' !in HexWord(line.address) && '\n' !in HexByte(line.entry.opcode);
    BytesTextOneLine(line.bytes);
  }

  /** The end of a line: an optional comment and the line break. */
  lemma LexTail(s: string, i: nat, comment: string) returns (end: nat)
    requires StandsAt(s, i, comment + "\n") && OneLine(comment)
    ensures end == i + |comment| + 1 && Reads(s, i, [Newline], end) && StopsAt(s, i)
  {
    LexLineEnd(s, i, comment);
    end := i + |comment| + 1;
    LexStep(s, i, Newline, end);
    assert s[i + 0] == (comment + "\n")[0];
  }

  lemma LexAfterBlank(s: string, i: nat, tokens: seq<Token>, j: nat)
    requires i < |s| && s[i] == ' ' && Reads(s, i + 1, tokens, j)
    ensures Reads(s, i, tokens, j)
  {
    LexBlank(s, i);
  }

  /** ` operand`, or nothing for an instruction without operand bytes. */
  function OperandPart(entry: Entry, bytes: seq<byte>, address: word): string
    requires |bytes| == OperandBytes(entry.mode)
  {
    if bytes == [] then "" else " " + Disassembler.FormatOperand(entry.mode, bytes, address)
  }

  lemma InstructionParts(line: Line)
    requires Disassembler.LineOk(line) && line.CodeLine?
    ensures Disassembler.Instruction(line) == line.entry.mnemonic + OperandPart(line.entry, line.bytes, line.address)
  {
    if line.bytes != [] {
      OperandParts(line.entry.mode, line.bytes, line.address);
      assert Disassembler.FormatOperand(line.entry.mode, line.bytes, line.address) != "";
    }
  }

  lemma RegroupFour(a: string, b: string, c: string, d: string)
    ensures ((a + b) + c) + d == a + (b + (c + d))
  {
  }

  lemma RenderParts(options: Disassembler.Options, line: Line)
    requires Disassembler.LineOk(line) && line.CodeLine?
    ensures Disassembler.Render(options, line)
         == line.entry.mnemonic + (OperandPart(line.entry, line.bytes, line.address)
                                   + (Disassembler.Comment(options, line) + "\n"))
  {
    InstructionParts(line);
    RegroupFour(line.entry.mnemonic, OperandPart(line.entry, line.bytes, line.address),
            Disassembler.Comment(options, line), "\n");
  }

  /** A blank, an operand and the line end. */
  lemma LexSpaced(s: string, i: nat, mode: Mode, bytes: seq<byte>, address: word, text: string, comment: string)
    returns (end: nat)
    requires |bytes| == OperandBytes(mode) > 0 && text == Disassembler.FormatOperand(mode, bytes, address)
    requires OneLine(comment) && StandsAt(s, i, " ") && StandsAt(s, i + 1, text) && StandsAt(s, i + 1 + |text|, comment + "\n")
    ensures end == i + 1 + |text| + |comment| + 1 && StopsAt(s, i)
    ensures Reads(s, i, OperandTokens(mode, bytes, address) + [Newline], end)
  {
    assert s[i + 0] == " "[0];
    var tail := i + 1 + |text|;
    end := LexTail(s, tail, comment);
    LexOperand(s, i + 1, mode, bytes, address, text, tail);
    ReadsInTurn(s, i + 1, tail, end, OperandTokens(mode, bytes, address), [Newline]);
    LexAfterBlank(s, i, OperandTokens(mode, bytes, address) + [Newline], end);
  }

  function LineOperandTokens(mode: Mode, bytes: seq<byte>, address: word): seq<Token>
    requires |bytes| == OperandBytes(mode)
  {
    if bytes == [] then [] else OperandTokens(mode, bytes, address)
  }

  /** Operand, if any, and line end. */
  lemma LexRest(s: string, i: nat, entry: Entry, bytes: seq<byte>, address: word, comment: string) returns (end: nat)
    requires |bytes| == OperandBytes(entry.mode) && OneLine(comment)
    requires StandsAt(s, i, OperandPart(entry, bytes, address) + (comment + "\n"))
    ensures end == i + |OperandPart(entry, bytes, address)| + |comment| + 1 && StopsAt(s, i)
    ensures Reads(s, i, LineOperandTokens(entry.mode, bytes, address) + [Newline], end)
  {
    StandsSplit(s, i, OperandPart(entry, bytes, address), comment + "\n");
    if bytes == [] {
      end := LexTail(s, i, comment);
      assert [] + [Newline] == [Newline];
    } else {
      var text := Disassembler.FormatOperand(entry.mode, bytes, address);
      StandsSplit(s, i, " ", text);
      end := LexSpaced(s, i, entry.mode, bytes, address, text, comment);
    }
  }

  lemma LexCodeLine(s: string, i: nat, options: Disassembler.Options, line: Line) returns (end: nat)
    requires Disassembler.LineOk(line) && line.CodeLine? && IsWord(line.entry.mnemonic)
    requires StandsAt(s, i, Disassembler.Render(options, line))
    ensures end == i + |Disassembler.Render(options, line)| && Reads(s, i, LineTokens(line), end)
  {
    var comment := Disassembler.Comment(options, line);
    var mnemonic, part := line.entry.mnemonic, OperandPart(line.entry, line.bytes, line.address);
    RenderParts(options, line);
    CommentOneLine(options, line);
    var j := i + |mnemonic|;
    StandsSplit(s, i, mnemonic, part + (comment + "\n"));
    StandsAfter(s, i, mnemonic, part + (comment + "\n"), j);
    end := LexRest(s, j, line.entry, line.bytes, line.address, comment);
    LexWord(s, i, mnemonic);
    LexStep(s, i, Identifier(Lower(mnemonic)), j);
    ReadsInTurn(s, i, j, end, [Identifier(Lower(mnemonic))],
                LineOperandTokens(line.entry.mode, line.bytes, line.address) + [Newline]);
  }

  function DirectiveText(name: string, hex: string): string {
    "." + (name + (" " + (Sigil(false) + hex + ("" + "\n"))))
  }

  function DirectiveTokens(name: string, hex: string, value: nat): seq<Token> {
    [Directive(Lower(name))] + ([Number(Sigil(false) + hex, value)] + [Newline])
  }

  /** A hexadecimal literal and the end of the line. */
  lemma LexLastNumber(s: string, i: nat, hex: string, value: nat) returns (end: nat)
    requires IsHex(hex) && ReadDigits(hex, 16, 0) == Some(value)
    requires StandsAt(s, i, Sigil(false) + hex + ("" + "\n"))
    ensures end == i + 1 + |hex| + 1 && Reads(s, i, [Number(Sigil(false) + hex, value)] + [Newline], end)
  {
    var literal := Sigil(false) + hex;
    StandsSplit(s, i, literal, "" + "\n");
    var tail := i + |literal|;
    end := LexTail(s, tail, "");
    LexHex(s, i, false, hex, literal, value);
    LexStep(s, i, Number(literal, value), tail);
    ReadsInTurn(s, i, tail, end, [Number(literal, value)], [Newline]);
  }

  lemma DirectiveStands(s: string, i: nat, name: string, rest: string)
    requires StandsAt(s, i, "." + (name + (" " + rest)))
    ensures i < |s| && s[i] == '.' && StandsAt(s, i + 1, name)
    ensures i + 1 + |name| < |s| && s[i + 1 + |name|] == ' ' && StandsAt(s, i + 2 + |name|, rest)
  {
    StandsSplit(s, i, ".", name + (" " + rest));
    StandsSplit(s, i + 1, name, " " + rest);
    StandsSplit(s, i + 1 + |name|, " ", rest);
    assert s[i + 0] == "."[0] && s[i + 1 + |name| + 0] == " "[0];
  }

  /** A directive with one hexadecimal operand. */
  lemma LexDirectiveLine(s: string, i: nat, name: string, hex: string, value: nat) returns (end: nat)
    requires IsWord(name) && IsHex(hex) && ReadDigits(hex, 16, 0) == Some(value)
    requires StandsAt(s, i, DirectiveText(name, hex))
    ensures end == i + 1 + |name| + 2 + |hex| + 1 && Reads(s, i, DirectiveTokens(name, hex, value), end)
  {
    DirectiveStands(s, i, name, Sigil(false) + hex + ("" + "\n"));
    var blank := i + 1 + |name|;
    end := LexLastNumber(s, blank + 1, hex, value);
    var rest := [Number(Sigil(false) + hex, value)] + [Newline];
    LexAfterBlank(s, blank, rest, end);
    LexDirective(s, i, name, i + 1, i + 1 + |name|);
    LexStep(s, i, Directive(Lower(name)), blank);
    ReadsInTurn(s, i, blank, end, [Directive(Lower(name))], rest);
  }

  lemma LexByteLine(s: string, i: nat, value: byte) returns (end: nat)
    requires StandsAt(s, i, ".byte " + Disassembler.FormatByte(value) + "\n")
    ensures end == i + |".byte " + Disassembler.FormatByte(value) + "\n"|
    ensures Reads(s, i, LineTokens(Disassembler.ByteLine(value)), end)
  {
    var hex := HexByte(value);
    assert ".byte " + Disassembler.FormatByte(value) + "\n" == DirectiveText("byte", hex);
    HexByteIsHex(value);
    ReadHexByte(value);
    assert IsWord("byte") && Lower("byte") == "byte";
    end := LexDirectiveLine(s, i, "byte", hex, value);
  }
}
