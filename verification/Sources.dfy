/** Source texts of a program: every one assembles as the program, and every program has one. */
module Sources {
  import opened Bits
  import opened Wrappers
  import opened Text
  import opened Isa
  import opened Ast
  import opened Lexer
  import opened Parser
  import opened RoundTrip
  import opened Numerals
  import opened Spelling
  import opened Grammar
  import Assembler
  import Labels

  /** The tokens of the source, however spelled, are the lines of the program, however many empty lines between. */
  ghost predicate Writes(source: string, pieces: seq<Piece>, blanks: string, comment: string, rows: seq<Row>, empty: nat) {
    && WellSpelled(pieces, blanks, comment) && source == TextOf(pieces, blanks + comment)
    && (forall row | row in rows :: SayableStatement(row.statement))
    && Alike(Spelling.TokensOf(pieces), ProgramTokens(rows, empty))
  }

  ghost predicate IsSourceOf(source: string, statements: seq<Statement>) {
    exists pieces, blanks, comment, rows, empty ::
      Writes(source, pieces, blanks, comment, rows, empty) && Grammar.StatementsOf(rows) == statements
  }

  lemma WrittenReads(source: string, pieces: seq<Piece>, blanks: string, comment: string, rows: seq<Row>, empty: nat)
    requires Writes(source, pieces, blanks, comment, rows, empty)
    ensures LexFrom(source, 0) == Some(Spelling.TokensOf(pieces))
    ensures ProgramFrom(Spelling.TokensOf(pieces), 0) == Some(Grammar.StatementsOf(rows))
  {
    LexSource(source, 0, pieces, blanks, comment);
    var ts, us := Spelling.TokensOf(pieces), ProgramTokens(rows, empty);
    assert WellEnded(ts) && us[|us| - 1] == Shape(ts[|ts| - 1]);
    SameProgram(ts, us, 0);
    ParseRows(us, 0, rows, empty);
  }

  /** Every source of a program assembles as the program: in whatever case and base it is written, with whatever
      blanks, empty lines and comments. */
  lemma SourceAssembles(isa: seq<Entry>, origin: word, romSize: nat, source: string, statements: seq<Statement>)
    requires IsSourceOf(source, statements)
    ensures LexFrom(source, 0).Some? && ProgramFrom(LexFrom(source, 0).value, 0) == Some(statements)
    ensures FromText(isa, origin, romSize, source) == Assembler.Assembled(isa, origin, romSize, statements)
  {
    var pieces, blanks, comment, rows, empty :|
      Writes(source, pieces, blanks, comment, rows, empty) && Grammar.StatementsOf(rows) == statements;
    WrittenReads(source, pieces, blanks, comment, rows, empty);
  }

  /** So a text is the source of one program at most. */
  lemma SourceIsUnambiguous(source: string, a: seq<Statement>, b: seq<Statement>)
    requires IsSourceOf(source, a) && IsSourceOf(source, b)
    ensures a == b
  {
    SourceAssembles([], 0, 0, source, a);
    SourceAssembles([], 0, 0, source, b);
  }

  // ---------------------------------------------------------------- constants in a source

  /** `#name` behind or before `.equ name, v` is the immediate literal: the two sources assemble alike, or both
      fail. */
  lemma ImmediateNameIsLiteral(isa: seq<Entry>, origin: word, romSize: nat, named: string, literal: string,
                               before: seq<Statement>, mnemonic: string, name: string, after: seq<Statement>, e: nat, v: nat)
    requires IsSourceOf(named, before + ([Instruct(mnemonic, [Operand(Name(name), true, false, NoIndex)])] + after))
    requires IsSourceOf(literal, before + ([Instruct(mnemonic, [Operand(Value.Number(v), true, false, NoIndex)])] + after))
    requires var statements := before + ([Instruct(mnemonic, [Operand(Name(name), true, false, NoIndex)])] + after);
             e < |statements| && statements[e] == Equ(name, v)
    ensures FromText(isa, origin, romSize, named) == FromText(isa, origin, romSize, literal)
  {
    var operand := Operand(Name(name), true, false, NoIndex);
    var s := Instruct(mnemonic, [operand]);
    assert Labels.WithLiteral([operand], 0, v) == [Operand(Value.Number(v), true, false, NoIndex)];
    Labels.ImmediateIsLiteral(isa, mnemonic, operand, v);
    Labels.ConstantIsLiteral(isa, origin, romSize, before, s, after, 0, e, v);
    SourceAssembles(isa, origin, romSize, named, before + ([s] + after));
    SourceAssembles(isa, origin, romSize, literal, before + ([Labels.AsLiteral(s, 0, v)] + after));
  }

  // ---------------------------------------------------------------- every program can be written

  predicate Lowered(name: string) {
    IsWord(name) && Lower(name) == name
  }

  predicate Showable(t: Lexer.Token) {
    match t
    case Identifier(name) => Lowered(name)
    case Directive(name) => Lowered(name)
    case Number(literal, v) => (literal == "" || literal == "#") && v < 0x1_0000_0000
    case String(content) => '\n' !in content
    case EndOfFile => false
    case _ => true
  }

  /** Tokens that can be shown one by one, with a name behind every `#`. */
  predicate AllShowable(ts: seq<Lexer.Token>) {
    ts != [] ==> Showable(ts[0]) && (ts[0].Hash? ==> |ts| > 1 && ts[1].Identifier?) && AllShowable(ts[1..])
  }

  function Show(t: Lexer.Token): string {
    match t
    case Identifier(name) => name
    case Directive(name) => "." + name
    case Number(literal, v) => literal + Numeral(DigitsOf(v, 10))
    case String(content) => "\"" + (Escaped(content) + "\"")
    case Comma => ","
    case LeftParen => "("
    case RightParen => ")"
    case Colon => ":"
    case Hash => "#"
    case Newline => "\n"
    case EndOfFile => ""
  }

  function Shown(t: Lexer.Token): Lexer.Token {
    if t.Number? then t.(literal := Show(t)) else t
  }

  /** A blank before every token that need not touch a `#`. */
  function Pieces(ts: seq<Lexer.Token>, touching: bool): seq<Piece> {
    if ts == [] then []
    else [Piece(if touching then "" else " ", Show(ts[0]), Shown(ts[0]))] + Pieces(ts[1..], ts[0].Hash?)
  }

  lemma NumberShown(literal: string, v: nat)
    requires (literal == "" || literal == "#") && v < 0x1_0000_0000
    ensures var text := Show(Lexer.Number(literal, v)); IsLiteral(text, v) && (text[0] == '#' <==> literal == "#")
  {
    var digits := DigitsOf(v, 10);
    var body := Numeral(digits);
    DigitsSpell(v, 10);
    assert SpellsDigits(body, digits, 10) && "" + body == body;
    PlainDigits(body, digits);
    assert body[0] in body;
    assert LiteralOf(literal + body, v, "", body, digits, 10);
  }

  lemma TokenShown(t: Lexer.Token)
    requires Showable(t)
    ensures Spells(Show(t), Shown(t)) && Shape(Shown(t)) == t
  {
    match t
    case Directive(name) => assert ("." + name)[1..] == name;
    case Number(literal, v) => NumberShown(literal, v);
    case _ =>
  }

  lemma PiecesSeparate(ts: seq<Lexer.Token>)
    requires AllShowable(ts) && ts != []
    ensures Separate(Shown(ts[0]), Pieces(ts[1..], ts[0].Hash?), "")
  {
  }

  lemma {:induction false} PiecesSpell(ts: seq<Lexer.Token>, touching: bool)
    requires AllShowable(ts)
    ensures WellSpelled(Pieces(ts, touching), "", "")
    decreases |ts|
  {
    if ts != [] {
      TokenShown(ts[0]);
      PiecesSpell(ts[1..], ts[0].Hash?);
      PiecesSeparate(ts);
      assert "" + "" == "";
    }
  }

  lemma {:induction false} PiecesAlike(ts: seq<Lexer.Token>, touching: bool)
    requires AllShowable(ts)
    ensures Alike(Spelling.TokensOf(Pieces(ts, touching)), ts + [EndOfFile])
    decreases |ts|
  {
    if ts != [] {
      TokenShown(ts[0]);
      PiecesAlike(ts[1..], ts[0].Hash?);
    }
  }

  lemma {:induction false} ShowableJoin(a: seq<Lexer.Token>, b: seq<Lexer.Token>)
    requires AllShowable(a) && AllShowable(b)
    ensures AllShowable(a + b)
  {
    if a == [] {
      assert a + b == b;
    } else {
      assert (a + b)[1..] == a[1..] + b;
      assert |a| > 1 ==> (a + b)[1] == a[1];
      ShowableJoin(a[1..], b);
    }
  }

  lemma OneShowable(t: Lexer.Token)
    requires Showable(t) && !t.Hash?
    ensures AllShowable([t])
  {
    assert [t][1..] == [];
  }

  lemma PairShowable(t: Lexer.Token, u: Lexer.Token)
    requires Showable(t) && Showable(u) && !u.Hash? && (t.Hash? ==> u.Identifier?)
    ensures AllShowable([t, u])
  {
    assert [t, u][1..] == [u];
    OneShowable(u);
  }

  /** Names are lower-case words, as the lexer makes them, and numbers have 32 bits. */
  predicate Nameable(value: Value) {
    match value
    case Number(number) => number < 0x1_0000_0000
    case Name(symbol) => Lowered(symbol)
  }

  predicate AllNameable(os: seq<Operand>) {
    forall o | o in os :: Nameable(o.value)
  }

  predicate Writable(s: Statement) {
    && SayableStatement(s)
    && match s
       case Label(name) => Lowered(name)
       case Equ(name, v) => Lowered(name) && v < 0x1_0000_0000
       case Org(os) => AllNameable(os)
       case Data(os) => AllNameable(os)
       case Include(path) => '\n' !in path
       case Instruct(name, os) => Lowered(name) && AllNameable(os)
  }

  lemma InnerShowable(o: Operand)
    requires Nameable(o.value)
    ensures AllShowable(Inner(o))
  {
    if o.value.Name? && o.immediate {
      PairShowable(Hash, Identifier(o.value.symbol));
    } else {
      OneShowable(Inner(o)[0]);
    }
  }

  lemma RegistersLowered()
    ensures Lowered("x") && Lowered("y")
  {
  }

  lemma CoreShowable(o: Operand)
    requires Nameable(o.value)
    ensures AllShowable(Core(o)) && AllShowable(Outer(o))
  {
    InnerShowable(o);
    RegistersLowered();
    if Indexed(o) { PairShowable(Comma, Register(o.index)); }
    if o.indirect {
      OneShowable(RightParen);
      OneShowable(LeftParen);
      if o.index.IndexX? {
        PairShowable(Comma, Identifier("x"));
        ShowableJoin([Comma, Identifier("x")], [RightParen]);
        assert [Comma, Identifier("x")] + [RightParen] == [Comma, Identifier("x"), RightParen];
        ShowableJoin(Inner(o), [Comma, Identifier("x"), RightParen]);
        ShowableJoin([LeftParen], Inner(o) + [Comma, Identifier("x"), RightParen]);
      } else {
        ShowableJoin(Inner(o), [RightParen]);
        ShowableJoin([LeftParen], Inner(o) + [RightParen]);
      }
    }
  }

  lemma {:induction false} ListShowable(os: seq<Operand>)
    requires os != [] && AllNameable(os)
    ensures AllShowable(OperandList(os))
  {
    assert os[0] in os;
    CoreShowable(os[0]);
    if |os| == 1 {
      ShowableJoin(Core(os[0]), Outer(os[0]));
    } else {
      ListShowable(os[1..]);
      OneShowable(Comma);
      ShowableJoin([Comma], OperandList(os[1..]));
      ShowableJoin(Core(os[0]), [Comma] + OperandList(os[1..]));
    }
  }

  lemma LineShowable(first: Lexer.Token, os: seq<Operand>)
    requires Showable(first) && !first.Hash? && AllNameable(os)
    ensures AllShowable([first] + (Arguments(os) + [Newline]))
  {
    if os != [] { ListShowable(os); }
    OneShowable(Newline);
    OneShowable(first);
    ShowableJoin(Arguments(os), [Newline]);
    ShowableJoin([first], Arguments(os) + [Newline]);
  }

  lemma DirectivesLowered()
    ensures Lowered("equ") && Lowered("org") && Lowered("byte")
  {
  }

  lemma IncludeToken() returns (t: Lexer.Token)
    ensures t == Directive("include") && Showable(t)
  {
    AlreadyLower("include");
    t := Directive("include");
  }

  lemma AlreadyLower(name: string)
    requires IsWord(name) && forall k | 0 <= k < |name| :: LowerChar(name[k]) == name[k]
    ensures Lowered(name)
  {
  }

  lemma EquShowable(name: string, v: nat)
    requires Lowered(name) && v < 0x1_0000_0000
    ensures AllShowable(StatementTokens(Equ(name, v)))
  {
    var number := Lexer.Number("", v);
    DirectivesLowered();
    PairShowable(Directive("equ"), Identifier(name));
    PairShowable(Comma, number);
    OneShowable(Newline);
    ShowableJoin([Comma, number], [Newline]);
    ShowableJoin([Directive("equ"), Identifier(name)], [Comma, number] + [Newline]);
    assert [Directive("equ"), Identifier(name)] + ([Comma, number] + [Newline]) == StatementTokens(Equ(name, v));
  }

  lemma IncludeShowable(path: string)
    requires '\n' !in path
    ensures AllShowable(StatementTokens(Include(path)))
  {
    var t := IncludeToken();
    PairShowable(t, String(path));
    OneShowable(Newline);
    ShowableJoin([t, String(path)], [Newline]);
    assert [t, String(path)] + [Newline] == StatementTokens(Include(path));
  }

  lemma StatementShowable(s: Statement)
    requires Writable(s)
    ensures AllShowable(StatementTokens(s))
  {
    match s
    case Label(name) => PairShowable(Identifier(name), Colon);
    case Equ(name, v) => EquShowable(name, v);
    case Include(path) => IncludeShowable(path);
    case Org(os) =>
      DirectivesLowered();
      LineShowable(Directive("org"), os);
    case Data(os) =>
      DirectivesLowered();
      LineShowable(Directive("byte"), os);
    case Instruct(name, os) => LineShowable(Identifier(name), os);
  }

  function RowsOf(statements: seq<Statement>): seq<Row> {
    if statements == [] then [] else [Row(0, statements[0])] + RowsOf(statements[1..])
  }

  lemma {:induction false} RowsBack(statements: seq<Statement>)
    requires forall s | s in statements :: Writable(s)
    ensures Grammar.StatementsOf(RowsOf(statements)) == statements
    ensures forall row | row in RowsOf(statements) :: SayableStatement(row.statement)
    decreases |statements|
  {
    if statements != [] {
      assert statements[0] in statements;
      RowsBack(statements[1..]);
      assert statements == [statements[0]] + statements[1..];
    }
  }

  lemma {:induction false} ProgramShowable(statements: seq<Statement>) returns (body: seq<Lexer.Token>)
    requires forall s | s in statements :: Writable(s)
    ensures ProgramTokens(RowsOf(statements), 0) == body + [EndOfFile] && AllShowable(body)
    decreases |statements|
  {
    if statements == [] {
      body := [];
    } else {
      var s, rest := statements[0], statements[1..];
      assert s in statements;
      var more := ProgramShowable(rest);
      StatementShowable(s);
      ShowableJoin(StatementTokens(s), more);
      body := StatementTokens(s) + more;
      FirstRow(s, rest, more);
    }
  }

  lemma FirstRow(s: Statement, rest: seq<Statement>, more: seq<Lexer.Token>)
    requires ProgramTokens(RowsOf(rest), 0) == more + [EndOfFile]
    ensures ProgramTokens([Row(0, s)] + RowsOf(rest), 0) == StatementTokens(s) + more + [EndOfFile]
  {
    var rows := [Row(0, s)] + RowsOf(rest);
    assert rows[1..] == RowsOf(rest) && rows[0] == Row(0, s);
    assert Newlines(0) + (StatementTokens(s) + (more + [EndOfFile])) == StatementTokens(s) + more + [EndOfFile];
  }

  /** Every list of statements that the syntax can say has a source, which gives the statements back. */
  lemma EveryProgramHasSource(statements: seq<Statement>) returns (source: string)
    requires forall s | s in statements :: Writable(s)
    ensures IsSourceOf(source, statements)
  {
    var body := ProgramShowable(statements);
    var pieces, rows := Pieces(body, false), RowsOf(statements);
    RowsBack(statements);
    PiecesSpell(body, false);
    PiecesAlike(body, false);
    source := TextOf(pieces, "");
    assert "" + "" == "";
    assert Writes(source, pieces, "", "", rows, 0);
  }
}
