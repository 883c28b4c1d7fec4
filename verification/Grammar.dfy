/** What a list of tokens means: however the lines of a program are laid out, the parser reads that program. */
module Grammar {
  import opened Bits
  import opened Wrappers
  import opened Text
  import opened Isa
  import opened Ast
  import opened Lexer
  import opened Parser
  import opened RoundTrip
  import Assembler
  import Labels
  import Spelling

  // ---------------------------------------------------------------- literals

  /** Of a literal the parser sees the value and whether it starts with `#`. */
  function Shape(t: Lexer.Token): Lexer.Token {
    if t.Number? then Lexer.Number(if t.literal != "" && t.literal[0] == '#' then "#" else "", t.number) else t
  }

  predicate Alike(ts: seq<Lexer.Token>, us: seq<Lexer.Token>) {
    |ts| == |us| && forall k | 0 <= k < |ts| :: us[k] == Shape(ts[k])
  }

  lemma {:induction false} SameOperand(ts: seq<Lexer.Token>, us: seq<Lexer.Token>, i: nat)
    requires WellEnded(ts) && WellEnded(us) && Alike(ts, us) && i < |ts|
    ensures OperandAt(us, i) == OperandAt(ts, i)
    decreases |ts| - i
  {
    if ts[i].LeftParen? { SameOperand(ts, us, i + 1); }
  }

  lemma {:induction false} SameOperands(ts: seq<Lexer.Token>, us: seq<Lexer.Token>, i: nat, registers: bool)
    requires WellEnded(ts) && WellEnded(us) && Alike(ts, us) && i < |ts|
    ensures OperandsAt(us, i, registers) == OperandsAt(ts, i, registers)
    decreases |ts| - i
  {
    SameOperand(ts, us, i);
    if OperandAt(ts, i).Some? {
      var j := OperandAt(ts, i).value.1;
      if ts[j].Comma? { SameOperands(ts, us, j + 1, registers); }
    }
  }

  lemma SameStatement(ts: seq<Lexer.Token>, us: seq<Lexer.Token>, i: nat)
    requires WellEnded(ts) && WellEnded(us) && Alike(ts, us) && i < |ts| && (ts[i].Directive? || ts[i].Identifier?)
    ensures StatementAt(us, i) == StatementAt(ts, i)
  {
    if !EndsLine(ts[i + 1]) { SameOperands(ts, us, i + 1, ts[i].Identifier?); }
  }

  lemma {:induction false} SameLabels(ts: seq<Lexer.Token>, us: seq<Lexer.Token>, i: nat)
    requires WellEnded(ts) && WellEnded(us) && Alike(ts, us) && i < |ts|
    ensures LabelsAt(us, i) == LabelsAt(ts, i)
    decreases |ts| - i
  {
    if ts[i].Identifier? && ts[i + 1].Colon? { SameLabels(ts, us, i + 2); }
  }

  lemma {:induction false} SameSkip(ts: seq<Lexer.Token>, us: seq<Lexer.Token>, i: nat)
    requires WellEnded(ts) && WellEnded(us) && Alike(ts, us) && i < |ts|
    ensures SkipNewlines(us, i) == SkipNewlines(ts, i)
    decreases |ts| - i
  {
    if ts[i].Newline? { SameSkip(ts, us, i + 1); }
  }

  /** What a program starts with reads the same. */
  lemma SameStart(ts: seq<Lexer.Token>, us: seq<Lexer.Token>, i: nat) returns (start: nat, j: nat)
    requires WellEnded(ts) && WellEnded(us) && Alike(ts, us) && i < |ts|
    ensures start == SkipNewlines(ts, i) == SkipNewlines(us, i)
    ensures j == LabelsAt(ts, start).1 && LabelsAt(us, start) == LabelsAt(ts, start) && i <= start <= j < |ts|
    ensures LabelsAt(ts, start).0 != [] ==> i < j
    ensures ts[j].Directive? || ts[j].Identifier? ==> StatementAt(us, j) == StatementAt(ts, j)
  {
    SameSkip(ts, us, i);
    start := SkipNewlines(ts, i);
    SameLabels(ts, us, start);
    j := LabelsAt(ts, start).1;
    if ts[j].Directive? || ts[j].Identifier? { SameStatement(ts, us, j); }
  }

  /** A line of labels only. */
  lemma SameAfterLabels(ts: seq<Lexer.Token>, us: seq<Lexer.Token>, i: nat, start: nat, j: nat)
    requires WellEnded(ts) && WellEnded(us) && Alike(ts, us) && i <= start <= j < |ts| - 1
    requires start == SkipNewlines(ts, i) == SkipNewlines(us, i) && !ts[start].EndOfFile?
    requires j == LabelsAt(ts, start).1 && LabelsAt(us, start) == LabelsAt(ts, start) && ts[j].Newline?
    requires ProgramFrom(us, j + 1) == ProgramFrom(ts, j + 1)
    ensures ProgramFrom(us, i) == ProgramFrom(ts, i)
  {
    assert us[start] == Shape(ts[start]) && us[j] == Shape(ts[j]);
  }

  /** Labels before something that starts no statement. */
  lemma SameBeforeOther(ts: seq<Lexer.Token>, us: seq<Lexer.Token>, i: nat, start: nat, j: nat)
    requires WellEnded(ts) && WellEnded(us) && Alike(ts, us) && i <= start <= j < |ts|
    requires start == SkipNewlines(ts, i) == SkipNewlines(us, i) && !ts[start].EndOfFile?
    requires j == LabelsAt(ts, start).1 && LabelsAt(us, start) == LabelsAt(ts, start)
    requires !ts[j].Newline? && !ts[j].Directive? && !ts[j].Identifier?
    requires LabelsAt(ts, start).0 != [] ==> ProgramFrom(us, j) == ProgramFrom(ts, j)
    ensures ProgramFrom(us, i) == ProgramFrom(ts, i)
  {
    assert us[start] == Shape(ts[start]) && us[j] == Shape(ts[j]);
  }

  /** A program that starts with a statement. */
  lemma ProgramOfStatement(ts: seq<Lexer.Token>, i: nat, start: nat, labels: seq<Statement>, j: nat, s: Statement, k: nat)
    requires WellEnded(ts) && i <= start <= j < |ts| && k < |ts|
    requires start == SkipNewlines(ts, i) && !ts[start].EndOfFile? && LabelsAt(ts, start) == (labels, j)
    requires (ts[j].Directive? || ts[j].Identifier?) && StatementAt(ts, j) == Some((s, k))
    ensures ProgramFrom(ts, i) == if ts[k].Newline? then Prefixed(labels + [s], ProgramFrom(ts, k + 1))
                                  else if ts[k].EndOfFile? then Some(labels + [s])
                                  else None
  {
  }

  lemma SameAfterStatement(ts: seq<Lexer.Token>, us: seq<Lexer.Token>, i: nat, start: nat, j: nat, s: Statement, k: nat)
    requires WellEnded(ts) && WellEnded(us) && Alike(ts, us) && i <= start <= j < |ts| && k < |ts|
    requires start == SkipNewlines(ts, i) == SkipNewlines(us, i) && !ts[start].EndOfFile?
    requires j == LabelsAt(ts, start).1 && LabelsAt(us, start) == LabelsAt(ts, start) && (ts[j].Directive? || ts[j].Identifier?)
    requires StatementAt(us, j) == StatementAt(ts, j) == Some((s, k))
    requires ts[k].Newline? ==> ProgramFrom(us, k + 1) == ProgramFrom(ts, k + 1)
    ensures ProgramFrom(us, i) == ProgramFrom(ts, i)
  {
    assert us[start] == Shape(ts[start]) && us[j] == Shape(ts[j]) && us[k] == Shape(ts[k]);
    var labels := LabelsAt(ts, start).0;
    ProgramOfStatement(ts, i, start, labels, j, s, k);
    ProgramOfStatement(us, i, start, labels, j, s, k);
  }

  lemma SameFailure(ts: seq<Lexer.Token>, us: seq<Lexer.Token>, i: nat, start: nat, j: nat)
    requires WellEnded(ts) && WellEnded(us) && Alike(ts, us) && i <= start <= j < |ts|
    requires start == SkipNewlines(ts, i) == SkipNewlines(us, i) && !ts[start].EndOfFile?
    requires j == LabelsAt(ts, start).1 && LabelsAt(us, start) == LabelsAt(ts, start) && (ts[j].Directive? || ts[j].Identifier?)
    requires StatementAt(us, j) == StatementAt(ts, j) == None
    ensures ProgramFrom(us, i) == ProgramFrom(ts, i)
  {
    assert us[start] == Shape(ts[start]) && us[j] == Shape(ts[j]);
  }

  /** Spelling a literal otherwise changes nothing. */
  lemma {:induction false} SameProgram(ts: seq<Lexer.Token>, us: seq<Lexer.Token>, i: nat)
    requires WellEnded(ts) && WellEnded(us) && Alike(ts, us) && i < |ts|
    ensures ProgramFrom(us, i) == ProgramFrom(ts, i)
    decreases |ts| - i
  {
    var start, j := SameStart(ts, us, i);
    if ts[start].EndOfFile? {
      assert us[start] == Shape(ts[start]);
    } else if ts[j].Newline? {
      SameProgram(ts, us, j + 1);
      SameAfterLabels(ts, us, i, start, j);
    } else if ts[j].Directive? || ts[j].Identifier? {
      match StatementAt(ts, j)
      case None => SameFailure(ts, us, i, start, j);
      case Some((s, k)) =>
        if ts[k].Newline? { SameProgram(ts, us, k + 1); }
        SameAfterStatement(ts, us, i, start, j, s, k);
    } else {
      if LabelsAt(ts, start).0 != [] { SameProgram(ts, us, j); }
      SameBeforeOther(ts, us, i, start, j);
    }
  }

  // ---------------------------------------------------------------- how a statement is written

  function Register(index: Index): Lexer.Token {
    Identifier(if index.IndexX? then "x" else "y")
  }

  /** An operand up to a register that belongs to the instruction. */
  function Inner(o: Operand): seq<Lexer.Token> {
    if o.value.Number? then [Lexer.Number(if o.immediate then "#" else "", o.value.number)]
    else if o.immediate then [Hash, Identifier(o.value.symbol)]
    else [Identifier(o.value.symbol)]
  }

  function Core(o: Operand): seq<Lexer.Token> {
    if !o.indirect then Inner(o)
    else if o.index.IndexX? then [LeftParen] + (Inner(o) + [Comma, Identifier("x"), RightParen])
    else [LeftParen] + (Inner(o) + [RightParen])
  }

  predicate Indexed(o: Operand) {
    o.index.IndexY? || (o.index.IndexX? && !o.indirect)
  }

  function Outer(o: Operand): seq<Lexer.Token> {
    if Indexed(o) then [Comma, Register(o.index)] else []
  }

  function OperandList(os: seq<Operand>): seq<Lexer.Token>
    requires os != []
  {
    if |os| == 1 then Core(os[0]) + Outer(os[0]) else Core(os[0]) + ([Comma] + OperandList(os[1..]))
  }

  predicate IsRegister(t: Lexer.Token) {
    IsX(t) || IsY(t)
  }

  /** What the syntax can say: no immediate in parentheses, an index register only behind the last operand of an
      instruction, and no operand that reads as that register. */
  predicate Sayable(os: seq<Operand>, registers: bool) {
    && os != []
    && (forall k | 0 <= k < |os| :: !(os[k].immediate && os[k].indirect))
    && (forall k | 0 <= k < |os| :: Indexed(os[k]) ==> registers && k == |os| - 1)
    && (registers ==> forall k | 0 < k < |os| :: !IsRegister(Core(os[k])[0]))
  }

  predicate SayableStatement(s: Statement) {
    match s
    case Org(os) => os != [] ==> Sayable(os, false)
    case Data(os) => os != [] ==> Sayable(os, false)
    case Instruct(_, os) => os != [] ==> Sayable(os, true)
    case _ => true
  }

  function Arguments(os: seq<Operand>): seq<Lexer.Token> {
    if os == [] then [] else OperandList(os)
  }

  /** A label may stand before its statement; every other statement ends its line. */
  function StatementTokens(s: Statement): seq<Lexer.Token> {
    match s
    case Label(name) => [Identifier(name), Colon]
    case Equ(name, v) => [Directive("equ"), Identifier(name), Comma, Lexer.Number("", v), Newline]
    case Include(path) => [Directive("include"), String(path), Newline]
    case Org(os) => [Directive("org")] + (Arguments(os) + [Newline])
    case Data(os) => [Directive("byte")] + (Arguments(os) + [Newline])
    case Instruct(name, os) => [Identifier(name)] + (Arguments(os) + [Newline])
  }

  /** A statement behind some empty lines. */
  datatype Row = Row(empty: nat, statement: Statement)

  function Newlines(n: nat): seq<Lexer.Token> {
    if n == 0 then [] else [Newline] + Newlines(n - 1)
  }

  function ProgramTokens(rows: seq<Row>, empty: nat): (tokens: seq<Lexer.Token>)
    ensures tokens != []
  {
    if rows == [] then Newlines(empty) + [EndOfFile]
    else Newlines(rows[0].empty) + (StatementTokens(rows[0].statement) + ProgramTokens(rows[1..], empty))
  }

  function StatementsOf(rows: seq<Row>): seq<Statement> {
    if rows == [] then [] else [rows[0].statement] + StatementsOf(rows[1..])
  }

  // ---------------------------------------------------------------- parsing it

  function Unindexed(o: Operand): Operand {
    if Indexed(o) then o.(index := NoIndex) else o
  }

  lemma ParseInner(ts: seq<Lexer.Token>, i: nat, o: Operand)
    requires WellEnded(ts) && StandsAt(ts, i, Inner(o)) && i + |Inner(o)| < |ts|
    ensures OperandAt(ts, i) == Some((Operand(o.value, o.immediate, false, NoIndex), i + |Inner(o)|))
  {
    TokensStand(ts, i, Inner(o));
  }

  lemma ParseCore(ts: seq<Lexer.Token>, i: nat, o: Operand)
    requires WellEnded(ts) && !(o.immediate && o.indirect) && StandsAt(ts, i, Core(o)) && i + |Core(o)| < |ts|
    ensures OperandAt(ts, i) == Some((Unindexed(o), i + |Core(o)|))
  {
    if !o.indirect {
      ParseInner(ts, i, o);
    } else {
      var closing := if o.index.IndexX? then [Comma, Identifier("x"), RightParen] else [RightParen];
      StandsSplit(ts, i, [LeftParen], Inner(o) + closing);
      StandsSplit(ts, i + 1, Inner(o), closing);
      TokensStand(ts, i, [LeftParen]);
      TokensStand(ts, i + 1 + |Inner(o)|, closing);
      ParseInner(ts, i + 1, o);
    }
  }

  lemma FirstToken(os: seq<Operand>)
    requires os != []
    ensures OperandList(os) != [] && OperandList(os)[0] == Core(os[0])[0]
    ensures !OperandList(os)[0].Colon? && !EndsLine(OperandList(os)[0])
  {
  }

  /** The last operand, with its register. */
  lemma ParseLast(ts: seq<Lexer.Token>, i: nat, o: Operand, registers: bool)
    requires WellEnded(ts) && Sayable([o], registers) && StandsAt(ts, i, Core(o) + Outer(o))
    requires i + |Core(o) + Outer(o)| < |ts| && !ts[i + |Core(o) + Outer(o)|].Comma?
    ensures OperandsAt(ts, i, registers) == Some(([o], i + |Core(o) + Outer(o)|))
  {
    assert [o][0] == o;
    StandsSplit(ts, i, Core(o), Outer(o));
    TokensStand(ts, i + |Core(o)|, Outer(o));
    ParseCore(ts, i, o);
  }

  lemma RestSayable(os: seq<Operand>, registers: bool)
    requires Sayable(os, registers) && |os| > 1
    ensures Sayable(os[1..], registers) && !(os[0].immediate && os[0].indirect) && !Indexed(os[0])
    ensures registers ==> !IsRegister(Core(os[1])[0])
  {
  }

  /** An operand before others. */
  lemma ParseNext(ts: seq<Lexer.Token>, i: nat, o: Operand, j: nat, rest: seq<Operand>, end: nat, registers: bool)
    requires WellEnded(ts) && i + 1 < |ts| && j + 1 < |ts| && OperandAt(ts, i) == Some((o, j)) && ts[j].Comma?
    requires registers ==> !IsRegister(ts[j + 1])
    requires OperandsAt(ts, j + 1, registers) == Some((rest, end))
    ensures OperandsAt(ts, i, registers) == Some(([o] + rest, end))
  {
  }

  /** Up to the comma. */
  lemma ParseFirst(ts: seq<Lexer.Token>, i: nat, os: seq<Operand>, registers: bool, more: seq<Lexer.Token>) returns (j: nat)
    requires WellEnded(ts) && Sayable(os, registers) && |os| > 1 && more == OperandList(os[1..])
    requires StandsAt(ts, i, Core(os[0]) + ([Comma] + more)) && i + |Core(os[0]) + ([Comma] + more)| < |ts|
    ensures j + 1 < |ts| && i + 1 < |ts| && OperandAt(ts, i) == Some((os[0], j)) && ts[j].Comma? && StandsAt(ts, j + 1, more)
    ensures j == i + |Core(os[0])| && (registers ==> !IsRegister(ts[j + 1]))
  {
    StandsSplit(ts, i, Core(os[0]), [Comma] + more);
    j := i + |Core(os[0])|;
    StandsSplit(ts, j, [Comma], more);
    TokensStand(ts, j, [Comma]);
    RestSayable(os, registers);
    ParseCore(ts, i, os[0]);
    FirstToken(os[1..]);
    assert ts[j + 1 + 0] == more[0];
  }

  lemma {:induction false} ParseOperands(ts: seq<Lexer.Token>, i: nat, os: seq<Operand>, registers: bool, tokens: seq<Lexer.Token>)
    returns (end: nat)
    requires WellEnded(ts) && Sayable(os, registers) && tokens == OperandList(os)
    requires StandsAt(ts, i, tokens) && i + |tokens| < |ts| && !ts[i + |tokens|].Comma?
    ensures end == i + |tokens| && OperandsAt(ts, i, registers) == Some((os, end))
    decreases |os|
  {
    var o, rest := os[0], os[1..];
    assert os == [o] + rest;
    if |os| == 1 {
      assert os == [o];
      ParseLast(ts, i, o, registers);
      end := i + |tokens|;
    } else {
      var more := OperandList(rest);
      var j := ParseFirst(ts, i, os, registers, more);
      RestSayable(os, registers);
      end := ParseOperands(ts, j + 1, rest, registers, more);
      ParseNext(ts, i, o, j, rest, end, registers);
    }
  }

  /** The arguments of a statement and the end of its line. */
  lemma ParseArguments(ts: seq<Lexer.Token>, i: nat, os: seq<Operand>, registers: bool) returns (end: nat)
    requires WellEnded(ts) && (os != [] ==> Sayable(os, registers)) && StandsAt(ts, i, Arguments(os) + [Newline])
    ensures end == i + |Arguments(os)| && end < |ts| && ts[end].Newline? && i < |ts| && !ts[i].Colon?
    ensures if os == [] then end == i else !EndsLine(ts[i]) && OperandsAt(ts, i, registers) == Some((os, end))
  {
    StandsSplit(ts, i, Arguments(os), [Newline]);
    end := i + |Arguments(os)|;
    TokensStand(ts, end, [Newline]);
    if os != [] {
      FirstToken(os);
      assert ts[i + 0] == Arguments(os)[0];
      var e := ParseOperands(ts, i, os, registers, Arguments(os));
    }
  }

  /** The program from `i` on is the statement and the program from `end` on. */
  ghost predicate Continues(ts: seq<Lexer.Token>, i: nat, s: Statement, end: nat) {
    WellEnded(ts) && i < |ts| && end < |ts| && ProgramFrom(ts, i) == Prefixed([s], ProgramFrom(ts, end))
  }

  lemma ParseEqu(ts: seq<Lexer.Token>, i: nat, name: string, v: nat) returns (end: nat)
    requires WellEnded(ts) && StandsAt(ts, i, [Directive("equ"), Identifier(name), Comma, Lexer.Number("", v), Newline])
    ensures end == i + 5 && Continues(ts, i, Equ(name, v), end)
  {
    TokensStand(ts, i, [Directive("equ"), Identifier(name), Comma, Lexer.Number("", v), Newline]);
    ParseStep(ts, i, Equ(name, v), i + 4);
    end := i + 5;
  }

  lemma ParseInclude(ts: seq<Lexer.Token>, i: nat, path: string) returns (end: nat)
    requires WellEnded(ts) && StandsAt(ts, i, [Directive("include"), String(path), Newline])
    ensures end == i + 3 && Continues(ts, i, Include(path), end)
  {
    TokensStand(ts, i, [Directive("include"), String(path), Newline]);
    ParseStep(ts, i, Include(path), i + 2);
    end := i + 3;
  }

  lemma ParseInstruction(ts: seq<Lexer.Token>, i: nat, name: string, os: seq<Operand>) returns (end: nat)
    requires WellEnded(ts) && (os != [] ==> Sayable(os, true))
    requires StandsAt(ts, i, [Identifier(name)] + (Arguments(os) + [Newline]))
    ensures end == i + 2 + |Arguments(os)| && Continues(ts, i, Instruct(name, os), end)
  {
    StandsSplit(ts, i, [Identifier(name)], Arguments(os) + [Newline]);
    TokensStand(ts, i, [Identifier(name)]);
    var stop := ParseArguments(ts, i + 1, os, true);
    ParseStep(ts, i, Instruct(name, os), stop);
    end := stop + 1;
  }

  lemma ParseDirective(ts: seq<Lexer.Token>, i: nat, org: bool, name: string, os: seq<Operand>) returns (end: nat)
    requires WellEnded(ts) && (os != [] ==> Sayable(os, false)) && name == (if org then "org" else "byte")
    requires StandsAt(ts, i, [Directive(name)] + (Arguments(os) + [Newline]))
    ensures end == i + 2 + |Arguments(os)| && Continues(ts, i, if org then Org(os) else Data(os), end)
  {
    StandsSplit(ts, i, [Directive(name)], Arguments(os) + [Newline]);
    TokensStand(ts, i, [Directive(name)]);
    var stop := ParseArguments(ts, i + 1, os, false);
    ParseStep(ts, i, if org then Org(os) else Data(os), stop);
    end := stop + 1;
  }

  lemma SkipOne(ts: seq<Lexer.Token>, i: nat)
    requires WellEnded(ts) && i + 1 < |ts| && ts[i].Newline?
    ensures ProgramFrom(ts, i) == ProgramFrom(ts, i + 1)
  {
    assert SkipNewlines(ts, i) == SkipNewlines(ts, i + 1);
  }

  /** Empty lines are skipped. */
  lemma {:induction false} SkipEmpty(ts: seq<Lexer.Token>, i: nat, n: nat)
    requires WellEnded(ts) && StandsAt(ts, i, Newlines(n)) && i + |Newlines(n)| < |ts|
    ensures ProgramFrom(ts, i) == ProgramFrom(ts, i + |Newlines(n)|)
    decreases n
  {
    if n > 0 {
      StandsSplit(ts, i, [Newline], Newlines(n - 1));
      TokensStand(ts, i, [Newline]);
      SkipOne(ts, i);
      SkipEmpty(ts, i + 1, n - 1);
    }
  }

  lemma PrefixedTwice(a: seq<Statement>, b: seq<Statement>, rest: Option<seq<Statement>>)
    ensures Prefixed(a, Prefixed(b, rest)) == Prefixed(a + b, rest)
  {
    if rest.Some? { assert a + (b + rest.value) == (a + b) + rest.value; }
  }

  /** A label, on a line of its own or before a statement. */
  lemma ParseLabel(ts: seq<Lexer.Token>, i: nat, name: string) returns (end: nat)
    requires WellEnded(ts) && StandsAt(ts, i, [Identifier(name), Colon])
    ensures end == i + 2 && Continues(ts, i, Label(name), end)
  {
    TokensStand(ts, i, [Identifier(name), Colon]);
    end := i + 2;
    var (labels, j) := LabelsAt(ts, i + 2);
    assert LabelsAt(ts, i) == ([Label(name)] + labels, j);
    if ts[i + 2].Newline? {
      assert SkipNewlines(ts, i + 2) == SkipNewlines(ts, i + 3);
      assert [Label(name)] + [] == [Label(name)];
    } else {
      LabelsBefore(ts, i, name, labels, j);
    }
  }

  lemma LabelsBefore(ts: seq<Lexer.Token>, i: nat, name: string, labels: seq<Statement>, j: nat)
    requires WellEnded(ts) && i + 2 < |ts| && ts[i].Identifier? && !ts[i + 2].Newline?
    requires LabelsAt(ts, i + 2) == (labels, j) && LabelsAt(ts, i) == ([Label(name)] + labels, j)
    ensures ProgramFrom(ts, i) == Prefixed([Label(name)], ProgramFrom(ts, i + 2))
  {
    var first := [Label(name)];
    if ts[j].Newline? {
      PrefixedTwice(first, labels, ProgramFrom(ts, j + 1));
    } else if ts[j].Directive? || ts[j].Identifier? {
      match StatementAt(ts, j)
      case None =>
      case Some((s, k)) =>
        ProgramOfStatement(ts, i, i, first + labels, j, s, k);
        ProgramOfStatement(ts, i + 2, i + 2, labels, j, s, k);
        assert first + (labels + [s]) == (first + labels) + [s];
        if ts[k].Newline? { PrefixedTwice(first, labels + [s], ProgramFrom(ts, k + 1)); }
    } else if labels != [] {
      PrefixedTwice(first, labels, ProgramFrom(ts, j));
    } else {
      assert first + labels == first;
    }
  }

  lemma ParseRow(ts: seq<Lexer.Token>, i: nat, row: Row, more: seq<Lexer.Token>) returns (end: nat)
    requires WellEnded(ts) && SayableStatement(row.statement) && more != []
    requires StandsAt(ts, i, Newlines(row.empty) + (StatementTokens(row.statement) + more))
    ensures end == i + |Newlines(row.empty)| + |StatementTokens(row.statement)| && end < |ts| && StandsAt(ts, end, more)
    ensures Continues(ts, i, row.statement, end)
  {
    var s := row.statement;
    var tokens := StatementTokens(s);
    StandsSplit(ts, i, Newlines(row.empty), tokens + more);
    var j := i + |Newlines(row.empty)|;
    StandsSplit(ts, j, tokens, more);
    assert ts[j + |tokens| + 0] == more[0];
    SkipEmpty(ts, i, row.empty);
    end := ParseStatement(ts, j, s);
  }

  /** One statement, of any kind. */
  lemma ParseStatement(ts: seq<Lexer.Token>, i: nat, s: Statement) returns (end: nat)
    requires WellEnded(ts) && SayableStatement(s) && StandsAt(ts, i, StatementTokens(s)) && i + |StatementTokens(s)| < |ts|
    ensures end == i + |StatementTokens(s)| && Continues(ts, i, s, end)
  {
    match s
    case Label(name) => end := ParseLabel(ts, i, name);
    case Equ(name, v) => end := ParseEqu(ts, i, name, v);
    case Include(path) => end := ParseInclude(ts, i, path);
    case Org(os) => end := ParseDirective(ts, i, true, "org", os);
    case Data(os) => end := ParseDirective(ts, i, false, "byte", os);
    case Instruct(name, os) => end := ParseInstruction(ts, i, name, os);
  }

  /** The lines of a program parse to its statements. */
  lemma {:induction false} ParseRows(ts: seq<Lexer.Token>, i: nat, rows: seq<Row>, empty: nat)
    requires WellEnded(ts) && forall row | row in rows :: SayableStatement(row.statement)
    requires StandsAt(ts, i, ProgramTokens(rows, empty)) && i + |ProgramTokens(rows, empty)| == |ts|
    ensures ProgramFrom(ts, i) == Some(StatementsOf(rows))
    decreases |rows|
  {
    if rows == [] {
      StandsSplit(ts, i, Newlines(empty), [EndOfFile]);
      SkipEmpty(ts, i, empty);
      TokensStand(ts, i + |Newlines(empty)|, [EndOfFile]);
    } else {
      var rest := rows[1..];
      assert rows[0] in rows && forall row | row in rest :: row in rows;
      var end := ParseRow(ts, i, rows[0], ProgramTokens(rest, empty));
      ParseRows(ts, end, rest, empty);
    }
  }
}
