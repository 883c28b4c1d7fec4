/** From tokens to statements. Source spans are not kept; every error is the absence of a result. */
module Parser {
  import opened Wrappers
  import opened Ast
  import Lexer

  type Token = Lexer.Token

  /** What the lexer hands over: tokens up to an end-of-file token. */
  predicate WellEnded(ts: seq<Token>) {
    ts != [] && ts[|ts| - 1].EndOfFile?
  }

  predicate IsX(t: Token) {
    t.Identifier? && (t.name == "X" || t.name == "x")
  }

  predicate IsY(t: Token) {
    t.Identifier? && (t.name == "Y" || t.name == "y")
  }

  function Bare(value: Value): Operand {
    Operand(value, false, false, NoIndex)
  }

  /** The operand at `i` and the position behind it. */
  function OperandAt(ts: seq<Token>, i: nat): (r: Option<(Operand, nat)>)
    requires WellEnded(ts) && i < |ts|
    ensures r.Some? ==> i < r.value.1 < |ts|
    decreases |ts| - i
  {
    match ts[i]
    case Hash =>
      if ts[i + 1].Identifier? then Some((Bare(Name(ts[i + 1].name)).(immediate := true), i + 2)) else None
    case LeftParen =>
      var inner := OperandAt(ts, i + 1);
      if inner.None? || inner.value.0.immediate then None
      else
        var j := inner.value.1;
        var operand := inner.value.0.(indirect := true);
        if ts[j].Comma? && !IsX(ts[j + 1]) then None
        else
          var close := if ts[j].Comma? then j + 2 else j;
          if !ts[close].RightParen? then None
          else Some((if ts[j].Comma? then operand.(index := IndexX) else operand, close + 1))
    case Number(literal, number) =>
      Some((Bare(Value.Number(number)).(immediate := literal != "" && literal[0] == '#'), i + 1))
    case Identifier(name) => Some((Bare(Name(name)), i + 1))
    case _ => None
  }

  /** Comma-separated operands; in an instruction a final `,X` or `,Y` belongs to the operand before it. */
  function OperandsAt(ts: seq<Token>, i: nat, registers: bool): (r: Option<(seq<Operand>, nat)>)
    requires WellEnded(ts) && i < |ts|
    ensures r.Some? ==> i < r.value.1 < |ts| && r.value.0 != []
    decreases |ts| - i
  {
    var first := OperandAt(ts, i);
    if first.None? then None
    else
      var (operand, j) := first.value;
      if !ts[j].Comma? then Some(([operand], j))
      else if registers && IsX(ts[j + 1]) then Some(([operand.(index := IndexX)], j + 2))
      else if registers && IsY(ts[j + 1]) then Some(([operand.(index := IndexY)], j + 2))
      else
        var rest := OperandsAt(ts, j + 1, registers);
        if rest.None? then None else Some(([operand] + rest.value.0, rest.value.1))
  }

  predicate EndsLine(t: Token) {
    t.Newline? || t.EndOfFile?
  }

  function InstructionAt(ts: seq<Token>, i: nat): (r: Option<(Statement, nat)>)
    requires WellEnded(ts) && i < |ts| && ts[i].Identifier?
    ensures r.Some? ==> i < r.value.1 < |ts|
  {
    if EndsLine(ts[i + 1]) then Some((Instruct(ts[i].name, []), i + 1))
    else
      var operands := OperandsAt(ts, i + 1, true);
      if operands.None? then None else Some((Instruct(ts[i].name, operands.value.0), operands.value.1))
  }

  function EquAt(ts: seq<Token>, i: nat): (r: Option<(Statement, nat)>)
    requires WellEnded(ts) && i < |ts| && ts[i].Directive?
    ensures r.Some? ==> i < r.value.1 < |ts|
  {
    if ts[i + 1].Identifier? && ts[i + 2].Comma? && ts[i + 3].Number?
    then Some((Equ(ts[i + 1].name, ts[i + 3].number), i + 4))
    else None
  }

  function DirectiveAt(ts: seq<Token>, i: nat): (r: Option<(Statement, nat)>)
    requires WellEnded(ts) && i < |ts| && ts[i].Directive?
    ensures r.Some? ==> i < r.value.1 < |ts|
  {
    var name := ts[i].name;
    if name == "equ" then EquAt(ts, i)
    else if name == "include" then
      if ts[i + 1].String? then Some((Include(ts[i + 1].content), i + 2)) else None
    else if name != "org" && name != "byte" then None
    else if EndsLine(ts[i + 1]) then Some((if name == "org" then Org([]) else Data([]), i + 1))
    else
      var operands := OperandsAt(ts, i + 1, false);
      if operands.None? then None
      else Some((if name == "org" then Org(operands.value.0) else Data(operands.value.0), operands.value.1))
  }

  function SkipNewlines(ts: seq<Token>, i: nat): (j: nat)
    requires WellEnded(ts) && i < |ts|
    ensures i <= j < |ts|
    decreases |ts| - i
  {
    if ts[i].Newline? then SkipNewlines(ts, i + 1) else i
  }

  /** The labels a line starts with. */
  function LabelsAt(ts: seq<Token>, i: nat): (r: (seq<Statement>, nat))
    requires WellEnded(ts) && i < |ts|
    ensures i <= r.1 < |ts| && (r.0 != [] ==> i < r.1)
    decreases |ts| - i
  {
    if ts[i].Identifier? && ts[i + 1].Colon? then
      var rest := LabelsAt(ts, i + 2);
      ([Label(ts[i].name)] + rest.0, rest.1)
    else ([], i)
  }

  function StatementAt(ts: seq<Token>, i: nat): (r: Option<(Statement, nat)>)
    requires WellEnded(ts) && i < |ts| && (ts[i].Directive? || ts[i].Identifier?)
    ensures r.Some? ==> i < r.value.1 < |ts|
  {
    if ts[i].Directive? then DirectiveAt(ts, i) else InstructionAt(ts, i)
  }

  function Prefixed(before: seq<Statement>, rest: Option<seq<Statement>>): Option<seq<Statement>> {
    if rest.None? then None else Some(before + rest.value)
  }

  /** The statements from `i` on. */
  function ProgramFrom(ts: seq<Token>, i: nat): Option<seq<Statement>>
    requires WellEnded(ts) && i < |ts|
    decreases |ts| - i
  {
    var start := SkipNewlines(ts, i);
    if ts[start].EndOfFile? then Some([])
    else
      var (labels, j) := LabelsAt(ts, start);
      if ts[j].Newline? then Prefixed(labels, ProgramFrom(ts, j + 1))
      else if ts[j].Directive? || ts[j].Identifier? then
        var statement := StatementAt(ts, j);
        if statement.None? then None
        else
          var k := statement.value.1;
          if ts[k].Newline? then Prefixed(labels + [statement.value.0], ProgramFrom(ts, k + 1))
          else if ts[k].EndOfFile? then Some(labels + [statement.value.0])
          else None
      else if labels != [] then Prefixed(labels, ProgramFrom(ts, j))
      else None
  }

  class Parsing {
    const tokens: seq<Token>
    var index: nat

    ghost predicate Valid()
      reads this
    {
      WellEnded(tokens) && index < |tokens|
    }

    constructor (tokens: seq<Token>)
      requires WellEnded(tokens)
      ensures Valid() && this.tokens == tokens && index == 0
    {
      this.tokens := tokens;
      index := 0;
    }

    function Peek(): Token
      requires Valid()
      reads this
    {
      tokens[index]
    }

    function PeekNext(): Token
      requires Valid()
      reads this
    {
      if index + 1 >= |tokens| then tokens[|tokens| - 1] else tokens[index + 1]
    }

    method ConsumeNewlines()
      requires Valid()
      modifies this
      ensures Valid() && index == SkipNewlines(tokens, old(index))
    {
      while Peek().Newline?
        invariant Valid() && SkipNewlines(tokens, index) == SkipNewlines(tokens, old(index))
        decreases |tokens| - index
      {
        index := index + 1;
      }
    }

    method ParseOperand() returns (r: Option<Operand>)
      requires Valid()
      modifies this
      ensures Valid()
      ensures var spec := OperandAt(tokens, old(index));
              if spec.None? then r.None? else r == Some(spec.value.0) && index == spec.value.1
      decreases |tokens| - index
    {
      var token := Peek();
      match token {
        case Hash =>
          index := index + 1;
          if !Peek().Identifier? {
            return None;
          }
          r := Some(Operand(Name(Peek().name), true, false, NoIndex));
          index := index + 1;
        case LeftParen =>
          index := index + 1;
          r := ParseOperand();
          if r.None? || r.value.immediate {
            return None;
          }
          r := Some(r.value.(indirect := true));
          if Peek().Comma? {
            index := index + 1;
            if !IsX(Peek()) {
              return None;
            }
            r := Some(r.value.(index := IndexX));
            index := index + 1;
          }
          if !Peek().RightParen? {
            return None;
          }
          index := index + 1;
        case Number(literal, number) =>
          index := index + 1;
          r := Some(Operand(Value.Number(number), literal != "" && literal[0] == '#', false, NoIndex));
        case Identifier(name) =>
          index := index + 1;
          r := Some(Operand(Name(name), false, false, NoIndex));
        case _ =>
          r := None;
      }
    }

    method ParseOperands(registers: bool) returns (r: Option<seq<Operand>>)
      requires Valid()
      modifies this
      ensures Valid()
      ensures var spec := OperandsAt(tokens, old(index), registers);
              if spec.None? then r.None? else r == Some(spec.value.0) && index == spec.value.1
    {
      var operands: seq<Operand> := [];
      SameOperandsStart(OperandsAt(tokens, index, registers));
      while true
        invariant Valid()
        invariant SameOperands(OperandsAt(tokens, old(index), registers), operands, OperandsAt(tokens, index, registers))
        decreases |tokens| - index
      {
        ghost var rest := OperandsAt(tokens, index, registers);
        var operand := ParseOperand();
        if operand.None? {
          return None;
        }
        if !Peek().Comma? {
          return Some(operands + [operand.value]);
        }
        index := index + 1;
        if registers && IsX(Peek()) {
          index := index + 1;
          return Some(operands + [operand.value.(index := IndexX)]);
        }
        if registers && IsY(Peek()) {
          index := index + 1;
          return Some(operands + [operand.value.(index := IndexY)]);
        }
        SameOperandsStep(OperandsAt(tokens, old(index), registers), operands, rest, operand.value,
                         OperandsAt(tokens, index, registers));
        operands := operands + [operand.value];
      }
    }

    method ParseInstruction() returns (r: Option<Statement>)
      requires Valid() && tokens[index].Identifier?
      modifies this
      ensures Valid()
      ensures var spec := InstructionAt(tokens, old(index));
              if spec.None? then r.None? else r == Some(spec.value.0) && index == spec.value.1
    {
      var mnemonic := Peek().name;
      index := index + 1;
      if EndsLine(Peek()) {
        return Some(Instruct(mnemonic, []));
      }
      var operands := ParseOperands(true);
      if operands.None? {
        return None;
      }
      r := Some(Instruct(mnemonic, operands.value));
    }

    method ParseDirective() returns (r: Option<Statement>)
      requires Valid() && tokens[index].Directive?
      modifies this
      ensures Valid()
      ensures var spec := DirectiveAt(tokens, old(index));
              if spec.None? then r.None? else r == Some(spec.value.0) && index == spec.value.1
    {
      var directive := Peek().name;
      index := index + 1;
      if directive == "equ" {
        if !Peek().Identifier? {
          return None;
        }
        var name := Peek().name;
        index := index + 1;
        if !Peek().Comma? {
          return None;
        }
        index := index + 1;
        if !Peek().Number? {
          return None;
        }
        r := Some(Equ(name, Peek().number));
        index := index + 1;
        return;
      }
      if directive == "include" {
        if !Peek().String? {
          return None;
        }
        r := Some(Include(Peek().content));
        index := index + 1;
        return;
      }
      if directive != "org" && directive != "byte" {
        return None;
      }
      if EndsLine(Peek()) {
        return Some(if directive == "org" then Org([]) else Data([]));
      }
      var operands := ParseOperands(false);
      if operands.None? {
        return None;
      }
      r := Some(if directive == "org" then Org(operands.value) else Data(operands.value));
    }

    method ParseLabels() returns (labels: seq<Statement>)
      requires Valid()
      modifies this
      ensures Valid() && (labels, index) == LabelsAt(tokens, old(index))
    {
      labels := [];
      while Peek().Identifier? && PeekNext().Colon?
        invariant Valid()
        invariant LabelsAt(tokens, old(index)).0 == labels + LabelsAt(tokens, index).0
        invariant LabelsAt(tokens, old(index)).1 == LabelsAt(tokens, index).1
        decreases |tokens| - index
      {
        labels := labels + [Label(Peek().name)];
        index := index + 2;
      }
      assert labels + [] == labels;
    }

    method ParseStatement() returns (r: Option<Statement>)
      requires Valid() && (tokens[index].Directive? || tokens[index].Identifier?)
      modifies this
      ensures Valid()
      ensures var spec := StatementAt(tokens, old(index));
              if spec.None? then r.None? else r == Some(spec.value.0) && index == spec.value.1
    {
      if Peek().Directive? {
        r := ParseDirective();
      } else {
        r := ParseInstruction();
      }
    }

    method Parse() returns (r: Option<seq<Statement>>)
      requires Valid()
      modifies this
      ensures Valid() && r == ProgramFrom(tokens, old(index))
    {
      var statements: seq<Statement> := [];
      SameProgramStart(ProgramFrom(tokens, index));
      while !Peek().EndOfFile?
        invariant Valid()
        invariant ProgramFrom(tokens, old(index)) == Prefixed(statements, ProgramFrom(tokens, index))
        decreases |tokens| - index
      {
        ghost var before := index;
        ConsumeNewlines();
        if Peek().EndOfFile? {
          break;
        }
        var labels := ParseLabels();
        if Peek().Newline? {
          index := index + 1;
          SameProgramStep(statements, labels, ProgramFrom(tokens, index));
          statements := statements + labels;
          continue;
        }
        if Peek().Directive? || Peek().Identifier? {
          var statement := ParseStatement();
          if statement.None? {
            return None;
          }
          if Peek().Newline? {
            index := index + 1;
            SameProgramStep(statements, labels + [statement.value], ProgramFrom(tokens, index));
          } else if !Peek().EndOfFile? {
            return None;
          } else {
            assert ProgramFrom(tokens, index) == Some([]);
            SameProgramStep(statements, labels + [statement.value], ProgramFrom(tokens, index));
            assert labels + [statement.value] + [] == labels + [statement.value];
          }
          statements := statements + (labels + [statement.value]);
        } else if labels != [] {
          SameProgramStep(statements, labels, ProgramFrom(tokens, index));
          statements := statements + labels;
        } else {
          return None;
        }
      }
      assert statements + [] == statements;
      r := Some(statements);
    }
  }

  ghost predicate SameOperands(whole: Option<(seq<Operand>, nat)>, read: seq<Operand>, rest: Option<(seq<Operand>, nat)>) {
    if rest.None? then whole.None? else whole == Some((read + rest.value.0, rest.value.1))
  }

  lemma SameOperandsStart(whole: Option<(seq<Operand>, nat)>)
    ensures SameOperands(whole, [], whole)
  {
    if whole.Some? { assert [] + whole.value.0 == whole.value.0; }
  }

  lemma SameOperandsStep(whole: Option<(seq<Operand>, nat)>, read: seq<Operand>, rest: Option<(seq<Operand>, nat)>,
                         operand: Operand, next: Option<(seq<Operand>, nat)>)
    requires SameOperands(whole, read, rest)
    requires rest == if next.None? then None else Some(([operand] + next.value.0, next.value.1))
    ensures SameOperands(whole, read + [operand], next)
  {
    if next.Some? {
      assert read + ([operand] + next.value.0) == (read + [operand]) + next.value.0;
    }
  }

  lemma SameProgramStart(whole: Option<seq<Statement>>)
    ensures Prefixed([], whole) == whole
  {
    if whole.Some? { assert [] + whole.value == whole.value; }
  }

  lemma SameProgramStep(read: seq<Statement>, more: seq<Statement>, rest: Option<seq<Statement>>)
    ensures Prefixed(read, Prefixed(more, rest)) == Prefixed(read + more, rest)
  {
    if rest.Some? { assert read + (more + rest.value) == (read + more) + rest.value; }
  }
}
