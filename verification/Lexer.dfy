/** From characters to tokens. The functions say where each kind of token ends; the class walks the source. */
module Lexer {
  import opened Wrappers
  import opened Text

  datatype Token =
    | Identifier(name: string)
    | Number(literal: string, number: nat)
    | Directive(name: string)
    | String(content: string)
    | Comma
    | LeftParen
    | RightParen
    | Colon
    | Hash
    | Newline
    | EndOfFile

  // ---------------------------------------------------------------- where things end

  predicate IsBlank(c: char) {
    c == ' ' || c == '\t' || c == '\r'
  }

  function SkipBlanks(s: string, i: nat): (j: nat)
    requires i <= |s|
    ensures i <= j <= |s| && (j < |s| ==> !IsBlank(s[j]))
    decreases |s| - i
  {
    if i < |s| && IsBlank(s[i]) then SkipBlanks(s, i + 1) else i
  }

  function LineEnd(s: string, i: nat): (j: nat)
    requires i <= |s|
    ensures i <= j <= |s| && (j < |s| ==> s[j] == '\n')
    ensures i < |s| && s[i] != '\n' ==> i < j
    decreases |s| - i
  {
    if i < |s| && s[i] != '\n' then LineEnd(s, i + 1) else i
  }

  function IdentifierEnd(s: string, i: nat): (j: nat)
    requires i <= |s|
    ensures i <= j <= |s| && (j < |s| ==> !IsIdentifierChar(s[j]))
    ensures i < |s| && IsIdentifierChar(s[i]) ==> i < j
    decreases |s| - i
  {
    if i < |s| && IsIdentifierChar(s[i]) then IdentifierEnd(s, i + 1) else i
  }

  function AlnumEnd(s: string, i: nat): (j: nat)
    requires i <= |s|
    ensures i <= j <= |s| && (j < |s| ==> !IsAlnum(s[j]))
    ensures i < |s| && IsAlnum(s[i]) ==> i < j
    decreases |s| - i
  {
    if i < |s| && IsAlnum(s[i]) then AlnumEnd(s, i + 1) else i
  }

  // ---------------------------------------------------------------- numbers

  function ReadAll(digits: string, base: nat): Option<nat> {
    if digits == "" then None else ReadDigits(digits, base, 0)
  }

  /** An optional `#`, then a base prefix, then digits, in 32-bit arithmetic. */
  function NumberValue(text: string): Option<nat> {
    var value := if text != "" && text[0] == '#' then text[1..] else text;
    if value != "" && value[0] == '$' then ReadAll(value[1..], 16)
    else if value != "" && value[0] == '%' then ReadAll(value[1..], 2)
    else if |value| > 2 && value[0] == '0' && (value[1] == 'x' || value[1] == 'X') then ReadAll(value[2..], 16)
    else if |value| > 2 && value[0] == '0' && (value[1] == 'b' || value[1] == 'B') then ReadAll(value[2..], 2)
    else ReadAll(value, 10)
  }

  method ParseNumberLiteral(text: string) returns (r: Option<nat>)
    ensures r == NumberValue(text)
  {
    var value := text;
    if value != "" && value[0] == '#' {
      value := value[1..];
    }
    var base := 10;
    if value != "" && value[0] == '$' {
      base, value := 16, value[1..];
    } else if value != "" && value[0] == '%' {
      base, value := 2, value[1..];
    } else if |value| > 2 && value[0] == '0' && (value[1] == 'x' || value[1] == 'X') {
      base, value := 16, value[2..];
    } else if |value| > 2 && value[0] == '0' && (value[1] == 'b' || value[1] == 'B') {
      base, value := 2, value[2..];
    }
    if value == "" {
      return None;
    }
    var parsed: nat := 0;
    for i := 0 to |value|
      invariant ReadDigits(value, base, 0) == ReadDigits(value[i..], base, parsed)
    {
      var digit := DigitValue(value[i]);
      if digit < 0 || digit >= base {
        return None;
      }
      parsed := (parsed * base + digit) % 0x1_0000_0000;
      assert value[i..][1..] == value[i + 1..];
    }
    r := Some(parsed);
  }

  /** Where the digits of a number literal start: after `#` and after a base prefix. */
  function DigitsStart(s: string, i: nat): (j: nat)
    requires i <= |s|
    ensures i <= j <= |s|
  {
    var k := if i < |s| && s[i] == '#' then i + 1 else i;
    if k < |s| && (s[k] == '$' || s[k] == '%') then k + 1
    else if k + 1 < |s| && s[k] == '0' && s[k + 1] in "xXbB" then k + 2
    else k
  }

  // ---------------------------------------------------------------- strings

  /** The content of a string literal from after its opening quote, and where it ends. */
  function StringBody(s: string, i: nat): (r: Option<(string, nat)>)
    requires i <= |s|
    ensures r.Some? ==> i < r.value.1 <= |s|
    decreases |s| - i
  {
    if i == |s| || s[i] == '\n' then None
    else if s[i] == '"' then Some(("", i + 1))
    else if s[i] == '\\' then
      if i + 1 < |s| && (s[i + 1] == '"' || s[i + 1] == '\\') then
        var rest := StringBody(s, i + 2);
        if rest.None? then None else Some(([s[i + 1]] + rest.value.0, rest.value.1))
      else None
    else
      var rest := StringBody(s, i + 1);
      if rest.None? then None else Some(([s[i]] + rest.value.0, rest.value.1))
  }

  // ---------------------------------------------------------------- tokens

  function WordToken(s: string, i: nat): (r: Option<(Token, nat)>)
    requires i < |s| && (s[i] == '.' || IsIdentifierStart(s[i]))
    ensures r.Some? ==> i < r.value.1 <= |s| && !r.value.0.EndOfFile?
  {
    var start := if s[i] == '.' then i + 1 else i;
    if !IsIdentifierStart(CharAt(s, start)) then None
    else
      var end := IdentifierEnd(s, start);
      var text := Lower(s[start..end]);
      Some((if s[i] == '.' then Directive(text) else Identifier(text), end))
  }

  function NumberToken(s: string, i: nat): (r: Option<(Token, nat)>)
    requires i < |s| && (s[i] in "#$%" || IsDigit(s[i]))
    ensures r.Some? ==> i < r.value.1 <= |s| && !r.value.0.EndOfFile?
  {
    var end := AlnumEnd(s, DigitsStart(s, i));
    var value := NumberValue(s[i..end]);
    if value.None? then None else Some((Number(s[i..end], value.value), end))
  }

  function StringToken(s: string, i: nat): (r: Option<(Token, nat)>)
    requires i < |s|
    ensures r.Some? ==> i < r.value.1 <= |s| && !r.value.0.EndOfFile?
  {
    var body := StringBody(s, i + 1);
    if body.None? then None else Some((String(body.value.0), body.value.1))
  }

  /** The next token at or after `i` and the position behind it; `None` where the source is malformed. */
  function TokenAt(s: string, i: nat): (r: Option<(Token, nat)>)
    requires i <= |s|
    ensures r.Some? ==> i <= r.value.1 <= |s| && (!r.value.0.EndOfFile? ==> i < r.value.1)
    decreases |s| - i
  {
    var j := SkipBlanks(s, i);
    if j == |s| then Some((EndOfFile, j))
    else if s[j] == '\n' then Some((Newline, j + 1))
    else if s[j] == ';' then TokenAt(s, LineEnd(s, j))
    else if s[j] == ',' then Some((Comma, j + 1))
    else if s[j] == '(' then Some((LeftParen, j + 1))
    else if s[j] == ')' then Some((RightParen, j + 1))
    else if s[j] == ':' then Some((Colon, j + 1))
    else if s[j] == '"' then StringToken(s, j)
    else if s[j] == '.' || IsIdentifierStart(s[j]) then WordToken(s, j)
    else if s[j] == '#' && IsIdentifierStart(CharAt(s, j + 1)) then Some((Hash, j + 1))
    else if s[j] in "#$%" || IsDigit(s[j]) then NumberToken(s, j)
    else None
  }

  /** All tokens from `i` on, the end of file included. */
  function LexFrom(s: string, i: nat): (r: Option<seq<Token>>)
    requires i <= |s|
    ensures r.Some? ==> r.value != [] && r.value[|r.value| - 1].EndOfFile?
    decreases |s| - i
  {
    var next := TokenAt(s, i);
    if next.None? then None
    else if next.value.0.EndOfFile? then Some([EndOfFile])
    else
      var rest := LexFrom(s, next.value.1);
      if rest.None? then None else Some([next.value.0] + rest.value)
  }

  class Scanner {
    const source: string
    var index: nat

    ghost predicate Valid()
      reads this
    {
      index <= |source|
    }

    constructor (source: string)
      ensures Valid() && this.source == source && index == 0
    {
      this.source := source;
      index := 0;
    }

    predicate AtEnd()
      reads this
    {
      index >= |source|
    }

    function Peek(): char
      reads this
    {
      CharAt(source, index)
    }

    function PeekNext(): char
      reads this
    {
      CharAt(source, index + 1)
    }

    method SkipWhitespace()
      requires Valid()
      modifies this
      ensures Valid() && index == SkipBlanks(source, old(index))
    {
      while !AtEnd() && (Peek() == ' ' || Peek() == '\t' || Peek() == '\r')
        invariant Valid() && SkipBlanks(source, index) == SkipBlanks(source, old(index))
        decreases |source| - index
      {
        index := index + 1;
      }
    }

    method SkipComment()
      requires Valid()
      modifies this
      ensures Valid() && index == LineEnd(source, old(index))
    {
      while !AtEnd() && Peek() != '\n'
        invariant Valid() && LineEnd(source, index) == LineEnd(source, old(index))
        decreases |source| - index
      {
        index := index + 1;
      }
    }

    method LexIdentifierOrDirective() returns (r: Option<Token>)
      requires Valid() && index < |source| && (source[index] == '.' || IsIdentifierStart(source[index]))
      modifies this
      ensures Valid()
      ensures var next := WordToken(source, old(index));
              if next.None? then r.None? else r == Some(next.value.0) && index == next.value.1
    {
      var start := index;
      var isDirective := false;
      if Peek() == '.' {
        isDirective := true;
        index := index + 1;
        start := index;
      }
      if !IsIdentifierStart(Peek()) {
        return None;
      }
      while !AtEnd() && IsIdentifierChar(Peek())
        invariant start <= index && Valid() && IdentifierEnd(source, index) == IdentifierEnd(source, start)
        decreases |source| - index
      {
        index := index + 1;
      }
      var text := Lower(source[start..index]);
      r := Some(if isDirective then Directive(text) else Identifier(text));
    }

    method LexNumber() returns (r: Option<Token>)
      requires Valid() && index < |source| && (source[index] in "#$%" || IsDigit(source[index]))
      modifies this
      ensures Valid()
      ensures var next := NumberToken(source, old(index));
              if next.None? then r.None? else r == Some(next.value.0) && index == next.value.1
    {
      var start := index;
      if Peek() == '#' {
        index := index + 1;
      }
      if Peek() == '$' || Peek() == '%' {
        index := index + 1;
      } else if Peek() == '0' && (PeekNext() == 'x' || PeekNext() == 'X' || PeekNext() == 'b' || PeekNext() == 'B') {
        index := index + 2;
      }
      ghost var digits := index;
      assert digits == DigitsStart(source, start);
      while !AtEnd() && IsAlnum(Peek())
        invariant start <= index && Valid() && AlnumEnd(source, index) == AlnumEnd(source, digits)
        decreases |source| - index
      {
        index := index + 1;
      }
      var value := ParseNumberLiteral(source[start..index]);
      if value.None? {
        return None;
      }
      r := Some(Number(source[start..index], value.value));
    }

    method LexString() returns (r: Option<Token>)
      requires Valid() && index < |source|
      modifies this
      ensures Valid()
      ensures var next := StringToken(source, old(index));
              if next.None? then r.None? else r == Some(next.value.0) && index == next.value.1
    {
      index := index + 1;
      ghost var start := index;
      var value := "";
      SameStringStart(StringBody(source, start));
      while !AtEnd() && Peek() != '"'
        invariant start <= index && Valid()
        invariant SameString(StringBody(source, start), value, StringBody(source, index))
        decreases |source| - index
      {
        ghost var before := index;
        if Peek() == '\n' {
          return None;
        }
        if Peek() == '\\' {
          index := index + 1;
          if AtEnd() {
            return None;
          }
          var escaped := Peek();
          if escaped != '"' && escaped != '\\' {
            return None;
          }
          index := index + 1;
          SameStringStep(StringBody(source, start), value, StringBody(source, before), escaped, StringBody(source, index));
          value := value + [escaped];
        } else {
          var ch := Peek();
          index := index + 1;
          SameStringStep(StringBody(source, start), value, StringBody(source, before), ch, StringBody(source, index));
          value := value + [ch];
        }
      }
      if AtEnd() {
        return None;
      }
      index := index + 1;
      assert value + "" == value;
      r := Some(String(value));
    }

    method NextToken() returns (r: Option<Token>)
      requires Valid()
      modifies this
      ensures Valid()
      ensures var next := TokenAt(source, old(index));
              if next.None? then r.None? else r == Some(next.value.0) && index == next.value.1
      decreases |source| - index
    {
      SkipWhitespace();
      if AtEnd() {
        return Some(EndOfFile);
      }
      var ch := Peek();
      if ch == '\n' {
        index := index + 1;
        return Some(Newline);
      }
      if ch == ';' {
        SkipComment();
        r := NextToken();
        return;
      }
      if ch == ',' || ch == '(' || ch == ')' || ch == ':' {
        index := index + 1;
        return Some(if ch == ',' then Comma else if ch == '(' then LeftParen else if ch == ')' then RightParen else Colon);
      }
      if ch == '"' {
        r := LexString();
        return;
      }
      if ch == '.' || IsIdentifierStart(ch) {
        r := LexIdentifierOrDirective();
        return;
      }
      if ch == '#' && IsIdentifierStart(PeekNext()) {
        index := index + 1;
        return Some(Hash);
      }
      if ch == '#' || ch == '$' || ch == '%' || IsDigit(ch) {
        r := LexNumber();
        return;
      }
      r := None;
    }

    method Lex() returns (r: Option<seq<Token>>)
      requires Valid()
      modifies this
      ensures Valid() && r == LexFrom(source, old(index))
    {
      var tokens: seq<Token> := [];
      SameTokensStart(LexFrom(source, index));
      while true
        invariant Valid() && SameTokens(LexFrom(source, old(index)), tokens, LexFrom(source, index))
        decreases |source| - index
      {
        ghost var before := index;
        var token := NextToken();
        if token.None? {
          return None;
        }
        if token.value.EndOfFile? {
          return Some(tokens + [EndOfFile]);
        }
        SameTokensStep(LexFrom(source, old(index)), tokens, LexFrom(source, before), token.value, LexFrom(source, index));
        tokens := tokens + [token.value];
      }
    }
  }

  /** The whole is what was read followed by what is still to be read. */
  ghost predicate SameString(whole: Option<(string, nat)>, read: string, rest: Option<(string, nat)>) {
    if rest.None? then whole.None? else whole == Some((read + rest.value.0, rest.value.1))
  }

  ghost predicate SameTokens(whole: Option<seq<Token>>, read: seq<Token>, rest: Option<seq<Token>>) {
    if rest.None? then whole.None? else whole == Some(read + rest.value)
  }

  lemma SameTokensStep(whole: Option<seq<Token>>, read: seq<Token>, rest: Option<seq<Token>>, token: Token,
                       next: Option<seq<Token>>)
    requires SameTokens(whole, read, rest)
    requires rest == if next.None? then None else Some([token] + next.value)
    ensures SameTokens(whole, read + [token], next)
  {
    if next.Some? {
      assert read + ([token] + next.value) == (read + [token]) + next.value;
    }
  }

  lemma SameTokensStart(whole: Option<seq<Token>>)
    ensures SameTokens(whole, [], whole)
  {
    if whole.Some? { assert [] + whole.value == whole.value; }
  }

  lemma SameStringStart(whole: Option<(string, nat)>)
    ensures SameString(whole, "", whole)
  {
    if whole.Some? { assert "" + whole.value.0 == whole.value.0; }
  }

  lemma SameStringStep(whole: Option<(string, nat)>, read: string, rest: Option<(string, nat)>, c: char,
                       next: Option<(string, nat)>)
    requires SameString(whole, read, rest)
    requires rest == if next.None? then None else Some(([c] + next.value.0, next.value.1))
    ensures SameString(whole, read + [c], next)
  {
    if next.Some? {
      assert read + ([c] + next.value.0) == (read + [c]) + next.value.0;
    }
  }
}
