/** What a source text means: however a program is spelled, the lexer and the parser read that program. */
module Spelling {
  import opened Wrappers
  import opened Text
  import opened Isa
  import opened Lexer
  import opened Numerals
  import opened Relexing

  // ---------------------------------------------------------------- how a token may be spelled

  /** The text is a number literal for `v`, with or without `#`, in any of the bases and in either case. */
  predicate LiteralOf(text: string, v: nat, prefix: string, body: string, digits: seq<nat>, base: nat) {
    && Announces(prefix, base) && SpellsDigits(body, digits, base) && body != ""
    && (text == prefix + body || text == "#" + (prefix + body))
    && v == Behind(0, digits, base) % 0x1_0000_0000
  }

  ghost predicate IsLiteral(text: string, v: nat) {
    exists prefix, body, digits, base :: LiteralOf(text, v, prefix, body, digits, base)
  }

  /** Quotes and backslashes stand behind a backslash. */
  function EscapedChar(c: char): string {
    if c == '"' || c == '\\' then ['\\', c] else [c]
  }

  function Escaped(content: string): string {
    if content == "" then ""
    else EscapedChar(content[0]) + Escaped(content[1..])
  }

  /** A comment runs to the end of its line. */
  predicate IsComment(text: string) {
    '\n' !in text && (text != "" ==> text[0] == ';')
  }

  ghost predicate Spells(text: string, token: Token) {
    match token
    case Identifier(name) => IsWord(text) && name == Lower(text)
    case Directive(name) => text != "" && text[0] == '.' && IsWord(text[1..]) && name == Lower(text[1..])
    case Number(literal, v) => text == literal && IsLiteral(text, v)
    case String(content) => '\n' !in content && text == "\"" + (Escaped(content) + "\"")
    case Comma => text == ","
    case LeftParen => text == "("
    case RightParen => text == ")"
    case Colon => text == ":"
    case Hash => text == "#"
    case Newline => text != "" && text[|text| - 1] == '\n' && IsComment(text[..|text| - 1])
    case EndOfFile => false
  }

  predicate AllBlank(text: string) {
    forall c | c in text :: IsBlank(c)
  }

  /** A token with the blanks before it. */
  datatype Piece = Piece(blanks: string, text: string, token: Token)

  function TextOf(pieces: seq<Piece>, tail: string): string {
    if pieces == [] then tail else pieces[0].blanks + (pieces[0].text + TextOf(pieces[1..], tail))
  }

  function TokensOf(pieces: seq<Piece>): seq<Token> {
    if pieces == [] then [EndOfFile] else [pieces[0].token] + TokensOf(pieces[1..])
  }

  /** Words and numbers do not run into what follows, and a `#` before a name touches it. */
  predicate Separate(token: Token, rest: seq<Piece>, tail: string) {
    && (token.Identifier? || token.Directive? || token.Number? ==> StopsAt(TextOf(rest, tail), 0))
    && (token.Hash? ==> rest != [] && rest[0].blanks == "" && rest[0].token.Identifier?)
  }

  /** A source: tokens spelled one behind the other, then blanks and perhaps a last comment. */
  ghost predicate WellSpelled(pieces: seq<Piece>, blanks: string, comment: string) {
    if pieces == [] then AllBlank(blanks) && IsComment(comment)
    else
      && AllBlank(pieces[0].blanks) && Spells(pieces[0].text, pieces[0].token)
      && Separate(pieces[0].token, pieces[1..], blanks + comment) && WellSpelled(pieces[1..], blanks, comment)
  }

  // ---------------------------------------------------------------- lexing one token

  lemma {:induction false} BlankRun(s: string, i: nat, j: nat)
    requires i <= j <= |s| && forall k | i <= k < j :: IsBlank(s[k])
    ensures SkipBlanks(s, i) == SkipBlanks(s, j)
    decreases j - i
  {
    if i < j { BlankRun(s, i + 1, j); }
  }

  lemma LexBlanks(s: string, i: nat, blanks: string, j: nat)
    requires StandsAt(s, i, blanks) && AllBlank(blanks) && j == i + |blanks|
    ensures TokenAt(s, i) == TokenAt(s, j)
  {
    forall k | i <= k < j ensures IsBlank(s[k]) {
      assert s[i + (k - i)] == blanks[k - i] && blanks[k - i] in blanks;
    }
    BlankRun(s, i, j);
  }

  /** A comment is skipped to the end of its line, or of the text. */
  lemma LexComment(s: string, i: nat, comment: string, end: nat)
    requires StandsAt(s, i, comment) && IsComment(comment) && end == i + |comment| && (end < |s| ==> s[end] == '\n')
    ensures TokenAt(s, i) == TokenAt(s, end)
  {
    if comment != "" {
      assert s[i + 0] == comment[0];
      forall k | i <= k < end ensures s[k] != '\n' {
        assert s[i + (k - i)] == comment[k - i] && comment[k - i] in comment;
      }
      RestOfLine(s, i, end);
      CommentSkipped(s, i);
    }
  }

  lemma {:induction false} RestOfLine(s: string, i: nat, j: nat)
    requires i <= j <= |s| && (j < |s| ==> s[j] == '\n') && forall k | i <= k < j :: s[k] != '\n'
    ensures LineEnd(s, i) == j
    decreases j - i
  {
    if i < j { RestOfLine(s, i + 1, j); }
  }

  lemma CommentSkipped(s: string, i: nat)
    requires i < |s| && s[i] == ';'
    ensures TokenAt(s, i) == TokenAt(s, LineEnd(s, i))
  {
  }

  /** One character of a string, escaped or not. */
  lemma StringStep(s: string, i: nat, c: char, content: string, end: nat)
    requires c != '\n' && StandsAt(s, i, EscapedChar(c))
    requires StringBody(s, i + |EscapedChar(c)|) == Some((content, end))
    ensures StringBody(s, i) == Some(([c] + content, end))
  {
    if c == '"' || c == '\\' {
      assert s[i + 0] == ['\\', c][0] && s[i + 1] == ['\\', c][1];
    } else {
      assert s[i + 0] == [c][0];
    }
  }

  lemma EscapedFirst(content: string, first: string, rest: string)
    requires content != "" && first == EscapedChar(content[0]) && rest == Escaped(content[1..])
    ensures Escaped(content) + "\"" == first + (rest + "\"") && |Escaped(content)| == |first| + |rest|
  {
  }

  lemma NoBreakInRest(content: string)
    requires content != "" && '\n' !in content
    ensures content[0] != '\n' && '\n' !in content[1..] && [content[0]] + content[1..] == content
  {
  }

  /** A quoted string reads as its content. */
  lemma {:induction false} StringReads(s: string, i: nat, content: string) returns (end: nat)
    requires '\n' !in content && StandsAt(s, i, Escaped(content) + "\"")
    ensures end == i + |Escaped(content)| + 1 && StringBody(s, i) == Some((content, end))
    decreases |content|
  {
    if content == "" {
      assert Escaped(content) + "\"" == "\"";
      assert s[i + 0] == "\""[0];
      end := i + 1;
    } else {
      var c, rest := content[0], content[1..];
      var first, after := EscapedChar(c), Escaped(rest);
      EscapedFirst(content, first, after);
      StandsSplit(s, i, first, after + "\"");
      NoBreakInRest(content);
      end := StringReads(s, i + |first|, rest);
      StringStep(s, i, c, rest, end);
    }
  }

  lemma LexString(s: string, i: nat, content: string, text: string)
    requires '\n' !in content && text == "\"" + (Escaped(content) + "\"") && StandsAt(s, i, text)
    ensures TokenAt(s, i) == Some((String(content), i + |text|))
  {
    StandsSplit(s, i, "\"", Escaped(content) + "\"");
    assert s[i + 0] == "\""[0];
    var end := StringReads(s, i + 1, content);
    QuoteStarts(s, i);
  }

  lemma QuoteStarts(s: string, i: nat)
    requires i < |s| && s[i] == '"'
    ensures TokenAt(s, i) == StringToken(s, i)
  {
  }

  predicate StartsLiteral(c: char) {
    c == '$' || c == '%' || IsDigit(c)
  }

  /** A base prefix and characters that look like digits. */
  predicate LooksLike(prefix: string, body: string) {
    && (prefix == "" || prefix == "$" || prefix == "%" || (|prefix| == 2 && prefix[0] == '0' && prefix[1] in "xXbB"))
    && body != "" && forall c | c in body :: IsAlnum(c) && (prefix == "" ==> IsDigit(c))
  }

  lemma LiteralLooks(prefix: string, body: string, digits: seq<nat>, base: nat)
    requires Announces(prefix, base) && SpellsDigits(body, digits, base) && body != ""
    ensures LooksLike(prefix, body)
  {
    forall k | 0 <= k < |body| ensures IsAlnum(body[k]) {
      DigitReads(body[k], digits[k]);
    }
    if prefix == "" { PlainDigits(body, digits); }
  }

  /** Behind an optional `#`, the digits start after the prefix. */
  lemma DigitsBegin(s: string, k: nat, prefix: string, body: string)
    requires LooksLike(prefix, body)
    requires StandsAt(s, k, prefix) && StandsAt(s, k + |prefix|, body) && StopsAt(s, k + |prefix| + |body|)
    ensures k < |s| && s[k] != '#' && StartsLiteral(s[k]) && DigitsStart(s, k) == k + |prefix|
  {
    if prefix == "" {
      assert s[k + 0] == body[0] && body[0] in body;
      if |body| > 1 { assert s[k + 1] == body[1] && body[1] in body; }
    } else {
      assert s[k + 0] == prefix[0];
      if |prefix| == 2 { assert s[k + 1] == prefix[1]; }
    }
  }

  lemma BodyEnds(s: string, start: nat, body: string, end: nat)
    requires (forall c | c in body :: IsAlnum(c)) && StandsAt(s, start, body) && end == start + |body| && StopsAt(s, end)
    ensures AlnumEnd(s, start) == end
  {
    forall k | start <= k < end ensures IsAlnum(s[k]) {
      assert s[start + (k - start)] == body[k - start] && body[k - start] in body;
    }
    AlnumRun(s, start, end);
  }

  lemma HashNumber(s: string, i: nat)
    requires i < |s| && s[i] == '#' && !IsIdentifierStart(CharAt(s, i + 1))
    ensures s[i] in "#$%" && TokenAt(s, i) == NumberToken(s, i)
  {
    assert "#$%"[0] == s[i];
    assert SkipBlanks(s, i) == i;
  }

  lemma SigilNumber(s: string, i: nat)
    requires i < |s| && (s[i] == '$' || s[i] == '%')
    ensures s[i] in "#$%" && TokenAt(s, i) == NumberToken(s, i)
  {
    assert s[i] == "#$%"[1] || s[i] == "#$%"[2];
    assert SkipBlanks(s, i) == i;
  }

  lemma DigitNumber(s: string, i: nat)
    requires i < |s| && IsDigit(s[i])
    ensures TokenAt(s, i) == NumberToken(s, i)
  {
    assert SkipBlanks(s, i) == i;
  }

  /** Where a bare literal starts, the lexer reads a number. */
  lemma BareNumber(s: string, i: nat)
    requires i < |s| && StartsLiteral(s[i])
    ensures TokenAt(s, i) == NumberToken(s, i)
  {
    if IsDigit(s[i]) { DigitNumber(s, i); } else { SigilNumber(s, i); }
  }

  lemma NumberTokenIs(s: string, i: nat, start: nat, end: nat, text: string, v: nat)
    requires i < |s| && (s[i] == '#' || StartsLiteral(s[i])) && i < end <= |s|
    requires start <= |s| && DigitsStart(s, i) == start && AlnumEnd(s, start) == end && s[i..end] == text
    requires NumberValue(text) == Some(v)
    ensures NumberToken(s, i) == Some((Number(text, v), end))
  {
  }

  lemma BareNumberIs(s: string, i: nat, start: nat, end: nat, text: string, v: nat)
    requires i < |s| && StartsLiteral(s[i]) && i < end <= |s|
    requires start <= |s| && DigitsStart(s, i) == start && AlnumEnd(s, start) == end && s[i..end] == text
    requires NumberValue(text) == Some(v)
    ensures TokenAt(s, i) == Some((Number(text, v), end))
  {
    BareNumber(s, i);
    NumberTokenIs(s, i, start, end, text, v);
  }

  lemma HashNumberIs(s: string, i: nat, start: nat, end: nat, text: string, v: nat)
    requires i + 1 < |s| && s[i] == '#' && !IsIdentifierStart(s[i + 1]) && i < end <= |s|
    requires start <= |s| && DigitsStart(s, i) == start && AlnumEnd(s, start) == end && s[i..end] == text
    requires NumberValue(text) == Some(v)
    ensures TokenAt(s, i) == Some((Number(text, v), end))
  {
    HashNumber(s, i);
    NumberTokenIs(s, i, start, end, text, v);
  }

  lemma LiteralValue(text: string, v: nat, prefix: string, body: string, digits: seq<nat>, base: nat)
    requires LiteralOf(text, v, prefix, body, digits, base)
    ensures NumberValue(text) == Some(v)
  {
    LiteralMeansItsDigits(prefix, body, digits, base);
  }

  /** A number literal without `#`, up to where its digits end. */
  lemma BareDigits(s: string, i: nat, bare: string, prefix: string, body: string)
    requires LooksLike(prefix, body) && bare == prefix + body && StandsAt(s, i, bare) && StopsAt(s, i + |bare|)
    ensures i < |s| && s[i] != '#' && StartsLiteral(s[i])
    ensures i + |prefix| <= |s| && DigitsStart(s, i) == i + |prefix| && AlnumEnd(s, i + |prefix|) == i + |bare|
  {
    StandsSplit(s, i, prefix, body);
    DigitsBegin(s, i, prefix, body);
    BodyEnds(s, i + |prefix|, body, i + |bare|);
  }

  /** The same behind a `#`. */
  lemma HashDigits(s: string, i: nat, text: string, prefix: string, body: string)
    requires LooksLike(prefix, body) && text == "#" + (prefix + body) && StandsAt(s, i, text) && StopsAt(s, i + |text|)
    ensures i + 1 < |s| && s[i] == '#' && !IsIdentifierStart(s[i + 1])
    ensures i + 1 + |prefix| <= |s| && DigitsStart(s, i) == i + 1 + |prefix| && AlnumEnd(s, i + 1 + |prefix|) == i + |text|
  {
    StandsSplit(s, i, "#", prefix + body);
    assert s[i + 0] == "#"[0];
    BareDigits(s, i + 1, prefix + body, prefix, body);
    HashStart(s, i, |prefix|);
  }

  lemma HashStart(s: string, i: nat, n: nat)
    requires i + 1 < |s| && s[i] == '#' && s[i + 1] != '#' && DigitsStart(s, i + 1) == i + 1 + n
    ensures DigitsStart(s, i) == i + 1 + n
  {
  }

  lemma LexDigits(s: string, i: nat, text: string, v: nat, prefix: string, body: string)
    requires LooksLike(prefix, body) && (text == prefix + body || text == "#" + (prefix + body)) && NumberValue(text) == Some(v)
    requires StandsAt(s, i, text) && StopsAt(s, i + |text|)
    ensures TokenAt(s, i) == Some((Number(text, v), i + |text|))
  {
    var end := i + |text|;
    StandsIsSlice(s, i, text);
    if text == prefix + body {
      BareDigits(s, i, text, prefix, body);
      BareNumberIs(s, i, i + |prefix|, end, text, v);
    } else {
      HashDigits(s, i, text, prefix, body);
      HashNumberIs(s, i, i + 1 + |prefix|, end, text, v);
    }
  }

  lemma LiteralShape(text: string, v: nat) returns (prefix: string, body: string)
    requires IsLiteral(text, v)
    ensures LooksLike(prefix, body) && (text == prefix + body || text == "#" + (prefix + body)) && NumberValue(text) == Some(v)
  {
    var p, b, digits, base :| LiteralOf(text, v, p, b, digits, base);
    prefix, body := p, b;
    LiteralValue(text, v, prefix, body, digits, base);
    LiteralLooks(prefix, body, digits, base);
  }

  lemma LexLiteral(s: string, i: nat, text: string, v: nat)
    requires IsLiteral(text, v) && StandsAt(s, i, text) && StopsAt(s, i + |text|)
    ensures TokenAt(s, i) == Some((Number(text, v), i + |text|))
  {
    var prefix, body := LiteralShape(text, v);
    LexDigits(s, i, text, v, prefix, body);
  }

  lemma LexMarks(s: string, i: nat, text: string, token: Token)
    requires Spells(text, token) && (token.Comma? || token.LeftParen? || token.RightParen? || token.Colon?)
    requires StandsAt(s, i, text)
    ensures TokenAt(s, i) == Some((token, i + |text|))
  {
    assert s[i + 0] == text[0];
  }

  lemma LexDotted(s: string, i: nat, text: string, name: string)
    requires Spells(text, Directive(name)) && StandsAt(s, i, text) && StopsAt(s, i + |text|)
    ensures TokenAt(s, i) == Some((Directive(name), i + |text|))
  {
    assert text == "." + text[1..];
    StandsSplit(s, i, ".", text[1..]);
    assert s[i + 0] == "."[0];
    LexDirective(s, i, text[1..], i + 1, i + |text|);
  }

  lemma LexNewline(s: string, i: nat, text: string)
    requires Spells(text, Newline) && StandsAt(s, i, text)
    ensures TokenAt(s, i) == Some((Newline, i + |text|))
  {
    var comment := text[..|text| - 1];
    var end := i + |comment|;
    assert text == comment + "\n";
    StandsSplit(s, i, comment, "\n");
    assert s[end + 0] == "\n"[0];
    LexComment(s, i, comment, end);
    NewlineEnds(s, end);
  }

  lemma NewlineEnds(s: string, i: nat)
    requires i < |s| && s[i] == '\n'
    ensures TokenAt(s, i) == Some((Newline, i + 1))
  {
  }

  lemma LexHash(s: string, i: nat)
    requires i + 1 < |s| && s[i] == '#' && IsIdentifierStart(s[i + 1])
    ensures TokenAt(s, i) == Some((Hash, i + 1))
  {
  }

  /** A `#` that touches a word. */
  lemma LexTouching(s: string, i: nat, text: string, rest: seq<Piece>, tail: string)
    requires Spells(text, Hash) && StandsAt(s, i, text) && StandsAt(s, i + |text|, TextOf(rest, tail))
    requires rest != [] && rest[0].blanks == "" && rest[0].token.Identifier? && Spells(rest[0].text, rest[0].token)
    ensures TokenAt(s, i) == Some((Hash, i + |text|))
  {
    var word, after := rest[0].text, TextOf(rest[1..], tail);
    assert TextOf(rest, tail) == word + after;
    StandsSplit(s, i + 1, word, after);
    assert s[i + 0] == text[0] && s[i + 1 + 0] == word[0];
    LexHash(s, i);
  }

  /** A spelled token reads as itself. */
  lemma LexSpelled(s: string, i: nat, text: string, token: Token, rest: seq<Piece>, tail: string)
    requires Spells(text, token) && Separate(token, rest, tail)
    requires token.Hash? ==> Spells(rest[0].text, rest[0].token)
    requires StandsAt(s, i, text) && StandsAt(s, i + |text|, TextOf(rest, tail)) && i + |text| + |TextOf(rest, tail)| == |s|
    ensures TokenAt(s, i) == Some((token, i + |text|))
  {
    var after := TextOf(rest, tail);
    if after != "" { assert s[i + |text| + 0] == after[0]; }
    assert StopsAt(after, 0) ==> StopsAt(s, i + |text|);
    match token
    case Identifier(name) => LexWord(s, i, text);
    case Directive(name) => LexDotted(s, i, text, name);
    case Number(literal, v) => LexLiteral(s, i, text, v);
    case String(content) => LexString(s, i, content, text);
    case Hash => LexTouching(s, i, text, rest, tail);
    case Newline => LexNewline(s, i, text);
    case EndOfFile =>
    case _ => LexMarks(s, i, text, token);
  }

  lemma LexTail(s: string, i: nat, blanks: string, comment: string)
    requires AllBlank(blanks) && IsComment(comment) && StandsAt(s, i, blanks + comment) && i + |blanks + comment| == |s|
    ensures LexFrom(s, i) == Some([EndOfFile])
  {
    StandsSplit(s, i, blanks, comment);
    LexBlanks(s, i, blanks, i + |blanks|);
    LexComment(s, i + |blanks|, comment, |s|);
  }

  lemma LexPiece(s: string, i: nat, p: Piece, rest: seq<Piece>, tail: string, after: string) returns (end: nat)
    requires AllBlank(p.blanks) && Spells(p.text, p.token) && Separate(p.token, rest, tail) && after == TextOf(rest, tail)
    requires p.token.Hash? ==> Spells(rest[0].text, rest[0].token)
    requires StandsAt(s, i, p.blanks + (p.text + after)) && i + |p.blanks + (p.text + after)| == |s|
    ensures end + |after| == |s| && StandsAt(s, end, after) && Reads(s, i, [p.token], end)
  {
    StandsSplit(s, i, p.blanks, p.text + after);
    var j := i + |p.blanks|;
    StandsSplit(s, j, p.text, after);
    end := j + |p.text|;
    LexBlanks(s, i, p.blanks, j);
    LexSpelled(s, j, p.text, p.token, rest, tail);
    LexStep(s, i, p.token, end);
  }

  /** Every spelling of a list of tokens lexes to these tokens. */
  lemma {:induction false} LexSource(s: string, i: nat, pieces: seq<Piece>, blanks: string, comment: string)
    requires WellSpelled(pieces, blanks, comment)
    requires StandsAt(s, i, TextOf(pieces, blanks + comment)) && i + |TextOf(pieces, blanks + comment)| == |s|
    ensures LexFrom(s, i) == Some(TokensOf(pieces))
    decreases |pieces|
  {
    if pieces == [] {
      LexTail(s, i, blanks, comment);
    } else {
      var tail, rest := blanks + comment, pieces[1..];
      var end := LexPiece(s, i, pieces[0], rest, tail, TextOf(rest, tail));
      LexSource(s, end, rest, blanks, comment);
    }
  }
}
