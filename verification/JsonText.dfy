/** Printing JSON pieces, and what the reader makes of them wherever they stand. */
module JsonText {
  import opened Bits
  import opened Wrappers
  import opened Text
  import opened Json

  // ---------------------------------------------------------------- strings

  function LowHexDigit(d: nat): char
    requires d < 16
  {
    if d < 10 then ('0' as int + d) as char else ('a' as int + (d - 10)) as char
  }

  function EscapeChar(c: char): (r: string)
    ensures 0 < |r| <= 6
  {
    if c == '"' then "\\\""
    else if c == '\\' then "\\\\"
    else if c == '\n' then "\\n"
    else if c == '\r' then "\\r"
    else if c == '\t' then "\\t"
    else if c as int < 0x20 then ['\\', 'u', '0', '0', LowHexDigit(c as int / 16), LowHexDigit(c as int % 16)]
    else [c]
  }

  function Escape(s: string): string {
    if s == "" then "" else Escape(s[..|s| - 1]) + EscapeChar(s[|s| - 1])
  }

  method EscapeJson(value: string) returns (out: string)
    ensures out == Escape(value)
  {
    out := "";
    for i := 0 to |value|
      invariant out == Escape(value[..i])
    {
      assert value[..i + 1][..i] == value[..i];
      var ch := value[i];
      if ch == '"' {
        out := out + "\\\"";
      } else if ch == '\\' {
        out := out + "\\\\";
      } else if ch == '\n' {
        out := out + "\\n";
      } else if ch == '\r' {
        out := out + "\\r";
      } else if ch == '\t' {
        out := out + "\\t";
      } else if ch as int < 0x20 {
        out := out + ['\\', 'u', '0', '0', LowHexDigit(ch as int / 16), LowHexDigit(ch as int % 16)];
      } else {
        out := out + [ch];
      }
    }
    assert value[..|value|] == value;
  }

  function Quote(s: string): (r: string)
    ensures |r| >= 2
  {
    "\"" + Escape(s) + "\""
  }

  lemma CharsStand(s: string, i: nat, t: string)
    requires StandsAt(s, i, t) && |t| <= 6
    ensures forall k | 0 <= k < |t| :: s[i + k] == t[k]
    ensures |t| > 0 ==> s[i] == t[0]
    ensures |t| > 1 ==> s[i + 1] == t[1]
  {
    assert |t| > 0 ==> s[i + 0] == t[0];
  }

  /** The reader undoes the escape of one character. */
  lemma UnescapeChar(s: string, i: nat, c: char)
    requires StandsAt(s, i, EscapeChar(c))
    ensures s[i] != '"' && LiteralCharAt(s, i) == Some((c, i + |EscapeChar(c)|))
  {
    CharsStand(s, i, EscapeChar(c));
    if c as int < 0x20 && c != '\n' && c != '\r' && c != '\t' {
      UnescapeControl(s, i, c);
    }
  }

  lemma UnescapeControl(s: string, i: nat, c: char)
    requires c as int < 0x20
    requires StandsAt(s, i, ['\\', 'u', '0', '0', LowHexDigit(c as int / 16), LowHexDigit(c as int % 16)])
    ensures LiteralCharAt(s, i) == Some((c, i + 6))
  {
    var high, low := c as int / 16, c as int % 16;
    var t := ['\\', 'u', '0', '0', LowHexDigit(high), LowHexDigit(low)];
    CharsStand(s, i, t);
    var digits := s[i + 2..i + 6];
    assert digits == ['0', '0', LowHexDigit(high), LowHexDigit(low)] by {
      assert s[i + 2] == t[2] && s[i + 3] == t[3] && s[i + 4] == t[4] && s[i + 5] == t[5];
    }
    ReadNextDigit(digits, 0, 0);
    ReadNextDigit(digits, 1, 0);
    ReadNextDigit(digits, 2, 0);
    ReadNextDigit(digits, 3, high);
    assert digits[0..] == digits && digits[4..] == "";
  }

  /** Escape, read forwards. */
  lemma {:induction false} EscapeFront(s: string)
    requires s != ""
    ensures Escape(s) == EscapeChar(s[0]) + Escape(s[1..])
  {
    var n := |s| - 1;
    if n == 0 {
      assert s[..0] == "" && s[1..] == "";
    } else {
      EscapeFront(s[..n]);
      assert s[..n][1..] == s[1..][..n - 1] && s[..n][0] == s[0] && s[1..][n - 1] == s[n];
      Regroup(EscapeChar(s[0]), Escape(s[1..][..n - 1]), EscapeChar(s[n]));
    }
  }

  lemma StringRestStep(s: string, i: nat, t: string, next: nat, end: nat)
    requires i < |s| && s[i] != '"' && t != "" && LiteralCharAt(s, i) == Some((t[0], next))
    requires StringRestAt(s, next) == Some((t[1..], end))
    ensures StringRestAt(s, i) == Some((t, end))
  {
    assert t == [t[0]] + t[1..];
  }

  lemma StringRestEnd(s: string, i: nat)
    requires StandsAt(s, i, "\"")
    ensures StringRestAt(s, i) == Some(("", i + 1))
  {
    CharsStand(s, i, "\"");
  }

  lemma SplitEscaped(s: string, i: nat, t: string) returns (next: nat)
    requires t != "" && StandsAt(s, i, Escape(t) + "\"")
    ensures next == i + |EscapeChar(t[0])| && StandsAt(s, i, EscapeChar(t[0])) && StandsAt(s, next, Escape(t[1..]) + "\"")
    ensures |Escape(t)| == |EscapeChar(t[0])| + |Escape(t[1..])|
  {
    EscapeFront(t);
    Regroup(EscapeChar(t[0]), Escape(t[1..]), "\"");
    StandsSplit(s, i, EscapeChar(t[0]), Escape(t[1..]) + "\"");
    next := i + |EscapeChar(t[0])|;
  }

  lemma FirstEscaped(s: string, i: nat, t: string) returns (next: nat)
    requires t != "" && StandsAt(s, i, Escape(t) + "\"")
    ensures next == i + |EscapeChar(t[0])| && StandsAt(s, next, Escape(t[1..]) + "\"")
    ensures i < |s| && s[i] != '"' && LiteralCharAt(s, i) == Some((t[0], next))
    ensures |Escape(t)| == |EscapeChar(t[0])| + |Escape(t[1..])|
  {
    next := SplitEscaped(s, i, t);
    UnescapeChar(s, i, t[0]);
  }

  lemma {:induction false} StringRestOf(s: string, i: nat, t: string) returns (end: nat)
    requires StandsAt(s, i, Escape(t) + "\"")
    ensures end == i + |Escape(t)| + 1 && StringRestAt(s, i) == Some((t, end))
    decreases |t|
  {
    if t == "" {
      assert Escape(t) == "" && Escape(t) + "\"" == "\"";
      StringRestEnd(s, i);
      end := i + 1;
    } else {
      var next := FirstEscaped(s, i, t);
      end := StringRestOf(s, next, t[1..]);
      StringRestStep(s, i, t, next, end);
    }
  }

  /** Reading a printed string gives the string back, for every string. */
  lemma ReadQuoted(s: string, i: nat, t: string)
    requires StandsAt(s, i, Quote(t))
    ensures StringAt(s, i) == Some((t, i + |Quote(t)|)) && s[i] == '"'
  {
    assert Quote(t) == "\"" + (Escape(t) + "\"");
    StandsSplit(s, i, "\"", Escape(t) + "\"");
    CharsStand(s, i, "\"");
    var end := StringRestOf(s, i + 1, t);
  }

  /** So different strings print differently. */
  lemma EscapeInjective(a: string, b: string)
    requires Escape(a) == Escape(b)
    ensures a == b
  {
    ReadQuoted(Quote(a), 0, a);
    ReadQuoted(Quote(b), 0, b);
  }

  /** What section 7 of RFC 8259 asks of the characters of a string: no control characters, and quotes and
      backslashes only as part of an escape. */
  predicate EscapedText(s: string) {
    if s == "" then true
    else if s[0] == '\\' then
      if |s| >= 2 && s[1] in "\"\\/bfnrt" then EscapedText(s[2..])
      else |s| >= 6 && s[1] == 'u' && (forall k | 2 <= k < 6 :: DigitValue(s[k]) >= 0) && EscapedText(s[6..])
    else s[0] as int >= 0x20 && s[0] != '"' && EscapedText(s[1..])
  }

  lemma EscapedCharFirst(c: char, rest: string)
    requires EscapedText(rest)
    ensures EscapedText(EscapeChar(c) + rest)
  {
    var e := EscapeChar(c);
    assert (e + rest)[|e|..] == rest;
    assert forall k | 0 <= k < |e| :: (e + rest)[k] == e[k];
  }

  lemma {:induction false} EscapeIsValid(s: string)
    ensures EscapedText(Escape(s))
    decreases |s|
  {
    if s != "" {
      EscapeFront(s);
      EscapeIsValid(s[1..]);
      EscapedCharFirst(s[0], Escape(s[1..]));
    }
  }

  // ---------------------------------------------------------------- numbers

  function DecimalText(n: nat): (r: string)
    ensures r != "" && forall c | c in r :: IsDigit(c)
  {
    var digit := [('0' as int + n % 10) as char];
    if n < 10 then digit else DecimalText(n / 10) + digit
  }

  function HexText(n: nat): (r: string)
    ensures r != "" && forall c | c in r :: IsAlnum(c)
  {
    if n < 16 then [LowHexDigit(n)] else HexText(n / 16) + [LowHexDigit(n % 16)]
  }

  lemma {:induction false} DecimalOfText(n: nat)
    ensures Json.Decimal(DecimalText(n)) == n
  {
    var digit := [('0' as int + n % 10) as char];
    if n < 10 {
      assert DecimalText(n)[..0] == "";
    } else {
      DecimalOfText(n / 10);
      assert DecimalText(n)[..|DecimalText(n)| - 1] == DecimalText(n / 10);
    }
  }

  // ---------------------------------------------------------------- text that reads as a value anywhere

  /** What follows must not run on a number. */
  predicate Delimited(s: string, i: nat) {
    i < |s| ==> !IsDigit(s[i])
  }

  /** The reader, finding the text at any place, makes this value of it and stops behind it. */
  ghost predicate ReadsAs(text: string, v: Value) {
    forall s: string, i: nat :: StandsAt(s, i, text) && Delimited(s, i + |text|) ==>
      ValueAt(s, i) == Some((v, i + |text|))
  }

  lemma ReadAt(text: string, v: Value, s: string, i: nat) returns (end: nat)
    requires ReadsAs(text, v) && StandsAt(s, i, text) && Delimited(s, i + |text|)
    ensures end == i + |text| && end <= |s| && ValueAt(s, i) == Some((v, end))
  {
    end := i + |text|;
  }

  lemma QuoteStarts(s: string, i: nat, t: string, end: nat)
    requires i < |s| && s[i] == '"' && StringAt(s, i) == Some((t, end))
    ensures ValueAt(s, i) == Some((String(t), end))
  {
    NoWord(s, i);
  }

  /** None of the three words starts here. */
  lemma NoWord(s: string, i: nat)
    requires i < |s| && s[i] != 'n' && s[i] != 't' && s[i] != 'f'
    ensures !Matches(s, i, "null") && !Matches(s, i, "true") && !Matches(s, i, "false")
  {
    MatchFirst(s, i, "null");
    MatchFirst(s, i, "true");
    MatchFirst(s, i, "false");
  }

  lemma MatchFirst(s: string, i: nat, word: string)
    requires i < |s| && word != ""
    ensures Matches(s, i, word) ==> s[i] == word[0]
  {
    if Matches(s, i, word) { assert s[i..i + |word|][0] == s[i]; }
  }

  lemma QuoteReads(t: string)
    ensures ReadsAs(Quote(t), String(t))
  {
    forall s: string, i: nat | StandsAt(s, i, Quote(t)) && Delimited(s, i + |Quote(t)|)
      ensures ValueAt(s, i) == Some((String(t), i + |Quote(t)|))
    {
      ReadQuoted(s, i, t);
      QuoteStarts(s, i, t, i + |Quote(t)|);
    }
  }

  lemma {:induction false} DigitsRun(s: string, i: nat, j: nat)
    requires i <= j <= |s| && Delimited(s, j) && forall k | i <= k < j :: IsDigit(s[k])
    ensures DigitsEnd(s, i) == j
    decreases j - i
  {
    if i < j { DigitsRun(s, i + 1, j); }
  }

  lemma DigitsStand(s: string, i: nat, text: string)
    requires StandsAt(s, i, text) && Delimited(s, i + |text|) && text != "" && forall c | c in text :: IsDigit(c)
    ensures i < |s| && IsDigit(s[i]) && DigitsEnd(s, i) == i + |text| && s[i..i + |text|] == text
  {
    var end := i + |text|;
    forall k | i <= k < end ensures IsDigit(s[k]) {
      assert s[i + (k - i)] == text[k - i] && text[k - i] in text;
    }
    DigitsRun(s, i, end);
  }

  lemma ReadNumber(s: string, i: nat, n: nat)
    requires n <= INT64_MAX && StandsAt(s, i, DecimalText(n)) && Delimited(s, i + |DecimalText(n)|)
    ensures ValueAt(s, i) == Some((Number(n), i + |DecimalText(n)|))
  {
    DigitsStand(s, i, DecimalText(n));
    DecimalOfText(n);
    NumberStarts(s, i, n, i + |DecimalText(n)|);
  }

  lemma NumberStarts(s: string, i: nat, n: int, end: nat)
    requires i < |s| && IsDigit(s[i]) && NumberAt(s, i) == Some((n, end))
    ensures ValueAt(s, i) == Some((Number(n), end))
  {
    NoWord(s, i);
  }

  lemma NumberReads(n: nat)
    requires n <= INT64_MAX
    ensures ReadsAs(DecimalText(n), Number(n))
  {
    forall s: string, i: nat | StandsAt(s, i, DecimalText(n)) && Delimited(s, i + |DecimalText(n)|)
      ensures ValueAt(s, i) == Some((Number(n), i + |DecimalText(n)|))
    {
      ReadNumber(s, i, n);
    }
  }

  // ---------------------------------------------------------------- space

  predicate IsBlank(text: string) {
    forall k | 0 <= k < |text| :: IsSpace(text[k])
  }

  lemma {:induction false} SkipRun(s: string, i: nat, j: nat)
    requires i <= j <= |s| && forall k | i <= k < j :: IsSpace(s[k])
    ensures SkipSpace(s, i) == SkipSpace(s, j)
    decreases j - i
  {
    if i < j { SkipRun(s, i + 1, j); }
  }

  lemma SkipBlank(s: string, i: nat, blank: string) returns (j: nat)
    requires StandsAt(s, i, blank) && IsBlank(blank)
    ensures j == i + |blank| && j <= |s| && SkipSpace(s, i) == SkipSpace(s, j)
  {
    j := i + |blank|;
    forall k | i <= k < j ensures IsSpace(s[k]) {
      assert s[i + (k - i)] == blank[k - i];
    }
    SkipRun(s, i, j);
  }

  lemma SameAfterSpace(s: string, i: nat, j: nat)
    requires i <= |s| && j <= |s| && SkipSpace(s, i) == SkipSpace(s, j)
    ensures ValueAt(s, i) == ValueAt(s, j) && MemberAt(s, i) == MemberAt(s, j)
    ensures ElementsAt(s, i) == ElementsAt(s, j) && MembersAt(s, i) == MembersAt(s, j)
  {
  }

  // ---------------------------------------------------------------- lists

  /** Space before the first item, before each further one, behind the last, and inside an empty list. */
  datatype Spacing = Spacing(first: string, next: string, last: string, none: string)

  predicate Blanks(sp: Spacing) {
    IsBlank(sp.first) && IsBlank(sp.next) && IsBlank(sp.last) && IsBlank(sp.none)
  }

  /** Items from the k-th on, commas between, and the closing mark. */
  function ListFrom(texts: seq<string>, k: nat, sp: Spacing, close: char): string
    requires k < |texts|
    decreases |texts| - k
  {
    texts[k] + (if k + 1 == |texts| then sp.last + [close] else [','] + (sp.next + ListFrom(texts, k + 1, sp, close)))
  }

  function ListText(open: char, texts: seq<string>, sp: Spacing, close: char): string {
    [open] + (if texts == [] then sp.none + [close] else sp.first + ListFrom(texts, 0, sp, close))
  }

  method PrintList(open: char, texts: seq<string>, sp: Spacing, close: char) returns (out: string)
    ensures out == ListText(open, texts, sp, close)
  {
    if texts == [] {
      return [open] + (sp.none + [close]);
    }
    out := [open] + sp.first;
    ghost var whole := ListText(open, texts, sp, close);
    Regroup([open], sp.first, ListFrom(texts, 0, sp, close));
    for i := 0 to |texts| - 1
      invariant out + ListFrom(texts, i, sp, close) == whole
    {
      ItemOff(out, texts, i, sp, close);
      out := out + texts[i] + ([','] + sp.next);
    }
    Regroup(out, texts[|texts| - 1], sp.last + [close]);
    out := out + texts[|texts| - 1] + (sp.last + [close]);
  }

  lemma ItemOff(out: string, texts: seq<string>, i: nat, sp: Spacing, close: char)
    requires i + 1 < |texts|
    ensures out + ListFrom(texts, i, sp, close)
         == (out + texts[i] + ([','] + sp.next)) + ListFrom(texts, i + 1, sp, close)
  {
    var rest := ListFrom(texts, i + 1, sp, close);
    Regroup([','], sp.next, rest);
    Regroup(out, texts[i], ([','] + sp.next) + rest);
    Regroup(out + texts[i], [','] + sp.next, rest);
  }

  /** Behind an item: space and the closing mark. */
  lemma ReadClose(s: string, i: nat, sp: Spacing, close: char) returns (end: nat)
    requires Blanks(sp) && StandsAt(s, i, sp.last + [close]) && !IsSpace(close)
    ensures end == i + |sp.last| + 1 && end <= |s| && MarkAt(s, i, close) == Some((true, end))
    ensures !IsDigit(close) ==> Delimited(s, i)
  {
    StandsSplit(s, i, sp.last, [close]);
    var j := SkipBlank(s, i, sp.last);
    assert s[j + 0] == [close][0];
    end := j + 1;
    if sp.last != "" { assert s[i + 0] == sp.last[0]; }
  }

  /** Behind an item: a comma and the space before the next. */
  lemma CommaMark(s: string, i: nat, close: char)
    requires i < |s| && s[i] == ',' && close != ','
    ensures MarkAt(s, i, close) == Some((false, i + 1)) && Delimited(s, i)
  {
  }

  lemma ReadComma(s: string, i: nat, sp: Spacing, close: char, rest: string) returns (mark: nat, next: nat)
    requires Blanks(sp) && StandsAt(s, i, [','] + (sp.next + rest)) && close != ','
    ensures mark == i + 1 <= |s| && MarkAt(s, i, close) == Some((false, mark))
    ensures next == mark + |sp.next| && StandsAt(s, next, rest) && Delimited(s, i)
    ensures ElementsAt(s, mark) == ElementsAt(s, next) && MembersAt(s, mark) == MembersAt(s, next)
  {
    StandsSplit(s, i, [','], sp.next + rest);
    assert s[i + 0] == [','][0];
    CommaMark(s, i, close);
    mark := i + 1;
    StandsSplit(s, mark, sp.next, rest);
    next := SkipBlank(s, mark, sp.next);
    StandsAfter(s, mark, sp.next, rest, next);
    SameAfterSpace(s, mark, next);
  }

  ghost predicate AllRead(texts: seq<string>, values: seq<Value>) {
    |texts| == |values| && forall k | 0 <= k < |texts| :: ReadsAs(texts[k], values[k])
  }

  lemma ElementsLast(s: string, i: nat, text: string, values: seq<Value>, k: nat, sp: Spacing) returns (end: nat)
    requires Blanks(sp) && k + 1 == |values| && ReadsAs(text, values[k])
    requires StandsAt(s, i, text + (sp.last + [']']))
    ensures end == i + |text| + |sp.last| + 1 && end <= |s| && ElementsAt(s, i) == Some((values[k..], end))
  {
    StandsSplit(s, i, text, sp.last + [']']);
    end := ReadClose(s, i + |text|, sp, ']');
    var behind := ReadAt(text, values[k], s, i);
    assert values[k..] == [values[k]];
  }

  /** An item and its comma. */
  lemma ElementAndComma(s: string, i: nat, text: string, v: Value, sp: Spacing, rest: string)
    returns (behind: nat, mark: nat, next: nat)
    requires Blanks(sp) && ReadsAs(text, v) && StandsAt(s, i, text + ([','] + (sp.next + rest)))
    ensures behind <= |s| && mark <= |s| && next == i + |text| + 1 + |sp.next| <= |s|
    ensures ValueAt(s, i) == Some((v, behind)) && MarkAt(s, behind, ']') == Some((false, mark))
    ensures ElementsAt(s, mark) == ElementsAt(s, next) && StandsAt(s, next, rest)
  {
    behind := i + |text|;
    StandsSplit(s, i, text, [','] + (sp.next + rest));
    mark, next := ReadComma(s, behind, sp, ']', rest);
    var end := ReadAt(text, v, s, i);
  }

  lemma ElementsStep(s: string, i: nat, values: seq<Value>, k: nat, behind: nat, mark: nat, end: nat)
    requires k + 1 < |values| && i <= |s| && behind <= |s| && mark <= |s| && ValueAt(s, i) == Some((values[k], behind))
    requires MarkAt(s, behind, ']') == Some((false, mark)) && ElementsAt(s, mark) == Some((values[k + 1..], end))
    ensures ElementsAt(s, i) == Some((values[k..], end))
  {
    assert values[k..] == [values[k]] + values[k + 1..];
  }

  lemma {:induction false} ReadElements(s: string, i: nat, texts: seq<string>, values: seq<Value>, k: nat, sp: Spacing)
    returns (end: nat)
    requires AllRead(texts, values) && Blanks(sp) && k < |texts| && StandsAt(s, i, ListFrom(texts, k, sp, ']'))
    ensures end == i + |ListFrom(texts, k, sp, ']')| && end <= |s| && ElementsAt(s, i) == Some((values[k..], end))
    decreases |texts| - k
  {
    if k + 1 == |texts| {
      end := ElementsLast(s, i, texts[k], values, k, sp);
    } else {
      var rest := ListFrom(texts, k + 1, sp, ']');
      var behind, mark, next := ElementAndComma(s, i, texts[k], values[k], sp, rest);
      end := ReadElements(s, next, texts, values, k + 1, sp);
      ElementsStep(s, i, values, k, behind, mark, end);
    }
  }

  lemma MarksStart(s: string, i: nat)
    requires i < |s|
    ensures s[i] == '[' ==> ValueAt(s, i) == ArrayHere(s, i)
    ensures s[i] == '{' ==> ValueAt(s, i) == ObjectHere(s, i)
  {
    if s[i] == '[' || s[i] == '{' { NoWord(s, i); }
  }

  /** No value starts with a closing bracket, no member with a closing brace. */
  lemma NotClosed(s: string, i: nat)
    requires i <= |s|
    ensures ValueAt(s, i).Some? ==> CharAt(s, SkipSpace(s, i)) != ']'
    ensures MemberAt(s, i).Some? ==> CharAt(s, SkipSpace(s, i)) != '}'
  {
    var j := SkipSpace(s, i);
    if CharAt(s, j) == ']' {
      NoWord(s, j);
      assert ValueHere(s, j).None?;
    }
  }

  /** An empty list: space and the closing mark. */
  lemma ReadNone(s: string, i: nat, open: char, sp: Spacing, close: char)
    requires Blanks(sp) && ((open == '[' && close == ']') || (open == '{' && close == '}'))
    requires StandsAt(s, i, [open] + (sp.none + [close]))
    ensures ValueAt(s, i) == Some((if open == '[' then Array([]) else Object([]), i + |sp.none| + 2))
  {
    StandsSplit(s, i, [open], sp.none + [close]);
    assert s[i + 0] == [open][0];
    StandsSplit(s, i + 1, sp.none, [close]);
    var j := SkipBlank(s, i + 1, sp.none);
    assert s[j + 0] == [close][0];
    MarksStart(s, i);
  }

  /** The opening mark and the space before the first item. */
  lemma ReadOpen(s: string, i: nat, open: char, sp: Spacing, rest: string) returns (next: nat)
    requires Blanks(sp) && StandsAt(s, i, [open] + (sp.first + rest))
    ensures i < |s| && s[i] == open && next == i + 1 + |sp.first| <= |s| && StandsAt(s, next, rest)
    ensures SkipSpace(s, i + 1) == SkipSpace(s, next)
  {
    StandsSplit(s, i, [open], sp.first + rest);
    assert s[i + 0] == [open][0];
    StandsSplit(s, i + 1, sp.first, rest);
    next := SkipBlank(s, i + 1, sp.first);
  }

  lemma ArrayOf(s: string, i: nat, next: nat, values: seq<Value>, end: nat)
    requires i < |s| && s[i] == '[' && next <= |s| && SkipSpace(s, i + 1) == SkipSpace(s, next)
    requires ElementsAt(s, next) == Some((values, end))
    ensures ValueAt(s, i) == Some((Array(values), end))
  {
    var k := SkipSpace(s, i + 1);
    MarksStart(s, i);
    NotClosed(s, next);
    SkipTwice(s, next);
    SameAfterSpace(s, k, next);
  }

  lemma SkipTwice(s: string, i: nat)
    requires i <= |s|
    ensures SkipSpace(s, SkipSpace(s, i)) == SkipSpace(s, i)
  {
  }

  lemma ReadArray(s: string, i: nat, texts: seq<string>, values: seq<Value>, sp: Spacing)
    requires AllRead(texts, values) && Blanks(sp) && StandsAt(s, i, ListText('[', texts, sp, ']'))
    ensures ValueAt(s, i) == Some((Array(values), i + |ListText('[', texts, sp, ']')|))
  {
    if texts == [] {
      ReadNone(s, i, '[', sp, ']');
      assert values == [];
    } else {
      var next := ReadOpen(s, i, '[', sp, ListFrom(texts, 0, sp, ']'));
      var end := ReadElements(s, next, texts, values, 0, sp);
      assert values[0..] == values;
      ArrayOf(s, i, next, values, end);
    }
  }

  /** A printed array reads as the array of what its items read as. */
  lemma ArrayReads(texts: seq<string>, values: seq<Value>, sp: Spacing)
    requires AllRead(texts, values) && Blanks(sp)
    ensures ReadsAs(ListText('[', texts, sp, ']'), Array(values))
  {
    var text := ListText('[', texts, sp, ']');
    forall s: string, i: nat | StandsAt(s, i, text) && Delimited(s, i + |text|)
      ensures ValueAt(s, i) == Some((Array(values), i + |text|))
    {
      ReadArray(s, i, texts, values, sp);
    }
  }

  // ---------------------------------------------------------------- objects

  function MemberText(key: string, text: string): string {
    Quote(key) + (": " + text)
  }

  /** Text of a member, and the member the reader makes of it anywhere. */
  ghost predicate MemberReads(text: string, m: Member) {
    forall s: string, i: nat :: StandsAt(s, i, text) && Delimited(s, i + |text|) ==>
      MemberAt(s, i) == Some((m, i + |text|))
  }

  lemma ReadMemberAt(text: string, m: Member, s: string, i: nat) returns (end: nat)
    requires MemberReads(text, m) && StandsAt(s, i, text) && Delimited(s, i + |text|)
    ensures end == i + |text| && end <= |s| && MemberAt(s, i) == Some((m, end))
  {
    end := i + |text|;
  }

  lemma MemberParts(s: string, i: nat, key: string, colon: nat, v: Value, end: nat)
    requires i < |s| && s[i] == '"' && StringAt(s, i) == Some((key, colon))
    requires colon < |s| && s[colon] == ':' && ValueAt(s, colon + 1) == Some((v, end))
    ensures MemberAt(s, i) == Some((Member(key, v), end))
  {
  }

  lemma ReadColon(s: string, i: nat, text: string, v: Value) returns (end: nat)
    requires ReadsAs(text, v) && StandsAt(s, i, ": " + text) && Delimited(s, i + 2 + |text|)
    ensures i < |s| && s[i] == ':' && end == i + 2 + |text| && ValueAt(s, i + 1) == Some((v, end))
  {
    StandsSplit(s, i, ": ", text);
    CharsStand(s, i, ": ");
    end := ReadAt(text, v, s, i + 2);
    assert SkipSpace(s, i + 1) == SkipSpace(s, i + 2);
    SameAfterSpace(s, i + 1, i + 2);
  }

  lemma ReadMember(s: string, i: nat, key: string, text: string, v: Value)
    requires ReadsAs(text, v) && StandsAt(s, i, MemberText(key, text)) && Delimited(s, i + |MemberText(key, text)|)
    ensures MemberAt(s, i) == Some((Member(key, v), i + |MemberText(key, text)|))
  {
    StandsSplit(s, i, Quote(key), ": " + text);
    var colon := i + |Quote(key)|;
    ReadQuoted(s, i, key);
    var end := ReadColon(s, colon, text, v);
    MemberParts(s, i, key, colon, v, end);
  }

  lemma MemberTextReads(key: string, text: string, v: Value)
    requires ReadsAs(text, v)
    ensures MemberReads(MemberText(key, text), Member(key, v))
  {
    forall s: string, i: nat | StandsAt(s, i, MemberText(key, text)) && Delimited(s, i + |MemberText(key, text)|)
      ensures MemberAt(s, i) == Some((Member(key, v), i + |MemberText(key, text)|))
    {
      ReadMember(s, i, key, text, v);
    }
  }

  ghost predicate AllMembersRead(texts: seq<string>, members: seq<Member>) {
    |texts| == |members| && forall k | 0 <= k < |texts| :: MemberReads(texts[k], members[k])
  }

  lemma MembersLast(s: string, i: nat, text: string, members: seq<Member>, k: nat, sp: Spacing) returns (end: nat)
    requires Blanks(sp) && k + 1 == |members| && MemberReads(text, members[k])
    requires StandsAt(s, i, text + (sp.last + ['}']))
    ensures end == i + |text| + |sp.last| + 1 && end <= |s| && MembersAt(s, i) == Some((members[k..], end))
  {
    StandsSplit(s, i, text, sp.last + ['}']);
    end := ReadClose(s, i + |text|, sp, '}');
    var behind := ReadMemberAt(text, members[k], s, i);
    assert members[k..] == [members[k]];
  }

  lemma MemberAndComma(s: string, i: nat, text: string, m: Member, sp: Spacing, rest: string)
    returns (behind: nat, mark: nat, next: nat)
    requires Blanks(sp) && MemberReads(text, m) && StandsAt(s, i, text + ([','] + (sp.next + rest)))
    ensures behind <= |s| && mark <= |s| && next == i + |text| + 1 + |sp.next| <= |s|
    ensures MemberAt(s, i) == Some((m, behind)) && MarkAt(s, behind, '}') == Some((false, mark))
    ensures MembersAt(s, mark) == MembersAt(s, next) && StandsAt(s, next, rest)
  {
    behind := i + |text|;
    StandsSplit(s, i, text, [','] + (sp.next + rest));
    mark, next := ReadComma(s, behind, sp, '}', rest);
    var end := ReadMemberAt(text, m, s, i);
  }

  lemma MembersStep(s: string, i: nat, members: seq<Member>, k: nat, behind: nat, mark: nat, end: nat)
    requires k + 1 < |members| && i <= |s| && behind <= |s| && mark <= |s| && MemberAt(s, i) == Some((members[k], behind))
    requires MarkAt(s, behind, '}') == Some((false, mark)) && MembersAt(s, mark) == Some((members[k + 1..], end))
    ensures MembersAt(s, i) == Some((members[k..], end))
  {
    assert members[k..] == [members[k]] + members[k + 1..];
  }

  lemma {:induction false} ReadMembers(s: string, i: nat, texts: seq<string>, members: seq<Member>, k: nat, sp: Spacing)
    returns (end: nat)
    requires AllMembersRead(texts, members) && Blanks(sp) && k < |texts| && StandsAt(s, i, ListFrom(texts, k, sp, '}'))
    ensures end == i + |ListFrom(texts, k, sp, '}')| && end <= |s| && MembersAt(s, i) == Some((members[k..], end))
    decreases |texts| - k
  {
    if k + 1 == |texts| {
      end := MembersLast(s, i, texts[k], members, k, sp);
    } else {
      var rest := ListFrom(texts, k + 1, sp, '}');
      var behind, mark, next := MemberAndComma(s, i, texts[k], members[k], sp, rest);
      end := ReadMembers(s, next, texts, members, k + 1, sp);
      MembersStep(s, i, members, k, behind, mark, end);
    }
  }

  predicate DistinctKeys(members: seq<Member>) {
    forall k, l | 0 <= k < l < |members| :: members[k].key != members[l].key
  }

  /** Distinct keys are all kept. */
  lemma {:induction false} DistinctKept(members: seq<Member>, k: nat)
    requires DistinctKeys(members) && k <= |members|
    ensures EmplaceAll(members[..k], members[k..]) == members
    decreases |members| - k
  {
    if k == |members| {
      assert members[..k] == members;
    } else {
      assert members[k..][0] == members[k] && members[k..][1..] == members[k + 1..];
      assert !HasKey(members[..k], members[k].key);
      assert members[..k] + [members[k]] == members[..k + 1];
      DistinctKept(members, k + 1);
    }
  }

  lemma ObjectOf(s: string, i: nat, next: nat, members: seq<Member>, end: nat)
    requires i < |s| && s[i] == '{' && next <= |s| && SkipSpace(s, i + 1) == SkipSpace(s, next)
    requires MembersAt(s, next) == Some((members, end))
    ensures ValueAt(s, i) == Some((Object(EmplaceAll([], members)), end))
  {
    var k := SkipSpace(s, i + 1);
    MarksStart(s, i);
    NotClosed(s, next);
    SkipTwice(s, next);
    SameAfterSpace(s, k, next);
  }

  lemma ReadObject(s: string, i: nat, texts: seq<string>, members: seq<Member>, sp: Spacing)
    requires AllMembersRead(texts, members) && DistinctKeys(members) && Blanks(sp)
    requires StandsAt(s, i, ListText('{', texts, sp, '}'))
    ensures ValueAt(s, i) == Some((Object(members), i + |ListText('{', texts, sp, '}')|))
  {
    if texts == [] {
      ReadNone(s, i, '{', sp, '}');
      assert members == [];
    } else {
      var next := ReadOpen(s, i, '{', sp, ListFrom(texts, 0, sp, '}'));
      var end := ReadMembers(s, next, texts, members, 0, sp);
      assert members[0..] == members && members[..0] == [];
      DistinctKept(members, 0);
      ObjectOf(s, i, next, members, end);
    }
  }

  /** A printed object with distinct keys reads as the object of what its members read as. */
  lemma ObjectReads(texts: seq<string>, members: seq<Member>, sp: Spacing)
    requires AllMembersRead(texts, members) && DistinctKeys(members) && Blanks(sp)
    ensures ReadsAs(ListText('{', texts, sp, '}'), Object(members))
  {
    var text := ListText('{', texts, sp, '}');
    forall s: string, i: nat | StandsAt(s, i, text) && Delimited(s, i + |text|)
      ensures ValueAt(s, i) == Some((Object(members), i + |text|))
    {
      ReadObject(s, i, texts, members, sp);
    }
  }
}
