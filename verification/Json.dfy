/** The JSON reader of the debug-symbol loader: functions that say what stands at a position, and the
    class that walks the input. Numbers are 64-bit integers; anything malformed has no value. */
module Json {
  import opened Wrappers
  import opened Text

  datatype Value =
    | Object(members: seq<Member>)
    | Array(elements: seq<Value>)
    | String(text: string)
    | Number(number: int)
    | Bool(truth: bool)
    | Null

  datatype Member = Member(key: string, value: Value)

  predicate HasKey(members: seq<Member>, key: string) {
    exists i | 0 <= i < |members| :: members[i].key == key
  }

  /** Adding a member keeps the one already there. */
  function Emplace(members: seq<Member>, m: Member): seq<Member> {
    if HasKey(members, m.key) then members else members + [m]
  }

  /** Members added one after the other. */
  function EmplaceAll(members: seq<Member>, more: seq<Member>): seq<Member>
    decreases |more|
  {
    if more == [] then members else EmplaceAll(Emplace(members, more[0]), more[1..])
  }

  // ---------------------------------------------------------------- characters

  predicate IsSpace(c: char) {
    c == ' ' || c == '\t' || c == '\n' || c == '\r'
  }

  function SkipSpace(s: string, i: nat): (j: nat)
    requires i <= |s|
    ensures i <= j <= |s| && (j < |s| ==> !IsSpace(s[j]))
    decreases |s| - i
  {
    if i < |s| && IsSpace(s[i]) then SkipSpace(s, i + 1) else i
  }

  // ---------------------------------------------------------------- strings

  /** Four hexadecimal digits; characters beyond ASCII are replaced. */
  function UnicodeAt(s: string, i: nat): (r: Option<char>)
    requires i <= |s|
    ensures r.Some? ==> i + 4 <= |s|
  {
    if i + 4 > |s| then None
    else
      var value := ReadDigits(s[i..i + 4], 16, 0);
      if value.None? then None else Some(if value.value < 0x80 then value.value as char else '?')
  }

  function SimpleEscape(c: char): Option<char> {
    if c == '"' || c == '\\' || c == '/' then Some(c)
    else if c == 'b' then Some(8 as char)
    else if c == 'f' then Some(12 as char)
    else if c == 'n' then Some('\n')
    else if c == 'r' then Some('\r')
    else if c == 't' then Some('\t')
    else None
  }

  /** One character of a string literal, possibly escaped, and the position behind it. */
  function LiteralCharAt(s: string, i: nat): (r: Option<(char, nat)>)
    requires i < |s|
    ensures r.Some? ==> i < r.value.1 <= |s|
  {
    if s[i] != '\\' then Some((s[i], i + 1))
    else if i + 1 == |s| then None
    else if s[i + 1] == 'u' then
      var c := UnicodeAt(s, i + 2);
      if c.None? then None else Some((c.value, i + 6))
    else
      var c := SimpleEscape(s[i + 1]);
      if c.None? then None else Some((c.value, i + 2))
  }

  /** The rest of a string literal up to and past its closing quote. */
  function StringRestAt(s: string, i: nat): (r: Option<(string, nat)>)
    requires i <= |s|
    ensures r.Some? ==> i < r.value.1 <= |s|
    decreases |s| - i
  {
    if i == |s| then None
    else if s[i] == '"' then Some(("", i + 1))
    else
      var c := LiteralCharAt(s, i);
      if c.None? then None
      else
        var rest := StringRestAt(s, c.value.1);
        if rest.None? then None else Some(([c.value.0] + rest.value.0, rest.value.1))
  }

  function StringAt(s: string, i: nat): (r: Option<(string, nat)>)
    requires i <= |s|
    ensures r.Some? ==> i < r.value.1 <= |s|
  {
    if CharAt(s, i) != '"' then None else StringRestAt(s, i + 1)
  }

  // ---------------------------------------------------------------- numbers

  function DigitsEnd(s: string, i: nat): (j: nat)
    requires i <= |s|
    ensures i <= j <= |s| && (j < |s| ==> !IsDigit(s[j]))
    ensures forall k | i <= k < j :: IsDigit(s[k])
    decreases |s| - i
  {
    if i < |s| && IsDigit(s[i]) then DigitsEnd(s, i + 1) else i
  }

  function Decimal(digits: string): (n: nat)
    requires forall c | c in digits :: IsDigit(c)
  {
    if digits == "" then 0
    else
      var n := |digits| - 1;
      assert IsDigit(digits[n]);
      Decimal(digits[..n]) * 10 + (digits[n] as int - '0' as int)
  }

  const INT64_MIN: int := -0x8000_0000_0000_0000
  const INT64_MAX: int := 0x7FFF_FFFF_FFFF_FFFF

  /** An optional minus sign and digits that fit 64 bits. */
  function NumberAt(s: string, i: nat): (r: Option<(int, nat)>)
    requires i <= |s|
    ensures r.Some? ==> i < r.value.1 <= |s|
  {
    var start := if CharAt(s, i) == '-' then i + 1 else i;
    var end := DigitsEnd(s, start);
    if end == start then None
    else
      assert forall c | c in s[start..end] :: IsDigit(c);
      var magnitude: int := Decimal(s[start..end]);
      var n: int := if start > i then -magnitude else magnitude;
      if n < INT64_MIN || n > INT64_MAX then None else Some((n, end))
  }

  // ---------------------------------------------------------------- values

  predicate Matches(s: string, i: nat, word: string) {
    i + |word| <= |s| && s[i..i + |word|] == word
  }

  /** What stands behind an item of a list: its closing mark (true) or a comma (false). */
  function MarkAt(s: string, i: nat, close: char): (r: Option<(bool, nat)>)
    requires i <= |s|
    ensures r.Some? ==> i < r.value.1 <= |s|
  {
    var j := SkipSpace(s, i);
    if j < |s| && s[j] == close then Some((true, j + 1))
    else if j < |s| && s[j] == ',' then Some((false, j + 1))
    else None
  }

  /** The value after any space. */
  function ValueAt(s: string, i: nat): (r: Option<(Value, nat)>)
    requires i <= |s|
    ensures r.Some? ==> i < r.value.1 <= |s|
    decreases |s| - i, 4
  {
    ValueHere(s, SkipSpace(s, i))
  }

  function ValueHere(s: string, i: nat): (r: Option<(Value, nat)>)
    requires i <= |s|
    ensures r.Some? ==> i < r.value.1 <= |s|
    decreases |s| - i, 3
  {
    if Matches(s, i, "null") then Some((Null, i + 4))
    else if Matches(s, i, "true") then Some((Bool(true), i + 4))
    else if Matches(s, i, "false") then Some((Bool(false), i + 5))
    else if CharAt(s, i) == '{' then ObjectHere(s, i)
    else if CharAt(s, i) == '[' then ArrayHere(s, i)
    else if CharAt(s, i) == '"' then
      var text := StringAt(s, i);
      if text.None? then None else Some((String(text.value.0), text.value.1))
    else if CharAt(s, i) == '-' || IsDigit(CharAt(s, i)) then
      var number := NumberAt(s, i);
      if number.None? then None else Some((Number(number.value.0), number.value.1))
    else None
  }

  function ObjectHere(s: string, i: nat): (r: Option<(Value, nat)>)
    requires i < |s|
    ensures r.Some? ==> i < r.value.1 <= |s|
    decreases |s| - i, 2
  {
    var k := SkipSpace(s, i + 1);
    if CharAt(s, k) == '}' then Some((Object([]), k + 1))
    else
      var members := MembersAt(s, k);
      if members.None? then None else Some((Object(EmplaceAll([], members.value.0)), members.value.1))
  }

  function ArrayHere(s: string, i: nat): (r: Option<(Value, nat)>)
    requires i < |s|
    ensures r.Some? ==> i < r.value.1 <= |s|
    decreases |s| - i, 2
  {
    var k := SkipSpace(s, i + 1);
    if CharAt(s, k) == ']' then Some((Array([]), k + 1))
    else
      var elements := ElementsAt(s, k);
      if elements.None? then None else Some((Array(elements.value.0), elements.value.1))
  }

  /** Key and value of one member, with the position behind the value. */
  function MemberAt(s: string, i: nat): (r: Option<(Member, nat)>)
    requires i <= |s|
    ensures r.Some? ==> i < r.value.1 <= |s|
    decreases |s| - i, 0
  {
    var key := StringAt(s, SkipSpace(s, i));
    if key.None? then None
    else
      var colon := SkipSpace(s, key.value.1);
      if colon == |s| || s[colon] != ':' then None
      else
        var value := ValueAt(s, colon + 1);
        if value.None? then None else Some((Member(key.value.0, value.value.0), value.value.1))
  }

  /** Members up to and past the closing brace, in the order they stand. */
  function MembersAt(s: string, i: nat): (r: Option<(seq<Member>, nat)>)
    requires i <= |s|
    ensures r.Some? ==> i < r.value.1 <= |s|
    decreases |s| - i, 1
  {
    var m := MemberAt(s, i);
    if m.None? then None
    else
      var mark := MarkAt(s, m.value.1, '}');
      if mark.None? then None
      else if mark.value.0 then Some(([m.value.0], mark.value.1))
      else
        var rest := MembersAt(s, mark.value.1);
        if rest.None? then None else Some(([m.value.0] + rest.value.0, rest.value.1))
  }

  /** Elements up to and past the closing bracket. */
  function ElementsAt(s: string, i: nat): (r: Option<(seq<Value>, nat)>)
    requires i <= |s|
    ensures r.Some? ==> i < r.value.1 <= |s|
    decreases |s| - i, 5
  {
    var v := ValueAt(s, i);
    if v.None? then None
    else
      var mark := MarkAt(s, v.value.1, ']');
      if mark.None? then None
      else if mark.value.0 then Some(([v.value.0], mark.value.1))
      else
        var rest := ElementsAt(s, mark.value.1);
        if rest.None? then None else Some(([v.value.0] + rest.value.0, rest.value.1))
  }

  /** A whole document: one value and nothing but space around it. */
  function Document(s: string): Option<Value> {
    var v := ValueAt(s, SkipSpace(s, 0));
    if v.None? || SkipSpace(s, v.value.1) != |s| then None else Some(v.value.0)
  }

  // ---------------------------------------------------------------- the reader

  /** The whole is what was read followed by what is still to be read. */
  ghost predicate Continues<T(!new)>(whole: Option<(seq<T>, nat)>, read: seq<T>, rest: Option<(seq<T>, nat)>) {
    if rest.None? then whole.None? else whole == Some((read + rest.value.0, rest.value.1))
  }

  lemma ContinuesStart<T(!new)>(whole: Option<(seq<T>, nat)>)
    ensures Continues(whole, [], whole)
  {
    if whole.Some? { assert [] + whole.value.0 == whole.value.0; }
  }

  lemma ContinuesStep<T(!new)>(whole: Option<(seq<T>, nat)>, read: seq<T>, rest: Option<(seq<T>, nat)>, item: T,
                               next: Option<(seq<T>, nat)>)
    requires Continues(whole, read, rest)
    requires rest == if next.None? then None else Some(([item] + next.value.0, next.value.1))
    ensures Continues(whole, read + [item], next)
  {
    if next.Some? { assert read + ([item] + next.value.0) == (read + [item]) + next.value.0; }
  }

  /** The members kept are those of what was read, and reading goes on. */
  ghost predicate Collected(whole: Option<(seq<Member>, nat)>, read: seq<Member>, members: seq<Member>,
                            rest: Option<(seq<Member>, nat)>)
  {
    Continues(whole, read, rest) && members == EmplaceAll([], read)
  }

  lemma CollectedStep(whole: Option<(seq<Member>, nat)>, read: seq<Member>, members: seq<Member>,
                      rest: Option<(seq<Member>, nat)>, m: Member, next: Option<(seq<Member>, nat)>)
    requires Collected(whole, read, members, rest)
    requires rest == if next.None? then None else Some(([m] + next.value.0, next.value.1))
    ensures Collected(whole, read + [m], Emplace(members, m), next)
  {
    ContinuesStep(whole, read, rest, m, next);
    EmplaceSnoc([], read, m);
  }

  lemma CollectedLast(whole: Option<(seq<Member>, nat)>, read: seq<Member>, members: seq<Member>,
                      rest: Option<(seq<Member>, nat)>, m: Member, end: nat)
    requires Collected(whole, read, members, rest) && rest == Some(([m], end))
    ensures whole == Some((read + [m], end)) && EmplaceAll([], read + [m]) == Emplace(members, m)
  {
    EmplaceSnoc([], read, m);
  }

  lemma ReadNextDigit(digits: string, i: nat, value: nat)
    requires i < |digits| && value < 0x1000
    ensures var digit := DigitValue(digits[i]);
            ReadDigits(digits[i..], 16, value)
            == if digit < 0 || digit >= 16 then None else ReadDigits(digits[i + 1..], 16, value * 16 + digit)
  {
    assert digits[i..][1..] == digits[i + 1..];
  }

  class JsonParser {
    const input: string
    var pos: nat

    ghost predicate Valid()
      reads this
    {
      pos <= |input|
    }

    constructor (input: string)
      ensures Valid() && this.input == input && pos == 0
    {
      this.input := input;
      pos := 0;
    }

    function Peek(): char
      reads this
    {
      CharAt(input, pos)
    }

    method SkipWhitespace()
      requires Valid()
      modifies this
      ensures Valid() && pos == SkipSpace(input, old(pos))
    {
      while pos < |input| && IsSpace(input[pos])
        invariant Valid() && SkipSpace(input, pos) == SkipSpace(input, old(pos))
      {
        pos := pos + 1;
      }
    }

    method Match(word: string) returns (matched: bool)
      requires Valid()
      modifies this
      ensures Valid() && matched == Matches(input, old(pos), word)
      ensures pos == if matched then old(pos) + |word| else old(pos)
    {
      matched := pos + |word| <= |input| && input[pos..pos + |word|] == word;
      if matched {
        pos := pos + |word|;
      }
    }

    method ParseUnicodeEscape() returns (r: Option<char>)
      requires Valid()
      modifies this
      ensures Valid() && r == UnicodeAt(input, old(pos)) && (r.Some? ==> pos == old(pos) + 4)
    {
      if pos + 4 > |input| {
        return None;
      }
      ghost var digits := input[pos..pos + 4];
      var value: nat := 0;
      for i := 0 to 4
        invariant pos == old(pos) + i && pos + (4 - i) <= |input|
        invariant (i == 0 ==> value == 0) && (i <= 1 ==> value < 0x10) && (i <= 2 ==> value < 0x100)
        invariant (i <= 3 ==> value < 0x1000) && value < 0x1_0000
        invariant ReadDigits(digits, 16, 0) == ReadDigits(digits[i..], 16, value)
      {
        var digit := DigitValue(input[pos]);
        assert digits[i] == input[pos];
        ReadNextDigit(digits, i, value);
        if digit < 0 || digit >= 16 {
          return None;
        }
        value := value * 16 + digit;
        pos := pos + 1;
      }
      r := Some(if value < 0x80 then value as char else '?');
    }

    method ParseString() returns (r: Option<string>)
      requires Valid()
      modifies this
      ensures Valid()
      ensures var spec := StringAt(input, old(pos));
              if spec.None? then r.None? else r == Some(spec.value.0) && pos == spec.value.1
    {
      if Peek() != '"' {
        return None;
      }
      pos := pos + 1;
      ghost var start := pos;
      var out := "";
      ContinuesStart(StringRestAt(input, start));
      while pos < |input|
        invariant start <= pos && Valid()
        invariant Continues(StringRestAt(input, start), out, StringRestAt(input, pos))
      {
        ghost var rest := StringRestAt(input, pos);
        var ch := input[pos];
        pos := pos + 1;
        if ch == '"' {
          assert out + "" == out;
          return Some(out);
        }
        if ch == '\\' {
          if pos >= |input| {
            return None;
          }
          var esc := input[pos];
          pos := pos + 1;
          var unescaped := SimpleEscape(esc);
          if esc == 'u' {
            unescaped := ParseUnicodeEscape();
          }
          if unescaped.None? {
            return None;
          }
          ch := unescaped.value;
        }
        ContinuesStep(StringRestAt(input, start), out, rest, ch, StringRestAt(input, pos));
        out := out + [ch];
      }
      r := None;
    }

    method ParseNumber() returns (r: Option<int>)
      requires Valid()
      modifies this
      ensures Valid()
      ensures var spec := NumberAt(input, old(pos));
              if spec.None? then r.None? else r == Some(spec.value.0) && pos == spec.value.1
    {
      var negative := Peek() == '-';
      if negative {
        pos := pos + 1;
      }
      var start := pos;
      while pos < |input| && IsDigit(input[pos])
        invariant start <= pos && Valid() && DigitsEnd(input, pos) == DigitsEnd(input, start)
      {
        pos := pos + 1;
      }
      if pos == start {
        return None;
      }
      assert forall c | c in input[start..pos] :: IsDigit(c);
      var magnitude: int := Decimal(input[start..pos]);
      var n := if negative then -magnitude else magnitude;
      if n < INT64_MIN || n > INT64_MAX {
        return None;
      }
      r := Some(n);
    }

    /** The closing mark or the comma behind an item. */
    method ParseMark(close: char) returns (r: Option<bool>)
      requires Valid()
      modifies this
      ensures Valid()
      ensures var spec := MarkAt(input, old(pos), close);
              if spec.None? then r.None? else r == Some(spec.value.0) && pos == spec.value.1
    {
      SkipWhitespace();
      if pos == |input| || (input[pos] != close && input[pos] != ',') {
        return None;
      }
      r := Some(input[pos] == close);
      pos := pos + 1;
    }

    method ParseValue() returns (r: Option<Value>)
      requires Valid()
      modifies this
      ensures Valid()
      ensures var spec := ValueAt(input, old(pos));
              if spec.None? then r.None? else r == Some(spec.value.0) && pos == spec.value.1
      decreases |input| - pos, 1
    {
      SkipWhitespace();
      var matched := Match("null");
      if matched {
        return Some(Null);
      }
      matched := Match("true");
      if matched {
        return Some(Bool(true));
      }
      matched := Match("false");
      if matched {
        return Some(Bool(false));
      }
      var ch := Peek();
      if ch == '{' {
        r := ParseObject();
      } else if ch == '[' {
        r := ParseArray();
      } else if ch == '"' {
        var text := ParseString();
        r := if text.None? then None else Some(String(text.value));
      } else if ch == '-' || IsDigit(ch) {
        var number := ParseNumber();
        r := if number.None? then None else Some(Number(number.value));
      } else {
        r := None;
      }
    }

    method ParseObject() returns (r: Option<Value>)
      requires Valid() && pos < |input| && input[pos] == '{'
      modifies this
      ensures Valid()
      ensures var spec := ObjectHere(input, old(pos));
              if spec.None? then r.None? else r == Some(spec.value.0) && pos == spec.value.1
      decreases |input| - pos, 0
    {
      pos := pos + 1;
      SkipWhitespace();
      if Peek() == '}' {
        pos := pos + 1;
        return Some(Object([]));
      }
      var members := ParseMembers();
      r := if members.None? then None else Some(Object(members.value));
    }

    method ParseMember() returns (r: Option<Member>)
      requires Valid()
      modifies this
      ensures Valid()
      ensures var spec := MemberAt(input, old(pos));
              if spec.None? then r.None? else r == Some(spec.value.0) && pos == spec.value.1
      decreases |input| - pos, 0
    {
      SkipWhitespace();
      var key := ParseString();
      if key.None? {
        return None;
      }
      SkipWhitespace();
      if pos == |input| || input[pos] != ':' {
        return None;
      }
      pos := pos + 1;
      var value := ParseValue();
      if value.None? {
        return None;
      }
      r := Some(Member(key.value, value.value));
    }

    /** The members of an object up to and past its closing brace; the first of equal keys is kept. */
    method ParseMembers() returns (r: Option<seq<Member>>)
      requires Valid()
      modifies this
      ensures Valid()
      ensures var spec := MembersAt(input, old(pos));
              if spec.None? then r.None? else r == Some(EmplaceAll([], spec.value.0)) && pos == spec.value.1
      decreases |input| - pos, 1
    {
      ghost var whole := MembersAt(input, pos);
      ghost var read: seq<Member> := [];
      var members: seq<Member> := [];
      ContinuesStart(whole);
      while true
        invariant old(pos) <= pos && Valid()
        invariant Collected(whole, read, members, MembersAt(input, pos))
        decreases |input| - pos
      {
        ghost var rest := MembersAt(input, pos);
        var m := ParseMember();
        if m.None? {
          return None;
        }
        ghost var before := members;
        members := Emplace(members, m.value);
        var closed := ParseMark('}');
        if closed.None? {
          return None;
        }
        if closed.value {
          CollectedLast(whole, read, before, rest, m.value, pos);
          return Some(members);
        }
        CollectedStep(whole, read, before, rest, m.value, MembersAt(input, pos));
        read := read + [m.value];
      }
    }

    method ParseArray() returns (r: Option<Value>)
      requires Valid() && pos < |input| && input[pos] == '['
      modifies this
      ensures Valid()
      ensures var spec := ArrayHere(input, old(pos));
              if spec.None? then r.None? else r == Some(spec.value.0) && pos == spec.value.1
      decreases |input| - pos, 0
    {
      pos := pos + 1;
      SkipWhitespace();
      if Peek() == ']' {
        pos := pos + 1;
        return Some(Array([]));
      }
      var elements := ParseElements();
      r := if elements.None? then None else Some(Array(elements.value));
    }

    /** The elements of an array up to and past its closing bracket. */
    method ParseElements() returns (r: Option<seq<Value>>)
      requires Valid()
      modifies this
      ensures Valid()
      ensures var spec := ElementsAt(input, old(pos));
              if spec.None? then r.None? else r == Some(spec.value.0) && pos == spec.value.1
      decreases |input| - pos, 2
    {
      ghost var whole := ElementsAt(input, pos);
      var elements: seq<Value> := [];
      ContinuesStart(whole);
      while true
        invariant old(pos) <= pos && Valid()
        invariant Continues(whole, elements, ElementsAt(input, pos))
        decreases |input| - pos
      {
        ghost var rest := ElementsAt(input, pos);
        var value := ParseValue();
        if value.None? {
          return None;
        }
        var closed := ParseMark(']');
        if closed.None? {
          return None;
        }
        if closed.value {
          return Some(elements + [value.value]);
        }
        ContinuesStep(whole, elements, rest, value.value, ElementsAt(input, pos));
        elements := elements + [value.value];
      }
    }

    method Parse() returns (r: Option<Value>)
      requires Valid() && pos == 0
      modifies this
      ensures r == Document(input)
    {
      SkipWhitespace();
      r := ParseValue();
      if r.None? {
        return;
      }
      SkipWhitespace();
      if pos != |input| {
        r := None;
      }
    }
  }

  lemma {:induction false} EmplaceSnoc(members: seq<Member>, more: seq<Member>, m: Member)
    ensures EmplaceAll(members, more + [m]) == Emplace(EmplaceAll(members, more), m)
    decreases |more|
  {
    if more == [] {
      assert ([] + [m])[1..] == [];
    } else {
      assert (more + [m])[1..] == more[1..] + [m];
      EmplaceSnoc(Emplace(members, more[0]), more[1..], m);
    }
  }
}
