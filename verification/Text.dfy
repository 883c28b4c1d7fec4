/** Characters, case folding and hexadecimal digits as the assembler and the disassembler use them. */
module Text {
  import opened Bits
  import opened Wrappers

  /** `part` is what `whole` holds from `index` on. */
  predicate StandsAt<T(==)>(whole: seq<T>, index: nat, part: seq<T>) {
    index + |part| <= |whole| && forall k | 0 <= k < |part| :: whole[index + k] == part[k]
  }

  lemma StandsSplit<T>(whole: seq<T>, index: nat, a: seq<T>, b: seq<T>)
    requires StandsAt(whole, index, a + b)
    ensures StandsAt(whole, index, a) && StandsAt(whole, index + |a|, b)
  {
    forall k | 0 <= k < |a| ensures whole[index + k] == a[k] {
      assert (a + b)[k] == a[k];
    }
    forall k | 0 <= k < |b| ensures whole[index + |a| + k] == b[k] {
      assert whole[index + (|a| + k)] == (a + b)[|a| + k];
    }
  }

  lemma StandsAfter<T>(whole: seq<T>, index: nat, a: seq<T>, b: seq<T>, after: nat)
    requires StandsAt(whole, index, a + b) && after == index + |a|
    ensures StandsAt(whole, after, b)
  {
    StandsSplit(whole, index, a, b);
  }

  lemma Regroup(a: string, b: string, c: string)
    ensures (a + b) + c == a + (b + c)
  {
  }

  /** The character at a position, NUL past the end. */
  function CharAt(s: string, i: nat): char {
    if i < |s| then s[i] else '\0'
  }

  predicate IsDigit(c: char) {
    '0' <= c <= '9'
  }

  predicate IsLetter(c: char) {
    'a' <= c <= 'z' || 'A' <= c <= 'Z'
  }

  predicate IsAlnum(c: char) {
    IsLetter(c) || IsDigit(c)
  }

  predicate IsIdentifierStart(c: char) {
    IsLetter(c) || c == '_'
  }

  predicate IsIdentifierChar(c: char) {
    IsAlnum(c) || c == '_'
  }

  function LowerChar(c: char): (r: char)
    ensures IsIdentifierStart(c) <==> IsIdentifierStart(r)
    ensures IsIdentifierChar(c) <==> IsIdentifierChar(r)
  {
    if 'A' <= c <= 'Z' then (c as int + 32) as char else c
  }

  function Lower(s: string): (r: string)
    ensures |r| == |s|
    ensures forall i | 0 <= i < |s| :: r[i] == LowerChar(s[i])
  {
    if s == "" then "" else [LowerChar(s[0])] + Lower(s[1..])
  }

  lemma LowerTwice(s: string)
    ensures Lower(Lower(s)) == Lower(s)
  {
    assert forall i | 0 <= i < |s| :: Lower(Lower(s))[i] == Lower(s)[i];
  }

  // ---------------------------------------------------------------- hexadecimal

  function HexDigit(d: nat): (c: char)
    requires d < 16
    ensures IsAlnum(c)
  {
    if d < 10 then ('0' as int + d) as char else ('A' as int + (d - 10)) as char
  }

  function HexByte(v: byte): (s: string)
    ensures |s| == 2
  {
    [HexDigit(v / 16), HexDigit(v % 16)]
  }

  function HexWord(v: word): (s: string)
    ensures |s| == 4
  {
    HexByte(v / 0x100) + HexByte(v % 0x100)
  }

  /** Value of a digit character in any base up to sixteen, -1 for anything else. */
  function DigitValue(c: char): int {
    if '0' <= c <= '9' then c as int - '0' as int
    else if 'a' <= c <= 'f' then 10 + (c as int - 'a' as int)
    else if 'A' <= c <= 'F' then 10 + (c as int - 'A' as int)
    else -1
  }

  lemma DigitOfHexDigit(d: nat)
    requires d < 16
    ensures DigitValue(HexDigit(d)) == d
  {
  }

  /** The digits read on from `parsed`, in unsigned 32-bit arithmetic; `None` at a bad digit. */
  function ReadDigits(s: string, base: nat, parsed: nat): Option<nat> {
    if s == "" then Some(parsed)
    else
      var digit := DigitValue(s[0]);
      if digit < 0 || digit >= base then None
      else ReadDigits(s[1..], base, (parsed * base + digit) % 0x1_0000_0000)
  }

  lemma ReadOneDigit(d: nat, rest: string, parsed: nat)
    requires d < 16 && parsed < 0x1000
    ensures ReadDigits([HexDigit(d)] + rest, 16, parsed) == ReadDigits(rest, 16, parsed * 16 + d)
  {
    DigitOfHexDigit(d);
    assert ([HexDigit(d)] + rest)[1..] == rest;
  }

  lemma ReadTwoDigits(v: byte, rest: string, parsed: nat)
    requires parsed < 0x100
    ensures ReadDigits(HexByte(v) + rest, 16, parsed) == ReadDigits(rest, 16, parsed * 0x100 + v)
  {
    var high, low := v / 16, v % 16;
    assert HexByte(v) + rest == [HexDigit(high)] + ([HexDigit(low)] + rest);
    ReadOneDigit(high, [HexDigit(low)] + rest, parsed);
    ReadOneDigit(low, rest, parsed * 16 + high);
    assert (parsed * 16 + high) * 16 + low == parsed * 0x100 + v;
  }

  /** Reading a printed byte gives the byte back. */
  lemma ReadHexByte(v: byte)
    ensures ReadDigits(HexByte(v), 16, 0) == Some(v)
  {
    ReadTwoDigits(v, "", 0);
    assert HexByte(v) + "" == HexByte(v);
  }

  /** Reading a printed word gives the word back. */
  lemma ReadHexWord(v: word)
    ensures ReadDigits(HexWord(v), 16, 0) == Some(v)
  {
    ReadTwoDigits(v / 0x100, HexByte(v % 0x100), 0);
    ReadTwoDigits(v % 0x100, "", v / 0x100);
    assert HexByte(v % 0x100) + "" == HexByte(v % 0x100);
  }
}
