/** Printing debug information as JSON, and loading it back. */
module DebugJson {
  import opened Bits
  import opened Wrappers
  import opened Text
  import opened Json
  import opened JsonText
  import opened DebugSymbols

  /** What the assembler knows when it prints. */
  datatype Debug = Debug(version: string, cartridgeVersion: word, entry: word, romSize: uint32, sourceRoot: string,
                         sourceFiles: seq<string>, symbols: map<string, word>, records: seq<Record>)

  // ---------------------------------------------------------------- numbers and addresses

  function IntText(n: int): string {
    if n < 0 then "-" + DecimalText(-n) else DecimalText(n)
  }

  function HexWordText(a: word): string {
    "0x" + HexText(a)
  }

  function AddressText(a: word): string {
    "\"" + HexWordText(a) + "\""
  }

  lemma NegativeNumber(s: string, i: nat, digits: nat, n: nat, end: nat)
    requires i < |s| && s[i] == '-' && digits == i + 1 && DigitsEnd(s, digits) == end > digits
    requires s[digits..end] == DecimalText(n) && 0 <= n <= INT64_MAX
    ensures ValueAt(s, i) == Some((Number(-(n as int)), end))
  {
    DecimalOfText(n);
    NoWord(s, i);
  }

  lemma MinusStands(s: string, i: nat, digits: string)
    requires StandsAt(s, i, "-" + digits)
    ensures i < |s| && s[i] == '-' && StandsAt(s, i + 1, digits)
  {
    StandsSplit(s, i, "-", digits);
    assert s[i + 0] == "-"[0];
  }

  lemma ReadNegative(s: string, i: nat, n: nat, digits: string)
    requires n <= INT64_MAX && digits == DecimalText(n)
    requires StandsAt(s, i, "-" + digits) && Delimited(s, i + 1 + |digits|)
    ensures ValueAt(s, i) == Some((Number(-(n as int)), i + 1 + |digits|))
  {
    var start, end := i + 1, i + 1 + |digits|;
    MinusStands(s, i, digits);
    DigitsStand(s, start, digits);
    NegativeNumber(s, i, start, n, end);
  }

  lemma NegativeReads(n: nat)
    requires n <= INT64_MAX
    ensures ReadsAs("-" + DecimalText(n), Number(-(n as int)))
  {
    var text := "-" + DecimalText(n);
    forall s: string, i: nat | StandsAt(s, i, text) && Delimited(s, i + |text|)
      ensures ValueAt(s, i) == Some((Number(-(n as int)), i + |text|))
    {
      ReadNegative(s, i, n, DecimalText(n));
    }
  }

  lemma IntReads(n: int)
    requires -INT64_MAX <= n <= INT64_MAX
    ensures ReadsAs(IntText(n), Number(n))
  {
    if n >= 0 {
      NumberReads(n);
    } else {
      NegativeReads(-n);
    }
  }

  lemma PlainChar(c: char)
    requires IsAlnum(c)
    ensures EscapeChar(c) == [c]
  {
  }

  lemma {:induction false} PlainEscape(s: string)
    requires forall c | c in s :: IsAlnum(c)
    ensures Escape(s) == s
  {
    if s != "" {
      assert s[|s| - 1] in s && forall c | c in s[..|s| - 1] :: c in s;
      PlainEscape(s[..|s| - 1]);
      PlainChar(s[|s| - 1]);
      assert s == s[..|s| - 1] + [s[|s| - 1]];
    }
  }

  lemma AddressReads(a: word)
    ensures ReadsAs(AddressText(a), String(HexWordText(a)))
  {
    assert forall c | c in HexWordText(a) :: c in "0x" || c in HexText(a);
    PlainEscape(HexWordText(a));
    QuoteReads(HexWordText(a));
  }

  // ---------------------------------------------------------------- reading hexadecimal words back

  lemma LowDigitValue(d: nat)
    requires d < 16
    ensures DigitValue(LowHexDigit(d)) == d && LowHexDigit(d) != 'x' && LowHexDigit(d) != 'X'
    ensures !IsCSpace(LowHexDigit(d)) && LowHexDigit(d) != '-' && LowHexDigit(d) != '+'
  {
  }

  predicate LowHex(s: string) {
    forall k | 0 <= k < |s| :: exists d: nat | d < 16 :: s[k] == LowHexDigit(d)
  }

  lemma {:induction false} HexTextIsLow(n: nat)
    ensures LowHex(HexText(n))
  {
    if n >= 16 { HexTextIsLow(n / 16); }
  }

  lemma LowHexChars(s: string)
    requires LowHex(s)
    ensures forall k | 0 <= k < |s| :: DigitValue(s[k]) >= 0 && s[k] != 'x' && s[k] != 'X' && !IsCSpace(s[k])
                                       && s[k] != '-' && s[k] != '+'
  {
    forall k | 0 <= k < |s|
      ensures DigitValue(s[k]) >= 0 && s[k] != 'x' && s[k] != 'X' && !IsCSpace(s[k]) && s[k] != '-' && s[k] != '+'
    {
      var d: nat :| d < 16 && s[k] == LowHexDigit(d);
      LowDigitValue(d);
    }
  }

  lemma {:induction false} HexNumberOfText(n: nat)
    ensures forall k | 0 <= k < |HexText(n)| :: DigitValue(HexText(n)[k]) >= 0
    ensures HexNumber(HexText(n)) == n
  {
    HexTextIsLow(n);
    LowHexChars(HexText(n));
    LowDigitValue(n % 16);
    if n < 16 {
      assert HexText(n)[..0] == "";
    } else {
      HexNumberOfText(n / 16);
      assert HexText(n)[..|HexText(n)| - 1] == HexText(n / 16);
    }
  }

  lemma {:induction false} HexRunAll(s: string, i: nat)
    requires i <= |s| && forall k | i <= k < |s| :: DigitValue(s[k]) >= 0
    ensures HexRunEnd(s, i) == |s|
    decreases |s| - i
  {
    if i < |s| { HexRunAll(s, i + 1); }
  }

  lemma StoulOfHex(n: nat)
    requires n < 0x1_0000_0000_0000_0000
    ensures StoulHex(HexText(n)) == Some(n)
  {
    var s := HexText(n);
    HexTextIsLow(n);
    LowHexChars(s);
    HexRunAll(s, 0);
    HexNumberOfText(n);
    assert CSpaceEnd(s, 0) == 0;
    assert CharAt(s, 1) != 'x' && CharAt(s, 1) != 'X';
    assert s[0..|s|] == s;
  }

  /** A printed address reads back as itself. */
  lemma AddressBack(a: word)
    ensures ParseHexWord(HexWordText(a)) == Some(a)
  {
    StoulOfHex(a);
    PrefixedWord(HexText(a), a);
  }

  lemma PrefixedWord(digits: string, a: word)
    requires StoulHex(digits) == Some(a)
    ensures ParseHexWord("0x" + digits) == Some(a)
  {
    assert ("0x" + digits)[2..] == digits;
    assert ("0x" + digits)[0] == "0x"[0] && ("0x" + digits)[1] == "0x"[1];
  }

  lemma AddressInjective(a: word, b: word)
    requires HexWordText(a) == HexWordText(b)
    ensures a == b
  {
    AddressBack(a);
    AddressBack(b);
  }
}
