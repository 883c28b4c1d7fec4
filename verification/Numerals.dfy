/** What number literals mean. */
module Numerals {
  import opened Wrappers
  import opened Text
  import opened Lexer

  // ---------------------------------------------------------------- positional notation

  const SMALL_DIGITS := "0123456789abcdef"
  const LARGE_DIGITS := "0123456789ABCDEF"

  /** The text spells the digits, in letters of either case. */
  predicate SpellsDigits(text: string, digits: seq<nat>, base: nat) {
    && |text| == |digits| && base <= 16
    && forall k | 0 <= k < |digits| ::
         digits[k] < base && (text[k] == SMALL_DIGITS[digits[k]] || text[k] == LARGE_DIGITS[digits[k]])
  }

  /** The value of digits behind a number: 12 before [3, 4] is 1234 in base ten. */
  function Behind(value: nat, digits: seq<nat>, base: nat): nat
    decreases |digits|
  {
    if digits == [] then value else Behind(value * base + digits[0], digits[1..], base)
  }

  /** The last digit counts once, all others one place higher. */
  lemma {:induction false} LastDigitCountsOnce(value: nat, digits: seq<nat>, base: nat, last: nat)
    ensures Behind(value, digits + [last], base) == Behind(value, digits, base) * base + last
    decreases |digits|
  {
    if digits == [] {
      assert [last][1..] == [];
    } else {
      assert (digits + [last])[1..] == digits[1..] + [last];
      LastDigitCountsOnce(value * base + digits[0], digits[1..], base, last);
    }
  }

  lemma DigitReads(c: char, d: nat)
    requires d < 16 && (c == SMALL_DIGITS[d] || c == LARGE_DIGITS[d])
    ensures DigitValue(c) == d && IsAlnum(c)
  {
  }

  lemma OneMoreDigit(value: nat, base: nat, d: nat)
    ensures ((value % 0x1_0000_0000) * base + d) % 0x1_0000_0000 == (value * base + d) % 0x1_0000_0000
  {
    var q, r := value / 0x1_0000_0000, value % 0x1_0000_0000;
    assert value * base + d == (q * base) * 0x1_0000_0000 + (r * base + d) by {
      assert value * base == (q * 0x1_0000_0000 + r) * base == q * 0x1_0000_0000 * base + r * base;
    }
    WholeTurns(q * base, r * base + d);
  }

  lemma {:induction false} WholeTurns(turns: nat, rest: nat)
    ensures (turns * 0x1_0000_0000 + rest) % 0x1_0000_0000 == rest % 0x1_0000_0000
  {
    if turns > 0 { WholeTurns(turns - 1, rest); }
  }

  lemma ReadFirst(text: string, d: nat, base: nat, value: nat, next: nat)
    requires text != "" && d < base <= 16 && DigitValue(text[0]) == d && next == value * base + d
    ensures ReadDigits(text, base, value % 0x1_0000_0000) == ReadDigits(text[1..], base, next % 0x1_0000_0000)
  {
    OneMoreDigit(value, base, d);
  }

  /** Digits are read in 32-bit arithmetic. */
  lemma {:induction false} DigitsRead32(text: string, digits: seq<nat>, base: nat, value: nat)
    requires SpellsDigits(text, digits, base)
    ensures ReadDigits(text, base, value % 0x1_0000_0000) == Some(Behind(value, digits, base) % 0x1_0000_0000)
    decreases |text|
  {
    if text != "" {
      var next := value * base + digits[0];
      DigitReads(text[0], digits[0]);
      DigitsRead32(text[1..], digits[1..], base, next);
      ReadFirst(text, digits[0], base, value, next);
    }
  }

  /** The prefixes of a literal and the base each announces. */
  predicate Announces(prefix: string, base: nat) {
    || (base == 16 && prefix in ["$", "0x", "0X"])
    || (base == 2 && prefix in ["%", "0b", "0B"])
    || (base == 10 && prefix == "")
  }

  lemma PlainDigits(text: string, digits: seq<nat>)
    requires SpellsDigits(text, digits, 10)
    ensures forall c | c in text :: IsDigit(c)
  {
    forall k | 0 <= k < |text| ensures IsDigit(text[k]) {
      assert digits[k] < 10;
    }
  }

  lemma PlainValue(value: string)
    requires value != "" && forall c | c in value :: IsDigit(c)
    ensures value[0] != '#' && NumberValue(value) == ReadAll(value, 10)
    ensures NumberValue("#" + value) == ReadAll(value, 10)
  {
    assert ("#" + value)[1..] == value && value[0] in value;
    if |value| > 1 { assert value[1] in value; }
  }

  lemma MarkedValue(value: string, base: nat)
    requires |value| > 1 && Announces(value[..1], base) && base != 10
    ensures value[0] != '#' && NumberValue(value) == ReadAll(value[1..], base)
    ensures NumberValue("#" + value) == ReadAll(value[1..], base)
  {
    var mark := value[..1];
    assert mark[0] == value[0] && ("#" + value)[1..] == value;
  }

  lemma LetteredValue(value: string, base: nat)
    requires |value| > 2 && Announces(value[..2], base)
    ensures value[0] != '#' && NumberValue(value) == ReadAll(value[2..], base)
    ensures NumberValue("#" + value) == ReadAll(value[2..], base)
  {
    var prefix := value[..2];
    assert prefix[0] == value[0] && prefix[1] == value[1] && ("#" + value)[1..] == value;
  }

  lemma PrefixedValue(prefix: string, text: string, digits: seq<nat>, base: nat)
    requires Announces(prefix, base) && SpellsDigits(text, digits, base) && text != ""
    ensures NumberValue(prefix + text) == ReadAll(text, base)
    ensures NumberValue("#" + (prefix + text)) == ReadAll(text, base)
  {
    var value := prefix + text;
    assert value[..|prefix|] == prefix && value[|prefix|..] == text;
    if |prefix| == 0 {
      PlainDigits(text, digits);
      assert value == text;
      PlainValue(text);
    } else if |prefix| == 1 {
      MarkedValue(value, base);
    } else {
      LetteredValue(value, base);
    }
  }

  /** A literal means the number it spells: decimal without prefix, hexadecimal behind `$` or `0x`, binary behind
      `%` or `0b`, with or without `#`, modulo 2^32; so every number below 2^32 reads as itself. */
  lemma LiteralMeansItsDigits(prefix: string, text: string, digits: seq<nat>, base: nat)
    requires Announces(prefix, base) && SpellsDigits(text, digits, base) && text != ""
    ensures NumberValue(prefix + text) == Some(Behind(0, digits, base) % 0x1_0000_0000)
    ensures NumberValue("#" + (prefix + text)) == Some(Behind(0, digits, base) % 0x1_0000_0000)
  {
    PrefixedValue(prefix, text, digits, base);
    DigitsRead32(text, digits, base, 0);
  }

  predicate Base(base: nat) {
    base == 2 || base == 10 || base == 16
  }

  function Quotient(n: nat, base: nat): (q: nat)
    requires Base(base)
    ensures n > 0 ==> q < n
  {
    if base == 2 then n / 2 else if base == 10 then n / 10 else n / 16
  }

  function Remainder(n: nat, base: nat): (r: nat)
    requires Base(base)
    ensures r < base && n == Quotient(n, base) * base + r
  {
    if base == 2 then n % 2 else if base == 10 then n % 10 else n % 16
  }

  /** The digits of a number. */
  function DigitsOf(n: nat, base: nat): (digits: seq<nat>)
    requires Base(base)
    ensures digits != [] && forall k | 0 <= k < |digits| :: digits[k] < base
  {
    if n < base then [n] else DigitsOf(Quotient(n, base), base) + [Remainder(n, base)]
  }

  /** They spell it. */
  lemma {:induction false} DigitsSpell(n: nat, base: nat)
    requires Base(base)
    ensures Behind(0, DigitsOf(n, base), base) == n
  {
    if n < base {
      assert [n][1..] == [];
    } else {
      DigitsSpell(Quotient(n, base), base);
      LastDigitCountsOnce(0, DigitsOf(Quotient(n, base), base), base, Remainder(n, base));
    }
  }

  function Numeral(digits: seq<nat>): (text: string)
    requires forall k | 0 <= k < |digits| :: digits[k] < 16
    ensures |text| == |digits| && forall k | 0 <= k < |digits| :: text[k] == SMALL_DIGITS[digits[k]]
  {
    seq(|digits|, k requires 0 <= k < |digits| => SMALL_DIGITS[digits[k]])
  }

  lemma SpelledReadsBack(digits: seq<nat>, n: nat, prefix: string, base: nat)
    requires n < 0x1_0000_0000 && Announces(prefix, base) && digits != [] && Behind(0, digits, base) == n
    requires forall k | 0 <= k < |digits| :: digits[k] < base
    ensures NumberValue(prefix + Numeral(digits)) == Some(n)
    ensures NumberValue("#" + (prefix + Numeral(digits))) == Some(n)
  {
    LiteralMeansItsDigits(prefix, Numeral(digits), digits, base);
    Below32(n);
  }

  lemma Below32(n: nat)
    requires n < 0x1_0000_0000
    ensures n % 0x1_0000_0000 == n
  {
  }

  /** Every number below 2^32, written in one of the three bases behind a prefix of that base, reads as itself. */
  lemma NumeralReadsBack(n: nat, prefix: string, base: nat)
    requires n < 0x1_0000_0000 && Announces(prefix, base)
    ensures NumberValue(prefix + Numeral(DigitsOf(n, base))) == Some(n)
    ensures NumberValue("#" + (prefix + Numeral(DigitsOf(n, base)))) == Some(n)
  {
    DigitsSpell(n, base);
    SpelledReadsBack(DigitsOf(n, base), n, prefix, base);
  }
}
