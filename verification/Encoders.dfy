/** Control words and instruction-memory keys. */
module Encoders {
  import opened Wrappers
  import opened Bits
  import opened Hdl

  // ---------------------------------------------------------------- control words

  /** A control table the encoder accepts: the schematic's controls in visiting order, at most 128. */
  ghost predicate TableOk(table: seq<Control>) {
    |table| <= 128 && forall i, j | 0 <= i < j < |table| :: table[i] != table[j]
  }

  predicate Registered(table: seq<Control>, controls: seq<Control>) {
    forall c | c in controls :: c in table
  }

  /** Position of a registered control. */
  function IndexOf(table: seq<Control>, c: Control): (i: nat)
    requires c in table
    ensures i < |table| && table[i] == c
  {
    if table[0] == c then 0 else IndexOf(table[1..], c) + 1
  }

  function Word(table: seq<Control>, controls: seq<Control>): nat
    requires Registered(table, controls)
  {
    if controls == [] then 0
    else Or(Word(table, controls[..|controls| - 1]), Pow2(IndexOf(table, controls[|controls| - 1])))
  }

  method EncodeControls(table: seq<Control>, controls: seq<Control>) returns (r: Option<nat>)
    ensures r.Some? <==> Registered(table, controls)
    ensures r.Some? ==> r.value == Word(table, controls)
  {
    var word := 0;
    for i := 0 to |controls|
      invariant Registered(table, controls[..i]) && word == Word(table, controls[..i])
    {
      assert controls[..i + 1][..i] == controls[..i];
      if controls[i] !in table {
        return None;
      }
      word := Or(word, Pow2(IndexOf(table, controls[i])));
    }
    assert controls[..|controls|] == controls;
    return Some(word);
  }

  /** Bit `i` of the word says whether the `i`-th control of the table is asserted. */
  lemma {:induction false} BitOfWord(table: seq<Control>, controls: seq<Control>, i: nat)
    requires TableOk(table) && Registered(table, controls)
    ensures Bit(Word(table, controls), i) <==> i < |table| && table[i] in controls
  {
    if controls == [] {
      ZeroHasNoBits(i);
    } else {
      var n := |controls| - 1;
      BitOfWord(table, controls[..n], i);
      var index := IndexOf(table, controls[n]);
      BitOfOr(Word(table, controls[..n]), Pow2(index), i);
      BitOfPow2(index, i);
      assert controls == controls[..n] + [controls[n]];
    }
  }

  /** The word has no bit outside the table, so it fits in the table's width. */
  lemma WordFits(table: seq<Control>, controls: seq<Control>)
    requires TableOk(table) && Registered(table, controls)
    ensures Word(table, controls) < Pow2(|table|)
  {
    forall i: nat | |table| <= i ensures !Bit(Word(table, controls), i) {
      BitOfWord(table, controls, i);
    }
    FitsWhenHighBitsClear(Word(table, controls), |table|);
  }

  /** The controls a word asserts, in table order. */
  function Decoded(table: seq<Control>, word: nat): seq<Control> {
    if table == [] then []
    else
      var n := |table| - 1;
      var rest := Decoded(table[..n], word);
      if Bit(word, n) then rest + [table[n]] else rest
  }

  method DecodeWord(table: seq<Control>, word: nat) returns (controls: seq<Control>)
    ensures controls == Decoded(table, word)
  {
    controls := [];
    for i := 0 to |table|
      invariant controls == Decoded(table[..i], word)
    {
      assert table[..i + 1][..i] == table[..i];
      if Bit(word, i) {
        controls := controls + [table[i]];
      }
    }
    assert table[..|table|] == table;
  }

  lemma {:induction false} InDecoded(table: seq<Control>, word: nat, c: Control)
    ensures c in Decoded(table, word) <==> exists i: nat | i < |table| :: table[i] == c && Bit(word, i)
  {
    if table != [] {
      var n := |table| - 1;
      InDecoded(table[..n], word, c);
      if i: nat :| i < n && table[..n][i] == c && Bit(word, i) {
        assert table[i] == c;
      }
      if i: nat :| i < |table| && table[i] == c && Bit(word, i) {
        assert i < n ==> table[..n][i] == c;
      }
    }
  }

  /** Decoding the word of a control list gives back the same controls. */
  lemma DecodeUndoesEncode(table: seq<Control>, controls: seq<Control>)
    requires TableOk(table) && Registered(table, controls)
    ensures forall c :: c in Decoded(table, Word(table, controls)) <==> c in controls
  {
    var word := Word(table, controls);
    forall c ensures c in Decoded(table, word) <==> c in controls {
      InDecoded(table, word, c);
      if c in controls {
        var i := IndexOf(table, c);
        BitOfWord(table, controls, i);
      }
      if i: nat :| i < |table| && table[i] == c && Bit(word, i) {
        BitOfWord(table, controls, i);
      }
    }
  }

  lemma {:induction false} NoWordNoControls(table: seq<Control>)
    ensures Decoded(table, 0) == []
  {
    if table != [] {
      NoWordNoControls(table[..|table| - 1]);
      ZeroHasNoBits(|table| - 1);
    }
  }

  // ---------------------------------------------------------------- keys

  datatype MicrocodeKey = MicrocodeKey(opcode: byte, step: byte, status: byte)

  /** The packed key: opcode, step and status byte side by side. */
  function EncodeKey(key: MicrocodeKey): nat {
    key.opcode * 0x1_0000 + key.step * 0x100 + key.status
  }

  /** Packing by shifts and ors gives this sum, because the fields do not overlap. */
  lemma KeyIsPacked(key: MicrocodeKey)
    ensures EncodeKey(key) == Or(Or(Shl(key.opcode, 16), Shl(key.step, 8)), key.status)
  {
    Pow2Of8();
    Pow2Of16();
    ShlIsProduct(key.step, 8);
    ShlIsProduct(key.opcode, 16);
    OrOfShifted(key.opcode, 16, Shl(key.step, 8));
    ShlIsProduct(key.opcode * 0x100 + key.step, 8);
    OrOfShifted(key.opcode * 0x100 + key.step, 8, key.status);
  }

  function DecodeKey(encoded: nat): MicrocodeKey {
    MicrocodeKey(encoded / 0x1_0000 % 0x100, encoded / 0x100 % 0x100, encoded % 0x100)
  }

  /** Unpacking undoes packing, so different keys never share an address. */
  lemma DecodeUndoesEncodeKey(key: MicrocodeKey)
    ensures DecodeKey(EncodeKey(key)) == key
  {
    var e := EncodeKey(key);
    assert e / 0x100 == key.opcode * 0x100 + key.step;
    assert e / 0x1_0000 == key.opcode;
  }

  lemma KeyInjective(a: MicrocodeKey, b: MicrocodeKey)
    requires EncodeKey(a) == EncodeKey(b)
    ensures a == b
  {
    DecodeUndoesEncodeKey(a);
    DecodeUndoesEncodeKey(b);
  }
}
