/** Multi-byte arithmetic built from single ALU operations that hand the carry on. */
module AluChains {
  import opened Bits
  import opened AluUnit

  /** The ALU object: operands, result and the two flags it shares with the status register. */
  class AluDevice {
    var lhs: byte
    var rhs: byte
    var result: byte
    var carry: bool
    var overflow: bool

    function View(): Alu
      reads this
    {
      Alu.Alu(lhs, rhs, result, carry, overflow)
    }

    /** The process phase: the opcode bits select the operation; without any, nothing changes. */
    method TickProcess(bit0: bool, bit1: bool, bit2: bool, bit3: bool)
      modifies this`result, this`carry, this`overflow
      ensures View() == Operate(old(View()), OpcodeOf(bit0, bit1, bit2, bit3))
    {
      var opcode := 0;
      if bit0 { opcode := opcode + 1; }
      if bit1 { opcode := opcode + 2; }
      if bit2 { opcode := opcode + 4; }
      if bit3 { opcode := opcode + 8; }
      if opcode == 0 {
        return;
      }
      var carryIn := if carry then 1 else 0;
      var borrow := if carry then 0 else 1;
      match opcode {
        case 1 =>
          var sum := lhs + rhs + carryIn;
          result, carry := sum % 0x100, sum > 0xFF;
          overflow := (lhs >= 0x80) == (rhs >= 0x80) && (lhs >= 0x80) != (sum % 0x100 >= 0x80);
        case 2 =>
          var subtrahend := rhs + borrow;
          result, carry := (lhs - subtrahend) % 0x1_0000 % 0x100, lhs >= subtrahend;
        case 3 => result := (lhs + 1) % 0x100;
        case 4 => result, carry, overflow := BitwiseByte(0, lhs, rhs), false, false;
        case 5 => result, carry, overflow := BitwiseByte(1, lhs, rhs), false, false;
        case 6 => result, carry, overflow := BitwiseByte(2, lhs, rhs), false, false;
        case 7 => result, carry, overflow := 2 * lhs % 0x100, lhs >= 0x80, false;
        case 8 => result, carry, overflow := lhs / 2, lhs % 2 == 1, false;
        case 9 => result, carry, overflow := 2 * lhs % 0x100 + carryIn, lhs >= 0x80, false;
        case 10 => result, carry, overflow := lhs / 2 + 0x80 * carryIn, lhs % 2 == 1, false;
        case 11 => result := (lhs - 1) % 0x1_0000 % 0x100;
        case 12 => result := BitwiseByte(0, lhs, rhs);
        case _ =>
      }
    }
  }

  function OpcodeOf(bit0: bool, bit1: bool, bit2: bool, bit3: bool): nat {
    (if bit0 then 1 else 0) + (if bit1 then 2 else 0) + (if bit2 then 4 else 0) + (if bit3 then 8 else 0)
  }

  /** Result byte and carry of one operation; flags and result register before it are irrelevant but the carry. */
  function Apply(opcode: nat, lhs: byte, rhs: byte, carry: bool): (byte, bool) {
    var u := Operate(Alu.Alu(lhs, rhs, 0, carry, false), opcode);
    (u.result, u.carry)
  }

  // ---------------------------------------------------------------- little-endian numbers

  function Power256(n: nat): (r: nat)
    ensures r > 0
  {
    if n == 0 then 1 else 0x100 * Power256(n - 1)
  }

  function Number(bytes: seq<byte>): nat {
    if bytes == [] then 0 else bytes[0] + 0x100 * Number(bytes[1..])
  }

  function One(b: bool): nat {
    if b then 1 else 0
  }

  datatype Chained = Chained(bytes: seq<byte>, carry: bool)

  /** The operation on byte after byte from the least significant, the carry going along. */
  function FromLow(opcode: nat, a: seq<byte>, b: seq<byte>, carry: bool): (r: Chained)
    requires |a| == |b|
    ensures |r.bytes| == |a|
  {
    if a == [] then Chained([], carry)
    else
      var (byte0, carry0) := Apply(opcode, a[0], b[0], carry);
      var rest := FromLow(opcode, a[1..], b[1..], carry0);
      Chained([byte0] + rest.bytes, rest.carry)
  }

  /** The operation on byte after byte from the most significant. */
  function FromHigh(opcode: nat, a: seq<byte>, carry: bool): (r: Chained)
    ensures |r.bytes| == |a|
  {
    if a == [] then Chained([], carry)
    else
      var n := |a| - 1;
      var (top, carry0) := Apply(opcode, a[n], 0, carry);
      var rest := FromHigh(opcode, a[..n], carry0);
      Chained(rest.bytes + [top], rest.carry)
  }

  /** One byte of each chained operation. */
  lemma AddByte(a: byte, b: byte, carry: bool)
    ensures var (r, out) := Apply(1, a, b, carry); a + b + One(carry) == r + 0x100 * One(out)
  {
  }

  lemma SubByte(a: byte, b: byte, carry: bool)
    ensures var (r, out) := Apply(2, a, b, carry); a - b - One(!carry) == r - 0x100 * One(!out)
  {
    var difference := a - (b + One(!carry));
    if difference < 0 {
      assert difference % 0x1_0000 == difference + 0x1_0000;
      assert (difference + 0x1_0000) % 0x100 == difference + 0x100;
    }
  }

  lemma RolByte(a: byte, b: byte, carry: bool)
    ensures var (r, out) := Apply(9, a, b, carry); 2 * a + One(carry) == r + 0x100 * One(out)
  {
  }

  lemma RorByte(a: byte, carry: bool)
    ensures var (r, out) := Apply(10, a, 0, carry); a + 0x100 * One(carry) == 2 * r + One(out)
  {
  }

  /** Weight of a flag one place up. */
  lemma NextPlace(n: nat, flag: bool)
    requires n > 0
    ensures Power256(n) * One(flag) == 0x100 * (Power256(n - 1) * One(flag))
  {
  }

  lemma NumberOfCons(low: byte, high: seq<byte>)
    ensures Number([low] + high) == low + 0x100 * Number(high)
  {
    assert ([low] + high)[1..] == high;
  }

  /** Chained ADD is exact: A + B + c = R + 256^n c'. */
  lemma {:induction false} AddIsExact(a: seq<byte>, b: seq<byte>, carry: bool)
    requires |a| == |b|
    ensures var r := FromLow(1, a, b, carry);
            Number(a) + Number(b) + One(carry) == Number(r.bytes) + Power256(|a|) * One(r.carry)
  {
    if a != [] {
      var (byte0, carry0) := Apply(1, a[0], b[0], carry);
      AddByte(a[0], b[0], carry);
      AddIsExact(a[1..], b[1..], carry0);
      var rest := FromLow(1, a[1..], b[1..], carry0);
      NumberOfCons(byte0, rest.bytes);
      NextPlace(|a|, rest.carry);
    }
  }

  /** Chained SUB is exact: A - B - (1 - c) = R - 256^n (1 - c'). */
  lemma {:induction false} SubIsExact(a: seq<byte>, b: seq<byte>, carry: bool)
    requires |a| == |b|
    ensures var r := FromLow(2, a, b, carry);
            Number(a) - Number(b) - One(!carry) == Number(r.bytes) - Power256(|a|) * One(!r.carry)
  {
    if a != [] {
      var step := Apply(2, a[0], b[0], carry);
      SubByte(a[0], b[0], carry);
      SubIsExact(a[1..], b[1..], step.1);
      var rest := FromLow(2, a[1..], b[1..], step.1);
      assert FromLow(2, a, b, carry) == Chained([step.0] + rest.bytes, rest.carry);
      NumberOfCons(step.0, rest.bytes);
      NextPlace(|a|, !rest.carry);
    }
  }

  /** Chained ROL doubles: 2 A + c = R + 256^n c'. */
  lemma {:induction false} RolDoubles(a: seq<byte>, b: seq<byte>, carry: bool)
    requires |a| == |b|
    ensures var r := FromLow(9, a, b, carry);
            2 * Number(a) + One(carry) == Number(r.bytes) + Power256(|a|) * One(r.carry)
  {
    if a != [] {
      var (byte0, carry0) := Apply(9, a[0], b[0], carry);
      RolByte(a[0], b[0], carry);
      RolDoubles(a[1..], b[1..], carry0);
      var rest := FromLow(9, a[1..], b[1..], carry0);
      NumberOfCons(byte0, rest.bytes);
      NextPlace(|a|, rest.carry);
    }
  }

  lemma {:induction false} NumberOfSnoc(low: seq<byte>, top: byte)
    ensures Number(low + [top]) == Number(low) + Power256(|low|) * top
  {
    if low == [] {
      assert [top][1..] == [];
    } else {
      assert (low + [top])[1..] == low[1..] + [top];
      NumberOfSnoc(low[1..], top);
      assert Power256(|low|) * top == 0x100 * (Power256(|low| - 1) * top);
    }
  }

  /** The top place of a halving, weighted: (a + 256 c) p = (2 r + c') p. */
  lemma TopPlace(n: nat, a: byte, carry: bool, r: byte, out: bool)
    requires a + 0x100 * One(carry) == 2 * r + One(out)
    ensures Power256(n) * a + Power256(n + 1) * One(carry) == 2 * (Power256(n) * r) + Power256(n) * One(out)
  {
    var p := Power256(n);
    assert p * (a + 0x100 * One(carry)) == p * (2 * r + One(out));
  }

  /** Chained ROR from the top byte down halves: A + 256^n c = 2 R + c'. */
  lemma {:induction false} RorHalves(a: seq<byte>, carry: bool)
    ensures var r := FromHigh(10, a, carry);
            Number(a) + Power256(|a|) * One(carry) == 2 * Number(r.bytes) + One(r.carry)
  {
    if a != [] {
      var n := |a| - 1;
      var step := Apply(10, a[n], 0, carry);
      RorByte(a[n], carry);
      RorHalves(a[..n], step.1);
      var rest := FromHigh(10, a[..n], step.1);
      assert FromHigh(10, a, carry) == Chained(rest.bytes + [step.0], rest.carry);
      assert a == a[..n] + [a[n]];
      NumberOfSnoc(a[..n], a[n]);
      NumberOfSnoc(rest.bytes, step.0);
      TopPlace(n, a[n], carry, step.0, step.1);
    }
  }

  /** The numbers fit, so the carry out says exactly whether the true sum does. */
  lemma {:induction false} NumberFits(a: seq<byte>)
    ensures Number(a) < Power256(|a|)
  {
    if a != [] { NumberFits(a[1..]); }
  }

  /** Carry out of an addition is overflow of the width; carry out of a subtraction is "no borrow". */
  lemma CarryMeansOverflowOfWidth(a: seq<byte>, b: seq<byte>, carry: bool)
    requires |a| == |b|
    ensures FromLow(1, a, b, carry).carry <==> Number(a) + Number(b) + One(carry) >= Power256(|a|)
    ensures FromLow(2, a, b, carry).carry <==> Number(a) >= Number(b) + One(!carry)
  {
    var sum, difference := FromLow(1, a, b, carry), FromLow(2, a, b, carry);
    AddIsExact(a, b, carry);
    SubIsExact(a, b, carry);
    NumberFits(sum.bytes);
    NumberFits(difference.bytes);
    WeightOfFlag(Power256(|a|), sum.carry);
    WeightOfFlag(Power256(|a|), !difference.carry);
  }

  lemma WeightOfFlag(weight: nat, flag: bool)
    ensures weight * One(flag) == if flag then weight else 0
  {
  }

  // ---------------------------------------------------------------- the overflow flag

  /** The overflow flag after the operation on byte after byte, the flags going along. */
  function OverflowAfter(opcode: nat, a: seq<byte>, b: seq<byte>, carry: bool, overflow: bool): bool
    requires |a| == |b|
  {
    if a == [] then overflow
    else
      var u := Operate(Alu.Alu(a[0], b[0], 0, carry, overflow), opcode);
      OverflowAfter(opcode, a[1..], b[1..], u.carry, u.overflow)
  }

  /** Two's complement: the top byte is signed. */
  function Signed(bytes: seq<byte>): int {
    if bytes == [] then 0
    else if |bytes| == 1 then SignedByte(bytes[0])
    else bytes[0] + 0x100 * Signed(bytes[1..])
  }

  /** A number with its top bit set is 256^n less than it is without sign. */
  lemma {:induction false} SignedIs(a: seq<byte>)
    requires a != []
    ensures Signed(a) == Number(a) - if a[|a| - 1] >= 0x80 then Power256(|a|) else 0
  {
    if |a| == 1 {
      assert a[1..] == [] && Power256(1) == 0x100 * Power256(0);
    } else {
      SignedIs(a[1..]);
    }
  }

  lemma {:induction false} EvenPower(n: nat) returns (half: nat)
    requires n > 0
    ensures Power256(n) == 2 * half
  {
    var below := Power256(n - 1);
    half := 0x80 * below;
  }

  /** A low byte decides nothing about the range. */
  lemma RangeOfHigh(low: byte, high: int, half: nat)
    ensures -0x100 * (2 * half) <= 2 * (low + 0x100 * high) < 0x100 * (2 * half) <==> -(2 * half) <= 2 * high < 2 * half
  {
  }

  lemma OverflowOfByte(u: Alu)
    ensures Operate(u, 1).overflow <==> !(-0x100 <= 2 * (SignedByte(u.lhs) + SignedByte(u.rhs) + One(u.carry)) < 0x100)
  {
  }

  lemma {:induction false} SubKeepsOverflow(a: seq<byte>, b: seq<byte>, carry: bool, overflow: bool)
    requires |a| == |b|
    ensures OverflowAfter(2, a, b, carry, overflow) == overflow
  {
    if a != [] {
      var u := Operate(Alu.Alu(a[0], b[0], 0, carry, overflow), 2);
      SubKeepsOverflow(a[1..], b[1..], u.carry, overflow);
    }
  }

  /** The signed sum leaves the range of `n` bytes. */
  predicate LeavesRange(n: nat, sum: int) {
    !(-(Power256(n) as int) <= 2 * sum < Power256(n))
  }

  lemma SameRange(n: nat, low: byte, high: int)
    requires n > 0
    ensures LeavesRange(n + 1, low + 0x100 * high) == LeavesRange(n, high)
  {
    var half := EvenPower(n);
    RangeOfHigh(low, high, half);
  }

  /** After chained ADD on n bytes the overflow flag is set exactly when the signed sum leaves the n-byte range
      [-256^n / 2, 256^n / 2). */
  lemma {:induction false} AddOverflows(a: seq<byte>, b: seq<byte>, carry: bool, overflow: bool)
    requires |a| == |b| > 0
    ensures OverflowAfter(1, a, b, carry, overflow) == LeavesRange(|a|, Signed(a) + Signed(b) + One(carry))
  {
    var u := Alu.Alu(a[0], b[0], 0, carry, overflow);
    var sum := Operate(u, 1);
    if |a| == 1 {
      OverflowOfByte(u);
      assert a[1..] == [] && Power256(1) == 0x100 * Power256(0);
    } else {
      AddOverflows(a[1..], b[1..], sum.carry, sum.overflow);
      AddByte(a[0], b[0], carry);
      SameRange(|a| - 1, sum.result, Signed(a[1..]) + Signed(b[1..]) + One(sum.carry));
    }
  }

  /** Over chains of any length: ADD sets the overflow flag exactly when the signed sum leaves the range
      [-256^n / 2, 256^n / 2) of the width, SUB leaves the flag as it was. */
  lemma {:induction false} OverflowIsSigned(a: seq<byte>, b: seq<byte>, carry: bool, overflow: bool)
    requires |a| == |b|
    ensures a != [] ==> (OverflowAfter(1, a, b, carry, overflow)
                         <==> !(-(Power256(|a|) as int) <= 2 * (Signed(a) + Signed(b) + One(carry)) < Power256(|a|)))
    ensures OverflowAfter(2, a, b, carry, overflow) == overflow
  {
    if a != [] { AddOverflows(a, b, carry, overflow); }
    SubKeepsOverflow(a, b, carry, overflow);
  }

  /** The logic operations work bit by bit. */
  lemma LogicIsBitwise(u: Alu, i: nat)
    ensures Bit(Operate(u, 4).result, i) <==> Bit(u.lhs, i) && Bit(u.rhs, i)
    ensures Bit(Operate(u, 5).result, i) <==> Bit(u.lhs, i) || Bit(u.rhs, i)
    ensures Bit(Operate(u, 6).result, i) <==> Bit(u.lhs, i) != Bit(u.rhs, i)
    ensures Bit(Operate(u, 12).result, i) <==> Bit(u.lhs, i) && Bit(u.rhs, i)
  {
    BitOfAnd(u.lhs, u.rhs, i);
    BitOfOr(u.lhs, u.rhs, i);
    BitOfXor(u.lhs, u.rhs, i);
  }

  // ---------------------------------------------------------------- shifts, counting and the flags

  lemma AslByte(a: byte, carry: bool)
    ensures var (r, out) := Apply(7, a, 0, carry); 2 * a == r + 0x100 * One(out)
  {
  }

  lemma LsrByte(a: byte, carry: bool)
    ensures var (r, out) := Apply(8, a, 0, carry); a == 2 * r + One(out)
  {
  }

  /** ASL on the lowest byte and ROL on the others, upwards. */
  function ShiftedLeft(a: seq<byte>, carry: bool): (r: Chained)
    requires a != []
    ensures |r.bytes| == |a|
  {
    var (low, carry0) := Apply(7, a[0], 0, carry);
    var rest := FromLow(9, a[1..], a[1..], carry0);
    Chained([low] + rest.bytes, rest.carry)
  }

  /** LSR on the highest byte and ROR on the others, downwards. */
  function ShiftedRight(a: seq<byte>, carry: bool): (r: Chained)
    requires a != []
    ensures |r.bytes| == |a|
  {
    var n := |a| - 1;
    var (top, carry0) := Apply(8, a[n], 0, carry);
    var rest := FromHigh(10, a[..n], carry0);
    Chained(rest.bytes + [top], rest.carry)
  }

  /** Shifting n bytes left doubles, whatever the carry was: 2 A = R + 256^n c'. */
  lemma AslDoubles(a: seq<byte>, carry: bool)
    requires a != []
    ensures var r := ShiftedLeft(a, carry); 2 * Number(a) == Number(r.bytes) + Power256(|a|) * One(r.carry)
  {
    var (low, carry0) := Apply(7, a[0], 0, carry);
    var rest := FromLow(9, a[1..], a[1..], carry0);
    AslByte(a[0], carry);
    RolDoubles(a[1..], a[1..], carry0);
    NumberOfCons(low, rest.bytes);
    NextPlace(|a|, rest.carry);
  }

  /** Shifting n bytes right halves, whatever the carry was: A = 2 R + c'. */
  lemma LsrHalves(a: seq<byte>, carry: bool)
    requires a != []
    ensures var r := ShiftedRight(a, carry); Number(a) == 2 * Number(r.bytes) + One(r.carry)
  {
    var n := |a| - 1;
    var step := Apply(8, a[n], 0, carry);
    var rest := FromHigh(10, a[..n], step.1);
    LsrByte(a[n], carry);
    RorHalves(a[..n], step.1);
    assert a == a[..n] + [a[n]];
    NumberOfSnoc(a[..n], a[n]);
    NumberOfSnoc(rest.bytes, step.0);
    TopPlace(n, a[n], false, step.0, step.1);
  }

  /** The ALU with its result fed back as the left operand. */
  function FedBack(u: Alu): Alu {
    u.(lhs := u.result)
  }

  /** INC counts up modulo 256, DEC undoes it and is undone by it, and neither touches a flag. */
  lemma CountingIsInverse(u: Alu)
    ensures Operate(u, 3).result == (u.lhs + 1) % 0x100
    ensures Operate(FedBack(Operate(u, 3)), 11).result == u.lhs
    ensures Operate(FedBack(Operate(u, 11)), 3).result == u.lhs
    ensures forall opcode | opcode in {3, 11} :: Operate(u, opcode).carry == u.carry && Operate(u, opcode).overflow == u.overflow
  {
    assert (u.lhs - 1) % 0x1_0000 % 0x100 == if u.lhs == 0 then 0xFF else u.lhs - 1;
  }

  /** What the operations do to the flags beyond what the chains say: logic clears both, shifts and rotations
      clear overflow, the bit test and the unused opcodes leave both; no operation changes an operand. */
  lemma FlagsOfOperations(u: Alu, opcode: nat)
    ensures opcode in {4, 5, 6} ==> !Operate(u, opcode).carry && !Operate(u, opcode).overflow
    ensures opcode in {7, 8, 9, 10} ==> !Operate(u, opcode).overflow
    ensures opcode == 12 ==> Operate(u, opcode).carry == u.carry && Operate(u, opcode).overflow == u.overflow
    ensures opcode == 0 || opcode > 12 ==> Operate(u, opcode) == u
    ensures Operate(u, opcode).lhs == u.lhs && Operate(u, opcode).rhs == u.rhs
  {
  }
}
