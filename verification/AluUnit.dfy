/** The arithmetic-logic unit, one operation per process phase. */
module AluUnit {
  import opened Bits

  /** What the ALU reads and writes: two operands, the result register, the carry and overflow flags. */
  datatype Alu = Alu(lhs: byte, rhs: byte, result: byte, carry: bool, overflow: bool)

  function BitwiseByte(which: int, a: byte, b: byte): byte {
    assert And(a, b) < 0x100 && Or(a, b) < 0x100 && Xor(a, b) < 0x100 by {
      Pow2Of8();
      AndFits(a, b, 8);
      OrFits(a, b, 8);
      XorFits(a, b, 8);
    }
    if which == 0 then And(a, b) else if which == 1 then Or(a, b) else Xor(a, b)
  }

  /** One process phase with the given opcode; opcodes 0 and 13 to 15 do nothing. */
  function Operate(u: Alu, opcode: nat): Alu {
    var carryIn := if u.carry then 1 else 0;
    match opcode
    case 1 =>
      var sum := u.lhs + u.rhs + carryIn;
      var lhsSign, rhsSign, resultSign := u.lhs >= 0x80, u.rhs >= 0x80, sum % 0x100 >= 0x80;
      u.(result := sum % 0x100, carry := sum > 0xFF,
         overflow := lhsSign == rhsSign && lhsSign != resultSign)
    case 2 =>
      var subtrahend := u.rhs + (1 - carryIn);
      u.(result := (u.lhs - subtrahend) % 0x1_0000 % 0x100, carry := u.lhs >= subtrahend)
    case 3 => u.(result := (u.lhs + 1) % 0x100)
    case 4 => u.(result := BitwiseByte(0, u.lhs, u.rhs), carry := false, overflow := false)
    case 5 => u.(result := BitwiseByte(1, u.lhs, u.rhs), carry := false, overflow := false)
    case 6 => u.(result := BitwiseByte(2, u.lhs, u.rhs), carry := false, overflow := false)
    case 7 => u.(result := 2 * u.lhs % 0x100, carry := u.lhs >= 0x80, overflow := false)
    case 8 => u.(result := u.lhs / 2, carry := u.lhs % 2 == 1, overflow := false)
    case 9 => u.(result := 2 * u.lhs % 0x100 + carryIn, carry := u.lhs >= 0x80, overflow := false)
    case 10 => u.(result := u.lhs / 2 + 0x80 * carryIn, carry := u.lhs % 2 == 1, overflow := false)
    case 11 => u.(result := (u.lhs - 1) % 0x1_0000 % 0x100)
    case 12 => u.(result := BitwiseByte(0, u.lhs, u.rhs))
    case _ => u
  }
}
