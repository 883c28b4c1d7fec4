/** Parsed assembly source: statements and operands, without source spans. */
module Ast {

  datatype Index = NoIndex | IndexX | IndexY

  datatype Value = Number(number: nat) | Name(symbol: string)

  datatype Operand = Operand(value: Value, immediate: bool, indirect: bool, index: Index)

  datatype Statement =
    | Label(name: string)
    | Equ(constant: string, value: nat)
    | Org(origin: seq<Operand>)
    | Data(bytes: seq<Operand>)
    | Include(path: string)
    | Instruct(mnemonic: string, operands: seq<Operand>)
}
