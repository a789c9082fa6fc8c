/** The instruction set of the bytecode VM: numeric opcodes, each followed by its operands. */
module Opcodes {
  import opened FlowSyntax

  const LOAD_CONST := 1
  const LOAD_LOCAL := 2
  const STORE_LOCAL := 3
  const JUMP := 40
  const JUMP_IF_FALSE := 41
  const RETURN := 60
  const HALT := 99

  function BinOpcode(op: BinOp): int {
    match op
    case Add => 10 case Sub => 11 case Mul => 12 case Div => 13 case Mod => 14
    case Lt => 20 case Le => 21 case Gt => 22 case Ge => 23 case Eq => 24 case Ne => 25
    case And => 30 case Or => 31
  }

  function UnOpcode(op: UnOp): int {
    match op
    case Not => 32
    case Neg => 33
  }

  predicate IsBinOpcode(c: int) {
    10 <= c <= 14 || 20 <= c <= 25 || c == 30 || c == 31
  }

  function BinOpOf(c: int): (op: BinOp)
    requires IsBinOpcode(c)
    ensures BinOpcode(op) == c
  {
    if c == 10 then Add else if c == 11 then Sub else if c == 12 then Mul
    else if c == 13 then Div else if c == 14 then Mod
    else if c == 20 then Lt else if c == 21 then Le else if c == 22 then Gt
    else if c == 23 then Ge else if c == 24 then Eq else if c == 25 then Ne
    else if c == 30 then And else Or
  }
}
