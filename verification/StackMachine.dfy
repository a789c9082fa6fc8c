/**
 The bytecode VM as a checked abstract machine: an operand stack of at most 256 cells, a fixed
 block of locals, a program counter and a count of back edges.

 Every access outside those bounds, and every unknown opcode, ends the run with `Fault`. The
 machine is the yardstick for stack safety (a run that does not end in `Fault` never left its
 bounds) and the stepping stone between flows and the typed-array VM of module BytecodeVM.
 */
module StackMachine {
  import opened Int32Arith
  import opened FlowSyntax
  import opened Opcodes

  const STACK_CELLS := 256

  datatype State = State(pc: nat, stack: seq<Int32>, locals: seq<Int32>, edges: nat)

  datatype Halt = Returned(v: Int32) | Trapped(kind: TrapKind) | LoopCap | Fault

  datatype Event = Next(st: State) | Stop(h: Halt)

  /** What the VM computes for a two-operand opcode. */
  function BinaryOp(op: BinOp, a: Int32, b: Int32): I32Result {
    match op
    case Add => AddChecked(a, b)
    case Sub => SubChecked(a, b)
    case Mul => MulChecked(a, b)
    case Div => DivChecked(a, b)
    case Mod => ModChecked(a, b)
    case Lt => Val(Truth(a < b))
    case Le => Val(Truth(a <= b))
    case Gt => Val(Truth(a > b))
    case Ge => Val(Truth(a >= b))
    case Eq => Val(Truth(a == b))
    case Ne => Val(Truth(a != b))
    case And => Val(Truth(a != 0 && b != 0))
    case Or => Val(Truth(a != 0 || b != 0))
  }

  function UnaryOp(op: UnOp, a: Int32): I32Result {
    match op
    case Neg => NegChecked(a)
    case Not => Val(Truth(a == 0))
  }

  /** Replaces the top `drop` cells by the result and moves on. */
  function Settle(st: State, drop: nat, r: I32Result): Event
    requires drop <= |st.stack|
  {
    match r
    case Val(v) => Next(st.(pc := st.pc + 1, stack := st.stack[..|st.stack| - drop] + [v]))
    case Trap(k) => Stop(Trapped(k))
  }

  /** A taken jump; `limit` is the counter the target is compared with to tell a back edge. */
  function Jump(st: State, target: int, limit: int, max: nat): Event {
    if target < 0 then Stop(Fault)
    else if target < limit then
      if st.edges + 1 > max then Stop(LoopCap) else Next(st.(pc := target, edges := st.edges + 1))
    else Next(st.(pc := target))
  }

  function Push(st: State, v: Int32): Event {
    if |st.stack| < STACK_CELLS then Next(st.(pc := st.pc + 2, stack := st.stack + [v])) else Stop(Fault)
  }

  function Step(code: seq<Int32>, max: nat, st: State): Event {
    var n := |st.stack|;
    if st.pc >= |code| then Stop(Fault)
    else
      var op := code[st.pc];
      if IsBinOpcode(op) then
        if n < 2 then Stop(Fault) else Settle(st, 2, BinaryOp(BinOpOf(op), st.stack[n - 2], st.stack[n - 1]))
      else if op == UnOpcode(Not) || op == UnOpcode(Neg) then
        if n < 1 then Stop(Fault)
        else Settle(st, 1, UnaryOp(if op == UnOpcode(Not) then Not else Neg, st.stack[n - 1]))
      else if op == RETURN then
        if n < 1 then Stop(Fault) else Stop(Returned(st.stack[n - 1]))
      else if op == HALT then
        Stop(Returned(if n > 0 then st.stack[n - 1] else 0))
      else if st.pc + 1 >= |code| then Stop(Fault)
      else
        var arg := code[st.pc + 1];
        if op == LOAD_CONST then Push(st, arg)
        else if op == LOAD_LOCAL then
          if 0 <= arg < |st.locals| then Push(st, st.locals[arg]) else Stop(Fault)
        else if op == STORE_LOCAL then
          if 0 <= arg < |st.locals| && n > 0 then
            Next(st.(pc := st.pc + 2, stack := st.stack[..n - 1], locals := st.locals[arg := st.stack[n - 1]]))
          else Stop(Fault)
        else if op == JUMP then Jump(st, arg, st.pc + 1, max)
        else if op == JUMP_IF_FALSE then
          if n < 1 then Stop(Fault)
          else
            var popped := st.(stack := st.stack[..n - 1]);
            if st.stack[n - 1] == 0 then Jump(popped, arg, st.pc + 2, max)
            else Next(popped.(pc := st.pc + 2))
        else Stop(Fault)
  }

  /** Each step moves forward in the code or spends a back edge. */
  lemma StepProgress(code: seq<Int32>, max: nat, st: State)
    requires st.edges <= max
    ensures var e := Step(code, max, st);
            e.Next? ==> e.st.edges <= max
                        && (st.edges < e.st.edges || (st.edges == e.st.edges && st.pc < e.st.pc && st.pc < |code|))
  {
  }

  function Run(code: seq<Int32>, max: nat, st: State): Halt
    requires st.edges <= max
    decreases max - st.edges, if st.pc < |code| then |code| - st.pc else 0
  {
    StepProgress(code, max, st);
    match Step(code, max, st)
    case Stop(h) => h
    case Next(st') => Run(code, max, st')
  }
}
