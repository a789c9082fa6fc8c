/**
 The VM itself (runBytecode of bytecode-vm.ts), over JavaScript typed arrays.

 A typed array answers an out-of-range read with `undefined`, ignores an out-of-range write and
 stores `undefined` as 0, so the machine is defined on any opcode array whatsoever: stray jumps,
 truncated operands, underflow and overflow of the operand stack included. `JsRun` is that
 behaviour on values; the method `RunBytecode` is the loop over arrays.
 */
module BytecodeVM {
  import opened Options
  import opened Int32Arith
  import opened FlowSyntax
  import opened Opcodes
  import opened BytecodeCompiler
  import M = StackMachine

  // ----- typed arrays -----

  datatype JsValue = Num(n: Int32) | Undefined

  function Read(cells: seq<Int32>, i: int): JsValue {
    if 0 <= i < |cells| then Num(cells[i]) else Undefined
  }

  function Stored(v: JsValue): Int32 {
    if v.Num? then v.n else 0
  }

  function Write(cells: seq<Int32>, i: int, v: JsValue): (r: seq<Int32>)
    ensures |r| == |cells|
  {
    if 0 <= i < |cells| then cells[i := Stored(v)] else cells
  }

  // ----- operators on cells that may be undefined -----

  datatype JsResult = Cell(v: Int32) | Throws(kind: TrapKind) | ThrowsTypeError

  function FromChecked(r: I32Result): JsResult {
    match r
    case Val(v) => Cell(v)
    case Trap(k) => Throws(k)
  }

  /** Sums and quotients with an undefined operand are NaN, stored as 0; the exact product
      refuses to convert it; comparisons with it are false; it is unequal to every number. */
  function JsBinary(op: BinOp, a: JsValue, b: JsValue): JsResult {
    if a.Num? && b.Num? then FromChecked(M.BinaryOp(op, a.n, b.n))
    else
      match op
      case Add => Cell(0)
      case Sub => Cell(0)
      case Mul => ThrowsTypeError
      case Div => if b == Num(0) then Throws(DivisionByZero) else Cell(0)
      case Mod => if b == Num(0) then Throws(DivisionByZero) else Cell(0)
      case Lt => Cell(0)
      case Le => Cell(0)
      case Gt => Cell(0)
      case Ge => Cell(0)
      case Eq => Cell(Truth(a == b))
      case Ne => Cell(Truth(a != b))
      case And => Cell(Truth(a != Num(0) && b != Num(0)))
      case Or => Cell(Truth(a != Num(0) || b != Num(0)))
  }

  function JsUnary(op: UnOp, a: JsValue): JsResult {
    if a.Num? then FromChecked(M.UnaryOp(op, a.n)) else Cell(0)
  }

  // ----- one dispatch -----

  datatype JsState = JsState(pc: int, sp: int, stack: seq<Int32>, locals: seq<Int32>, edges: nat)

  datatype JsHalt = Returned(v: JsValue) | Trapped(kind: TrapKind) | LoopCap | TypeError

  datatype JsEvent = Next(st: JsState) | Stop(h: JsHalt)

  /** What falling off the code, or HALT, answers. */
  function Top(st: JsState): JsValue {
    if st.sp > 0 then Read(st.stack, st.sp - 1) else Num(0)
  }

  function Settle(st: JsState, sp: int, r: JsResult): JsEvent {
    match r
    case Cell(v) => Next(st.(pc := st.pc + 1, sp := sp, stack := Write(st.stack, sp - 1, Num(v))))
    case Throws(k) => Stop(Trapped(k))
    case ThrowsTypeError => Stop(TypeError)
  }

  /** A taken jump. A missing target leaves the program counter undefined, which ends the loop. */
  function Jump(st: JsState, target: JsValue, limit: int, max: nat): JsEvent {
    if target.Undefined? then Stop(Returned(Top(st)))
    else if target.n < limit then
      if st.edges + 1 > max then Stop(LoopCap) else Next(st.(pc := target.n, edges := st.edges + 1))
    else Next(st.(pc := target.n))
  }

  function JsStep(code: seq<Int32>, max: nat, st: JsState): JsEvent
    requires st.pc < |code|
  {
    if st.pc < 0 then Stop(Returned(Num(0)))
    else
      var op, arg := code[st.pc], Read(code, st.pc + 1);
      var under := Read(st.stack, st.sp - 1);
      if IsBinOpcode(op) then
        Settle(st, st.sp - 1, JsBinary(BinOpOf(op), Read(st.stack, st.sp - 2), under))
      else if op == UnOpcode(Not) then Settle(st, st.sp, JsUnary(Not, under))
      else if op == UnOpcode(Neg) then Settle(st, st.sp, JsUnary(Neg, under))
      else if op == LOAD_CONST then
        Next(st.(pc := st.pc + 2, sp := st.sp + 1, stack := Write(st.stack, st.sp, arg)))
      else if op == LOAD_LOCAL then
        var v := if arg.Num? then Read(st.locals, arg.n) else Undefined;
        Next(st.(pc := st.pc + 2, sp := st.sp + 1, stack := Write(st.stack, st.sp, v)))
      else if op == STORE_LOCAL then
        var locals := if arg.Num? then Write(st.locals, arg.n, under) else st.locals;
        Next(st.(pc := st.pc + 2, sp := st.sp - 1, locals := locals))
      else if op == JUMP then Jump(st, arg, st.pc + 1, max)
      else if op == JUMP_IF_FALSE then
        var popped := st.(sp := st.sp - 1);
        if under == Num(0) then Jump(popped, arg, st.pc + 2, max) else Next(popped.(pc := st.pc + 2))
      else if op == RETURN then Stop(Returned(under))
      else if op == HALT then Stop(Returned(Top(st)))
      else Stop(Returned(Num(0)))
  }

  // ----- a whole run -----

  lemma JsStepProgress(code: seq<Int32>, max: nat, st: JsState)
    requires st.pc < |code| && st.edges <= max
    ensures var e := JsStep(code, max, st);
            e.Next? ==> st.pc >= 0 && e.st.edges <= max
                        && (e.st.edges == st.edges + 1 || (e.st.edges == st.edges && st.pc < e.st.pc))
  {
  }

  function JsRun(code: seq<Int32>, max: nat, st: JsState): JsHalt
    requires st.edges <= max
    decreases max - st.edges, |code| - st.pc
  {
    if st.pc >= |code| then Returned(Top(st))
    else
      JsStepProgress(code, max, st);
      match JsStep(code, max, st)
      case Stop(h) => h
      case Next(st') => JsRun(code, max, st')
  }

  /** How many instructions the run dispatches. */
  function Dispatches(code: seq<Int32>, max: nat, st: JsState): nat
    requires st.edges <= max
    decreases max - st.edges, |code| - st.pc
  {
    if st.pc >= |code| then 0
    else
      JsStepProgress(code, max, st);
      match JsStep(code, max, st)
      case Stop(_) => 1
      case Next(st') => 1 + Dispatches(code, max, st')
  }

  /** Between two back edges the program counter only moves forward. */
  lemma {:induction false} DispatchBound(code: seq<Int32>, max: nat, st: JsState)
    requires st.edges <= max
    ensures Dispatches(code, max, st)
         <= (max - st.edges) * |code| + (if st.pc >= |code| then 0 else if st.pc < 0 then 1 else |code| - st.pc)
    decreases max - st.edges, |code| - st.pc
  {
    OnePassMore(max - st.edges, |code|);
    if st.pc < |code| {
      JsStepProgress(code, max, st);
      var e := JsStep(code, max, st);
      if e.Next? {
        DispatchBound(code, max, e.st);
      }
    }
  }

  lemma OnePassMore(passes: nat, width: nat)
    ensures passes * width >= 0
    ensures passes > 0 ==> passes * width == (passes - 1) * width + width
  {
  }

  function Arguments(args: seq<int>, localCount: nat): (locals: seq<Int32>)
    ensures |locals| == localCount
  {
    seq(localCount, i requires 0 <= i < localCount => if i < |args| then ToInt32(args[i]) else 0)
  }

  function Zeroed(n: nat): (cells: seq<Int32>)
    ensures |cells| == n && forall i :: 0 <= i < n ==> cells[i] == 0
  {
    seq(n, i requires 0 <= i < n => 0)
  }

  function Start(p: Program, args: seq<int>): JsState {
    JsState(0, 0, Zeroed(M.STACK_CELLS), Arguments(args, p.localCount), 0)
  }

  /** Every run halts, on any code at all, within one pass over the code per permitted back edge
      and one more. */
  lemma RunHaltsWithin(p: Program, args: seq<int>, max: nat)
    ensures Dispatches(p.code, max, Start(p, args)) <= (max + 1) * |p.code|
  {
    DispatchBound(p.code, max, Start(p, args));
    assert (max + 1) * |p.code| == max * |p.code| + |p.code|;
  }

  // ----- the loop over arrays -----

  /** cells[i], as JavaScript reads a typed array. */
  method ReadArray(cells: array<Int32>, i: int) returns (v: JsValue)
    ensures v == Read(cells[..], i)
  {
    if 0 <= i < cells.Length {
      v := Num(cells[i]);
    } else {
      v := Undefined;
    }
  }

  /** cells[i] = v, as JavaScript writes a typed array. */
  method WriteArray(cells: array<Int32>, i: int, v: JsValue)
    modifies cells
    ensures cells[..] == Write(old(cells[..]), i, v)
  {
    if 0 <= i < cells.Length {
      cells[i] := Stored(v);
    }
  }

  method LoadArguments(localCount: nat, args: seq<int>) returns (locals: array<Int32>)
    ensures fresh(locals) && locals[..] == Arguments(args, localCount)
  {
    locals := new Int32[localCount](_ => 0);
    var i := 0;
    while i < |args| && i < localCount
      invariant 0 <= i <= localCount && i <= |args|
      invariant locals.Length == localCount
      invariant forall j :: 0 <= j < i ==> locals[j] == ToInt32(args[j])
      invariant forall j :: i <= j < localCount ==> locals[j] == 0
    {
      locals[i] := ToInt32(args[i]);
      i := i + 1;
    }
  }

  /** The operator arms of the switch: one result cell replaces the operands. */
  method Operate(op: Int32, sp: int, stack: array<Int32>) returns (sp': int, r: JsResult)
    requires IsBinOpcode(op) || op == UnOpcode(Not) || op == UnOpcode(Neg)
    modifies stack
    ensures sp' == if IsBinOpcode(op) then sp - 1 else sp
    ensures r == if IsBinOpcode(op) then JsBinary(BinOpOf(op), Read(old(stack[..]), sp - 2), Read(old(stack[..]), sp - 1))
                 else JsUnary(if op == UnOpcode(Not) then Not else Neg, Read(old(stack[..]), sp - 1))
    ensures stack[..] == if r.Cell? then Write(old(stack[..]), sp' - 1, Num(r.v)) else old(stack[..])
  {
    sp' := sp;
    if IsBinOpcode(op) {
      sp' := sp - 1;
      var b := ReadArray(stack, sp');
      var a := ReadArray(stack, sp' - 1);
      r := JsBinary(BinOpOf(op), a, b);
    } else {
      var a := ReadArray(stack, sp - 1);
      r := JsUnary(if op == UnOpcode(Not) then Not else Neg, a);
    }
    if r.Cell? {
      WriteArray(stack, sp' - 1, Num(r.v));
    }
  }

  /** A taken jump in the loop: counts a back edge, or reports that the loop is over. */
  method TakeJump(target: JsValue, pc: int, backEdges: nat, maxIterations: nat)
    returns (pc': int, backEdges': nat, halt: Option<JsHalt>)
    requires backEdges <= maxIterations && target.Num?
    ensures target.n < pc && backEdges == maxIterations ==> halt == Some(LoopCap)
    ensures !(target.n < pc && backEdges == maxIterations) ==>
              halt == None && pc' == target.n && backEdges' == if target.n < pc then backEdges + 1 else backEdges
  {
    pc', backEdges', halt := target.n, backEdges, None;
    if target.n < pc {
      backEdges' := backEdges + 1;
      if backEdges' > maxIterations {
        halt := Some(LoopCap);
      }
    }
  }

  /** One pass of the loop body: fetch, switch. `halt` is what the source returns or throws. */
  method Dispatch(code: seq<Int32>, pc: int, sp: int, stack: array<Int32>, locals: array<Int32>,
                  backEdges: nat, maxIterations: nat)
    returns (pc': int, sp': int, backEdges': nat, halt: Option<JsHalt>)
    requires pc < |code| && backEdges <= maxIterations && stack != locals
    modifies stack, locals
    ensures match JsStep(code, maxIterations, JsState(pc, sp, old(stack[..]), old(locals[..]), backEdges))
            case Stop(h) => halt == Some(h)
            case Next(st) => halt == None && st == JsState(pc', sp', stack[..], locals[..], backEdges')
  {
    pc', sp', backEdges', halt := pc, sp, backEdges, None;
    if pc < 0 {
      return pc, sp, backEdges, Some(Returned(Num(0)));
    }
    var op := code[pc];
    pc' := pc + 1;
    if IsBinOpcode(op) || op == UnOpcode(Not) || op == UnOpcode(Neg) {
      var r;
      sp', r := Operate(op, sp, stack);
      match r
      case Cell(_) =>
      case Throws(k) => halt := Some(Trapped(k));
      case ThrowsTypeError => halt := Some(TypeError);
    } else if op == LOAD_CONST {
      WriteArray(stack, sp, Read(code, pc'));
      sp', pc' := sp + 1, pc' + 1;
    } else if op == LOAD_LOCAL {
      var slot, v := Read(code, pc'), Undefined;
      if slot.Num? {
        v := ReadArray(locals, slot.n);
      }
      WriteArray(stack, sp, v);
      sp', pc' := sp + 1, pc' + 1;
    } else if op == STORE_LOCAL {
      var slot := Read(code, pc');
      sp', pc' := sp - 1, pc' + 1;
      var v := ReadArray(stack, sp');
      if slot.Num? {
        WriteArray(locals, slot.n, v);
      }
    } else if op == JUMP {
      var target := Read(code, pc');
      if target.Undefined? {
        var v := TopOf(stack, sp);
        halt := Some(Returned(v));
      } else {
        pc', backEdges', halt := TakeJump(target, pc', backEdges, maxIterations);
      }
    } else if op == JUMP_IF_FALSE {
      var target := Read(code, pc');
      sp', pc' := sp - 1, pc' + 1;
      var cond := ReadArray(stack, sp');
      if cond == Num(0) {
        if target.Undefined? {
          var v := TopOf(stack, sp');
          halt := Some(Returned(v));
        } else {
          pc', backEdges', halt := TakeJump(target, pc', backEdges, maxIterations);
        }
      }
    } else if op == RETURN {
      sp' := sp - 1;
      var v := ReadArray(stack, sp');
      halt := Some(Returned(v));
    } else if op == HALT {
      var v := TopOf(stack, sp);
      halt := Some(Returned(v));
    } else {
      halt := Some(Returned(Num(0)));
    }
  }

  method TopOf(stack: array<Int32>, sp: int) returns (v: JsValue)
    ensures v == if sp > 0 then Read(stack[..], sp - 1) else Num(0)
  {
    if sp > 0 {
      v := ReadArray(stack, sp - 1);
    } else {
      v := Num(0);
    }
  }

  /** Runs the program; `dispatched` counts passes through the loop. */
  method RunBytecode(p: Program, args: seq<int>, maxIterations: nat) returns (h: JsHalt, ghost dispatched: nat)
    ensures h == JsRun(p.code, maxIterations, Start(p, args))
    ensures dispatched == Dispatches(p.code, maxIterations, Start(p, args)) <= (maxIterations + 1) * |p.code|
  {
    RunHaltsWithin(p, args, maxIterations);
    var code := p.code;
    var locals := LoadArguments(p.localCount, args);
    var stack := new Int32[M.STACK_CELLS](_ => 0);
    assert stack[..] == Zeroed(M.STACK_CELLS);
    var sp, pc, backEdges := 0, 0, 0;
    dispatched := 0;
    while pc < |code|
      invariant fresh(stack) && fresh(locals) && stack != locals
      invariant 0 <= backEdges <= maxIterations
      invariant var now := JsState(pc, sp, stack[..], locals[..], backEdges);
                && JsRun(code, maxIterations, now) == JsRun(code, maxIterations, Start(p, args))
                && dispatched + Dispatches(code, maxIterations, now) == Dispatches(code, maxIterations, Start(p, args))
      decreases maxIterations - backEdges, |code| - pc
    {
      JsStepProgress(code, maxIterations, JsState(pc, sp, stack[..], locals[..], backEdges));
      var halt;
      pc, sp, backEdges, halt := Dispatch(code, pc, sp, stack, locals, backEdges, maxIterations);
      dispatched := dispatched + 1;
      if halt.Some? {
        return halt.value, dispatched;
      }
    }
    var v := TopOf(stack, sp);
    h := Returned(v);
  }

  // ----- the checked machine is what the arrays do, as long as it does not fault -----

  ghost predicate Matches(js: JsState, st: M.State) {
    && js.pc == st.pc && js.locals == st.locals && js.edges == st.edges
    && |js.stack| == M.STACK_CELLS && js.sp == |st.stack| <= M.STACK_CELLS && js.stack[..js.sp] == st.stack
  }

  function Lift(h: M.Halt): JsHalt
    requires !h.Fault?
  {
    match h
    case Returned(v) => Returned(Num(v))
    case Trapped(k) => Trapped(k)
    case LoopCap => LoopCap
  }

  lemma StepRefines(code: seq<Int32>, max: nat, js: JsState, st: M.State)
    requires Matches(js, st) && st.pc < |code|
    ensures match M.Step(code, max, st)
            case Stop(h) => h.Fault? || JsStep(code, max, js) == Stop(Lift(h))
            case Next(st') => JsStep(code, max, js).Next? && Matches(JsStep(code, max, js).st, st')
  {
    assert forall i :: 0 <= i < |st.stack| ==> js.stack[i] == st.stack[i];
  }

  lemma {:induction false} RunRefines(code: seq<Int32>, max: nat, js: JsState, st: M.State)
    requires Matches(js, st) && st.edges <= max
    ensures M.Run(code, max, st).Fault? || JsRun(code, max, js) == Lift(M.Run(code, max, st))
    decreases max - st.edges, |code| - st.pc
  {
    if st.pc < |code| {
      StepRefines(code, max, js, st);
      M.StepProgress(code, max, st);
      var e := M.Step(code, max, st);
      if e.Next? {
        RunRefines(code, max, JsStep(code, max, js).st, e.st);
      }
    }
  }
}
