/**
 The operand stack has 256 cells and the compiler never checks an expression against it.

 Where an evaluation takes more, the checked machine faults (FaultsIffOverflows of CompiledFlows, for
 whole flows); the typed-array VM does not stop, it computes a wrong value.
 */
module OperandStack {
  import opened Options
  import opened Int32Arith
  import opened FlowSyntax
  import opened Opcodes
  import opened BytecodeCompiler
  import opened CompilerCorrectness
  import opened CompiledFlows
  import opened StackNeed
  import M = StackMachine
  import Sem = FlowSemantics
  import VM = BytecodeVM

  /** `return e` faults on the checked machine exactly when evaluating `e` takes more than 256 cells. */
  lemma ReturnFaultsIffTooDeep(code: seq<Int32>, max: nat, e: Expr, slots: Slots, env: Sem.Env, st: M.State)
    requires st.edges <= max && st.stack == []
    requires CompileExpr(e, slots).Some? && CodeAt(code, st.pc, CompileExpr(e, slots).value + [RETURN])
    requires Represents(slots, env, st.locals)
    ensures M.Run(code, max, st) == M.Fault <==> Takes(e, env) > 256
    ensures Sem.Eval(e, env).Value? && Need(e) <= 256
            ==> M.Run(code, max, st) == M.Returned(Sem.Eval(e, env).v)
  {
    ReturnEnds(code, max, e, slots, env, st);
    CutMeaning(e, M.STACK_CELLS, env);
    TakesNeed(e, env);
    ExprHasMeaning(e, slots, env);
  }

  lemma ReturnEnds(code: seq<Int32>, max: nat, e: Expr, slots: Slots, env: Sem.Env, st: M.State)
    requires st.edges <= max && st.stack == []
    requires CompileExpr(e, slots).Some? && CodeAt(code, st.pc, CompileExpr(e, slots).value + [RETURN])
    requires Represents(slots, env, st.locals)
    ensures M.Run(code, max, st)
         == match Sem.Eval(CutExpr(e, M.STACK_CELLS), env)
            case Value(v) => M.Returned(v)
            case Raises(k) => M.Trapped(k)
            case Meaningless => M.Fault
  {
    var m, c := MachineOf(code, max), CompileExpr(e, slots).value;
    var r := Sem.Eval(CutExpr(e, M.STACK_CELLS), env);
    MachineIsFaithful(code, max);
    CodeSplit(code, st.pc, c, [RETURN]);
    ExprRuns(m, e, slots, env, st);
    if r.Value? {
      ReturnTail(m, Pushed(st, |c|, r.v));
    }
  }

  // ----- what the typed-array VM does instead of faulting -----

  /** 1 + (1 + (... + 1)) with n ones. */
  function Ones(n: nat): Expr
    requires n >= 1
  {
    if n == 1 then NumberLiteral(1) else BinaryExpr(Add, NumberLiteral(1), Ones(n - 1))
  }

  lemma {:induction false} OnesNeed(n: nat, env: Sem.Env)
    requires n >= 1
    ensures Need(Ones(n)) == n
    ensures n <= I32_MAX ==> Sem.Eval(Ones(n), env) == Sem.Value(n)
  {
    if n > 1 {
      OnesNeed(n - 1, env);
    }
  }

  function OnesCode(n: nat): seq<int>
    requires n >= 1
  {
    if n == 1 then [LOAD_CONST, 1] else [LOAD_CONST, 1] + OnesCode(n - 1) + [BinOpcode(Add)]
  }

  lemma OnesCompiles(n: nat, slots: Slots)
    requires n >= 1
    ensures CompileExpr(Ones(n), slots) == Some(OnesCode(n))
  {
  }

  lemma JsPush(code: seq<Int32>, max: nat, st: VM.JsState) returns (end: VM.JsState)
    requires st.pc >= 0 && st.edges <= max && CodeAt(code, st.pc, [LOAD_CONST, 1])
    ensures end == st.(pc := st.pc + 2, sp := st.sp + 1, stack := VM.Write(st.stack, st.sp, VM.Num(1)))
    ensures VM.JsRun(code, max, st) == VM.JsRun(code, max, end)
  {
    CodeCell(code, st.pc, [LOAD_CONST, 1], 0);
    CodeCell(code, st.pc, [LOAD_CONST, 1], 1);
    end := st.(pc := st.pc + 2, sp := st.sp + 1, stack := VM.Write(st.stack, st.sp, VM.Num(1)));
    assert VM.JsStep(code, max, st) == VM.Next(end);
  }

  lemma JsAdd(code: seq<Int32>, max: nat, st: VM.JsState, v: Int32) returns (end: VM.JsState)
    requires st.pc >= 0 && st.edges <= max && CodeAt(code, st.pc, [BinOpcode(Add)])
    requires VM.JsBinary(Add, VM.Read(st.stack, st.sp - 2), VM.Read(st.stack, st.sp - 1)) == VM.Cell(v)
    ensures end == st.(pc := st.pc + 1, sp := st.sp - 1, stack := VM.Write(st.stack, st.sp - 2, VM.Num(v)))
    ensures VM.JsRun(code, max, st) == VM.JsRun(code, max, end)
  {
    CodeCell(code, st.pc, [BinOpcode(Add)], 0);
    assert BinOpOf(code[st.pc]) == Add;
    end := st.(pc := st.pc + 1, sp := st.sp - 1, stack := VM.Write(st.stack, st.sp - 2, VM.Num(v)));
    assert VM.JsStep(code, max, st) == VM.Next(end);
  }

  /** Pushes past the last cell are lost, and the first addition over a lost cell yields 0. */
  lemma {:induction false} OnesOverflow(code: seq<Int32>, max: nat, n: nat, st: VM.JsState) returns (end: VM.JsState)
    requires n >= 1 && st.pc >= 0 && st.edges <= max && CodeAt(code, st.pc, OnesCode(n))
    requires |st.stack| == M.STACK_CELLS && st.sp >= 0 && st.sp + n > M.STACK_CELLS
    ensures end.pc == st.pc + |OnesCode(n)| && end.sp == st.sp + 1 && end.edges == st.edges
    ensures VM.JsRun(code, max, st) == VM.JsRun(code, max, end)
    ensures |end.stack| == M.STACK_CELLS
    ensures forall i :: 0 <= i < M.STACK_CELLS && i < st.sp ==> end.stack[i] == st.stack[i]
    ensures st.sp < M.STACK_CELLS ==> end.stack[st.sp] == M.STACK_CELLS - 1 - st.sp
  {
    if n == 1 {
      end := JsPush(code, max, st);
    } else {
      CodeSplit(code, st.pc, [LOAD_CONST, 1] + OnesCode(n - 1), [BinOpcode(Add)]);
      CodeSplit(code, st.pc, [LOAD_CONST, 1], OnesCode(n - 1));
      var st1 := JsPush(code, max, st);
      var st2 := OnesOverflow(code, max, n - 1, st1);
      var v := if st.sp < M.STACK_CELLS - 1 then M.STACK_CELLS - 1 - st.sp else 0;
      end := JsAdd(code, max, st2, v);
    }
  }

  function OnesFlow(n: nat): Flow
    requires n >= 1
  {
    Flow(false, [], Some([ReturnStmt(Some(Ones(n)))]))
  }

  lemma OnesFlowCode(n: nat)
    requires n >= 1
    ensures CompileFlow(OnesFlow(n)).Some?
    ensures CompileFlow(OnesFlow(n)).value.localCount == 0
    ensures CodeAt(CompileFlow(OnesFlow(n)).value.code, 0, OnesCode(n) + [RETURN])
    ensures |CompileFlow(OnesFlow(n)).value.code| == |OnesCode(n)| + 4
  {
    OnesCompiles(n, map[]);
    ExprCells(Ones(n), map[]);
    var body := [ReturnStmt(Some(Ones(n)))];
    assert body[1..] == [];
    var code := OnesCode(n) + [RETURN];
    assert CompileStmt(body[0], map[], 0) == Some(Emitted(code, map[]));
    assert CompileBlock(body, map[], 0) == Some(Emitted(code + [], map[]));
    var all := code + [] + [LOAD_CONST, 0, RETURN];
    assert CompileBody(OnesFlow(n)) == Some(Emitted(all, map[]));
    forall i | 0 <= i < |code| ensures CompileFlow(OnesFlow(n)).value.code[i] == code[i] {
      assert all[i] == code[i];
      assert i < |OnesCode(n)| ==> InRange(OnesCode(n)[i]);
    }
  }

  lemma OnesCodeLength(n: nat)
    requires n >= 1
    ensures |OnesCode(n)| == 3 * n - 1
  {
  }

  lemma OnesSource(n: nat, max: nat)
    requires 1 <= n <= I32_MAX
    ensures Sem.ExecBlock(OnesFlow(n).body.value, map[], max) == Sem.Done(Sem.Ended(Sem.Returned(n)), max)
    ensures Sem.FlowRuns(OnesFlow(n).body.value, map[], Sem.Returned(n), 0)
  {
    OnesNeed(n, map[]);
    var body := OnesFlow(n).body.value;
    assert Sem.Exec(body[0], map[], max) == Sem.Done(Sem.Ended(Sem.Returned(n)), max);
    Sem.ExecSound(Block(body), map[], max);
  }

  lemma DeepSum(n: nat, max: nat)
    requires n > M.STACK_CELLS
    ensures CompileFlow(OnesFlow(n)).Some?
    ensures VmAnswer(OnesFlow(n), [], max) == VM.Returned(VM.Num(M.STACK_CELLS - 1))
  {
    OnesFlowCode(n);
    var p := CompileFlow(OnesFlow(n)).value;
    CodeSplit(p.code, 0, OnesCode(n), [RETURN]);
    var end := OnesOverflow(p.code, max, n, VM.Start(p, []));
    CodeCell(p.code, end.pc, [RETURN], 0);
    assert VM.JsStep(p.code, max, end) == VM.Stop(VM.Returned(VM.Num(end.stack[0])));
  }

  lemma ShallowSum(n: nat, max: nat)
    requires 1 <= n <= M.STACK_CELLS
    ensures CompileFlow(OnesFlow(n)).Some?
    ensures VmAnswer(OnesFlow(n), [], max) == VM.Returned(VM.Num(n))
  {
    var flow := OnesFlow(n);
    OnesFlowCode(n);
    OnesNeed(n, map[]);
    OnesCodeLength(n);
    OnesSource(n, max);
    FitsNeverOverflows(flow, [], max);
    VmRunsFlow(flow, [], max);
    assert SlotEnv(FlowSlots(flow), []) == map[];
  }

  /**
   `return 1 + (1 + (... + 1))` with n ones: the VM answers n exactly up to 256 ones, and 255
   for every longer sum, without a trap.
   */
  lemma DeepSumsGoWrong(n: nat, max: nat)
    requires 1 <= n <= I32_MAX
    ensures CompileFlow(OnesFlow(n)).Some?
    ensures Sem.FlowRuns(OnesFlow(n).body.value, map[], Sem.Returned(n), 0)
    ensures VmAnswer(OnesFlow(n), [], max) == VM.Returned(VM.Num(if n <= 256 then n else 255))
    ensures VmAnswer(OnesFlow(n), [], max) == VM.Returned(VM.Num(n)) <==> Need(Ones(n)) <= 256
  {
    OnesSource(n, max);
    OnesNeed(n, map[]);
    if n <= M.STACK_CELLS {
      ShallowSum(n, max);
    } else {
      DeepSum(n, max);
    }
  }
}
