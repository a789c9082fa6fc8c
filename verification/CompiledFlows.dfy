/**
 The theorems about whole compiled flows, stated for the VM over typed arrays and for the
 cap-free reference semantics.
 */
module CompiledFlows {
  import opened Options
  import opened Int32Arith
  import opened FlowSyntax
  import opened Opcodes
  import opened BytecodeCompiler
  import opened CompilerCorrectness
  import opened StackNeed
  import M = StackMachine
  import Sem = FlowSemantics
  import VM = BytecodeVM

  // ----- cells survive the truncation to 32 bits -----

  ghost predicate AllInRange(cells: seq<int>) {
    forall i :: 0 <= i < |cells| ==> InRange(cells[i])
  }

  lemma ExprCells(e: Expr, slots: Slots)
    requires Slotting(slots) && |slots| <= I32_MAX && CompileExpr(e, slots).Some?
    ensures AllInRange(CompileExpr(e, slots).value)
  {
  }

  lemma OrZeroCells(e: Option<Expr>, slots: Slots)
    requires Slotting(slots) && |slots| <= I32_MAX && CompileOrZero(e, slots).Some?
    ensures AllInRange(CompileOrZero(e, slots).value)
  {
    if e.Some? {
      ExprCells(e.value, slots);
    }
  }

  /** Small enough for its addresses and slots to be 32-bit numbers. */
  ghost predicate Small(base: nat, e: Emitted) {
    base + |e.code| <= I32_MAX && |e.slots| <= I32_MAX
  }

  lemma StoreCells(x: string, e: Option<Expr>, slots: Slots)
    requires Slotting(slots) && CompileStore(x, e, slots).Some? && |CompileStore(x, e, slots).value.slots| <= I32_MAX
    ensures AllInRange(CompileStore(x, e, slots).value.code)
  {
    StoreSlots(x, e, slots);
    OrZeroCells(e, slots);
  }

  lemma IfCodeCells(base: nat, c: seq<int>, t: seq<int>)
    requires AllInRange(c) && AllInRange(t) && base + |IfCode(base, c, t)| <= I32_MAX
    ensures AllInRange(IfCode(base, c, t))
  {
  }

  lemma IfElseCodeCells(base: nat, c: seq<int>, t: seq<int>, e: seq<int>)
    requires AllInRange(c) && AllInRange(t) && AllInRange(e) && base + |IfElseCode(base, c, t, e)| <= I32_MAX
    ensures AllInRange(IfElseCode(base, c, t, e))
  {
  }

  lemma WhileCodeCells(base: nat, c: seq<int>, b: seq<int>)
    requires AllInRange(c) && AllInRange(b) && base + |WhileCode(base, c, b)| <= I32_MAX
    ensures AllInRange(WhileCode(base, c, b))
  {
  }

  lemma {:induction false} StmtCells(s: Stmt, slots: Slots, base: nat)
    requires Slotting(slots) && CompileStmt(s, slots, base).Some? && Small(base, CompileStmt(s, slots, base).value)
    ensures AllInRange(CompileStmt(s, slots, base).value.code)
    decreases s, 3
  {
    match s
    case LetDecl(x, e) => StoreCells(x, e, slots);
    case AssignStmt(x, e) => StoreCells(x, e, slots);
    case ReturnStmt(e) => OrZeroCells(e, slots);
    case UnsupportedStmt =>
    case Block(ss) => BlockCells(ss, slots, base);
    case WhileStmt(cond, _) => WhileCells(s, CompileCond(cond, slots).value, slots, base);
    case IfStmt(cond, _, _) => IfCells(s, CompileCond(cond, slots).value, slots, base);
  }

  lemma {:induction false} WhileCells(s: Stmt, c: seq<int>, slots: Slots, base: nat)
    requires s.WhileStmt? && Some(c) == CompileCond(s.cond, slots)
    requires Slotting(slots) && CompileWhile(s, c, slots, base).Some? && Small(base, CompileWhile(s, c, slots, base).value)
    ensures AllInRange(CompileWhile(s, c, slots, base).value.code)
    decreases s, 2
  {
    var b := CompileNested(s.body, slots, base + |c| + 2).value;
    NestedSlots(s.body, slots, base + |c| + 2);
    ExprCells(s.cond.value, slots);
    NestedCells(s.body, slots, base + |c| + 2);
    WhileCodeCells(base, c, b.code);
  }

  lemma {:induction false} IfCells(s: Stmt, c: seq<int>, slots: Slots, base: nat)
    requires s.IfStmt? && Some(c) == CompileCond(s.cond, slots)
    requires Slotting(slots) && CompileIf(s, c, slots, base).Some? && Small(base, CompileIf(s, c, slots, base).value)
    ensures AllInRange(CompileIf(s, c, slots, base).value.code)
    decreases s, 2
  {
    var t := CompileNested(s.thn, slots, base + |c| + 2).value;
    NestedSlots(s.thn, slots, base + |c| + 2);
    if s.els.None? {
      ExprCells(s.cond.value, slots);
      NestedCells(s.thn, slots, base + |c| + 2);
      IfCodeCells(base, c, t.code);
    } else {
      var elseAddr := base + |c| + 2 + |t.code| + 2;
      NestedSlots(s.els, t.slots, elseAddr);
      ExprCells(s.cond.value, slots);
      NestedCells(s.thn, slots, base + |c| + 2);
      NestedCells(s.els, t.slots, elseAddr);
      IfElseCodeCells(base, c, t.code, CompileNested(s.els, t.slots, elseAddr).value.code);
    }
  }

  lemma {:induction false} NestedCells(o: Option<Stmt>, slots: Slots, base: nat)
    requires Slotting(slots) && CompileNested(o, slots, base).Some? && Small(base, CompileNested(o, slots, base).value)
    ensures AllInRange(CompileNested(o, slots, base).value.code)
    decreases o, 4
  {
    if o.Some? {
      StmtCells(o.value, slots, base);
    }
  }

  lemma {:induction false} BlockCells(ss: seq<Stmt>, slots: Slots, base: nat)
    requires Slotting(slots) && CompileBlock(ss, slots, base).Some? && Small(base, CompileBlock(ss, slots, base).value)
    ensures AllInRange(CompileBlock(ss, slots, base).value.code)
    decreases ss, 0
  {
    if ss != [] {
      StmtSlots(ss[0], slots, base);
      var h := CompileStmt(ss[0], slots, base).value;
      BlockSlots(ss[1..], h.slots, base + |h.code|);
      StmtCells(ss[0], slots, base);
      BlockCells(ss[1..], h.slots, base + |h.code|);
    }
  }

  // ----- the machine's first state -----

  /** The environment the argument cells amount to, through the finished slot table. */
  function SlotEnv(slots: Slots, args: seq<int>): Sem.Env {
    map x | x in slots && slots[x] < |args| :: ToInt32(args[slots[x]])
  }

  lemma ArgumentsRepresent(slots: Slots, args: seq<int>)
    requires Slotting(slots)
    ensures Represents(slots, SlotEnv(slots, args), VM.Arguments(args, |slots|))
  {
  }

  // ----- the simulation, for a whole flow -----

  /** A flow compiled to addressable code. */
  ghost predicate Runnable(flow: Flow) {
    && CompileFlow(flow).Some?
    && |CompileFlow(flow).value.code| <= I32_MAX
    && CompileFlow(flow).value.localCount <= I32_MAX
  }

  function FlowSlots(flow: Flow): Slots
    requires CompileFlow(flow).Some?
  {
    CompileBody(flow).value.slots
  }

  /** The program holds the code of the body and the default return, cell by cell. */
  lemma ProgramCode(flow: Flow, e: Emitted)
    requires CompileFlow(flow).Some?
    requires CompileBlock(flow.body.value, ParamSlots(flow.params, |flow.params|), 0) == Some(e)
    requires AllInRange(e.code)
    ensures CodeAt(CompileFlow(flow).value.code, 0, e.code + [LOAD_CONST, 0, RETURN])
  {
    var all := e.code + [LOAD_CONST, 0, RETURN];
    forall i | 0 <= i < |all| ensures InRange(all[i]) {
      assert i >= |e.code| ==> all[i] == [LOAD_CONST, 0, RETURN][i - |e.code|];
    }
  }

  lemma FlowCode(flow: Flow) returns (e: Emitted)
    requires Runnable(flow)
    ensures CompileBlock(flow.body.value, ParamSlots(flow.params, |flow.params|), 0) == Some(e)
    ensures e.slots == FlowSlots(flow) && Slotting(e.slots)
    ensures Extends(ParamSlots(flow.params, |flow.params|), e.slots)
    ensures CodeAt(CompileFlow(flow).value.code, 0, e.code)
    ensures CodeAt(CompileFlow(flow).value.code, |e.code|, [LOAD_CONST, 0, RETURN])
  {
    var start := ParamSlots(flow.params, |flow.params|);
    e := CompileBlock(flow.body.value, start, 0).value;
    ParamSlotting(flow.params, |flow.params|);
    BlockSlots(flow.body.value, start, 0);
    BlockCells(flow.body.value, start, 0);
    ProgramCode(flow, e);
    CodeSplit(CompileFlow(flow).value.code, 0, e.code, [LOAD_CONST, 0, RETURN]);
  }

  /** The checked machine on compiled code does what the source does, and faults where that would
      take more operand cells than there are. */
  lemma MachineRunsFlow(flow: Flow, args: seq<int>, max: nat)
    requires Runnable(flow)
    ensures var p := CompileFlow(flow).value;
            M.Run(p.code, max, M.State(0, [], VM.Arguments(args, p.localCount), 0))
            == Means(Sem.ExecBlock(CutAll(flow.body.value), SlotEnv(FlowSlots(flow), args), max), M.Returned(0))
  {
    var p := CompileFlow(flow).value;
    var e := FlowCode(flow);
    var env := SlotEnv(e.slots, args);
    var st := M.State(0, [], VM.Arguments(args, p.localCount), 0);
    var m := MachineOf(p.code, max);
    MachineIsFaithful(p.code, max);
    ArgumentsRepresent(e.slots, args);
    ParamSlotting(flow.params, |flow.params|);
    var end := BlockRuns(m, flow.body.value, ParamSlots(flow.params, |flow.params|), e.slots, env, st);
    if FallsThrough(Sem.ExecBlock(CutAll(flow.body.value), env, max)) {
      ReturnZero(m, end);
    }
  }

  lemma ReturnZero(m: Machine, st: M.State)
    requires Faithful(m)
    requires st.edges <= m.max && st.stack == [] && CodeAt(m.code, st.pc, [LOAD_CONST, 0, RETURN])
    ensures m.run(st) == M.Returned(0)
  {
    assert [LOAD_CONST, 0, RETURN] == [LOAD_CONST, 0] + [RETURN];
    CodeSplit(m.code, st.pc, [LOAD_CONST, 0], [RETURN]);
    PushRuns(m, LOAD_CONST, 0, 0, st);
    ReturnTail(m, Pushed(st, 2, 0));
  }

  lemma StartMatches(p: Program, args: seq<int>)
    ensures VM.Matches(VM.Start(p, args), M.State(0, [], VM.Arguments(args, p.localCount), 0))
  {
  }

  /** What runBytecode answers on the compiled flow. */
  function VmAnswer(flow: Flow, args: seq<int>, max: nat): VM.JsHalt
    requires CompileFlow(flow).Some?
  {
    var p := CompileFlow(flow).value;
    VM.JsRun(p.code, max, VM.Start(p, args))
  }

  /** A source run of the body ends in `out` after at most `max` completed loop bodies. */
  ghost predicate EndsWithin(body: seq<Stmt>, env: Sem.Env, out: Sem.Outcome, max: nat) {
    exists n: nat :: n <= max && Sem.FlowRuns(body, env, out, n)
  }

  /** No source run of the body ends that early. */
  ghost predicate OutlastsCap(body: seq<Stmt>, env: Sem.Env, max: nat) {
    forall out, n: nat :: Sem.FlowRuns(body, env, out, n) ==> n > max
  }

  lemma {:induction false} BoundedFlow(body: seq<Stmt>, env: Sem.Env, max: nat)
    ensures var r := Sem.ExecBlock(body, env, max);
            && (forall out :: EndsWithin(body, env, out, max) <==>
                  r.Done? && out == if r.res.Ended? then r.res.out else Sem.Returned(0))
            && (r.Exhausted? <==> OutlastsCap(body, env, max))
  {
    var block := Block(body);
    var r := Sem.ExecBlock(body, env, max);
    Sem.ExecDecidesBigStep(block, env, max);
    assert Sem.Exec(block, env, max) == r;
    if r.Done? {
      assert Sem.BigStep(block, env, r.res, max - r.left);
      assert Sem.FlowRuns(body, env, if r.res.Ended? then r.res.out else Sem.Returned(0), max - r.left);
    }
    forall out, n: nat | Sem.FlowRuns(body, env, out, n) && n <= max
      ensures r.Done? && out == if r.res.Ended? then r.res.out else Sem.Returned(0)
    {
      if Sem.BigStep(block, env, Sem.Ended(out), n) {
        Sem.ExecComplete(block, env, Sem.Ended(out), n, max);
      } else {
        var last :| Sem.BigStep(block, env, Sem.FellThrough(last), n);
        Sem.ExecComplete(block, env, Sem.FellThrough(last), n, max);
      }
    }
  }

  // ----- the operand stack -----

  /** The source run, while the cap allows it, evaluates an expression that takes more operand cells
      than there are. */
  predicate Overflows(flow: Flow, args: seq<int>, max: nat)
    requires CompileFlow(flow).Some?
  {
    MeetsAll(flow.body.value, SlotEnv(FlowSlots(flow), args), max)
  }

  lemma SourceNeverStuck(flow: Flow, args: seq<int>, max: nat)
    requires Runnable(flow)
    ensures !IsStuck(Sem.ExecBlock(flow.body.value, SlotEnv(FlowSlots(flow), args), max))
  {
    var e := FlowCode(flow);
    BlockNeverStuck(flow.body.value, ParamSlots(flow.params, |flow.params|), 0, SlotEnv(FlowSlots(flow), args), max);
  }

  /** The checked machine faults exactly on the runs that overflow the operand stack. */
  lemma FaultsIffOverflows(flow: Flow, args: seq<int>, max: nat)
    requires Runnable(flow)
    ensures var p := CompileFlow(flow).value;
            M.Run(p.code, max, M.State(0, [], VM.Arguments(args, p.localCount), 0)) == M.Fault
            <==> Overflows(flow, args, max)
  {
    MachineRunsFlow(flow, args, max);
    SourceNeverStuck(flow, args, max);
    CutAllRuns(flow.body.value, SlotEnv(FlowSlots(flow), args), max);
  }

  /** A flow all of whose expressions fit never overflows it, whatever its arguments. */
  lemma FitsNeverOverflows(flow: Flow, args: seq<int>, max: nat)
    requires Runnable(flow) && forall t :: t in flow.body.value ==> Fits(t)
    ensures !Overflows(flow, args, max)
  {
    SourceNeverStuck(flow, args, max);
    CutKeepsAll(flow.body.value);
    CutAllRuns(flow.body.value, SlotEnv(FlowSlots(flow), args), max);
  }

  lemma VmRunsFlow(flow: Flow, args: seq<int>, max: nat)
    requires Runnable(flow) && !Overflows(flow, args, max)
    ensures var r := Sem.ExecBlock(flow.body.value, SlotEnv(FlowSlots(flow), args), max);
            !IsStuck(r) && VmAnswer(flow, args, max) == VM.Lift(Means(r, M.Returned(0)))
  {
    var p := CompileFlow(flow).value;
    MachineRunsFlow(flow, args, max);
    SourceNeverStuck(flow, args, max);
    CutAllRuns(flow.body.value, SlotEnv(FlowSlots(flow), args), max);
    StartMatches(p, args);
    VM.RunRefines(p.code, max, VM.Start(p, args), M.State(0, [], VM.Arguments(args, p.localCount), 0));
  }

  /**
   Compilation preserves meaning, and the loop cap is exact.

   The VM returns v exactly when the source run returns v, and traps with a kind exactly when
   the source run traps with it, after completing at most `max` loop bodies; it reports the
   loop cap exactly when the source has no run that short; and it never does anything else.
   */
  lemma CompilationPreservesMeaning(flow: Flow, args: seq<int>, max: nat)
    requires Runnable(flow) && !Overflows(flow, args, max)
    ensures var body, env, h := flow.body.value, SlotEnv(FlowSlots(flow), args), VmAnswer(flow, args, max);
            && (forall v :: h == VM.Returned(VM.Num(v)) <==> EndsWithin(body, env, Sem.Returned(v), max))
            && (forall k :: h == VM.Trapped(k) <==> EndsWithin(body, env, Sem.Trapped(k), max))
            && (h == VM.LoopCap <==> OutlastsCap(body, env, max))
            && (h == VM.LoopCap || h.Trapped? || (h.Returned? && h.v.Num?))
            && !EndsWithin(body, env, Sem.Stuck, max)
  {
    VmRunsFlow(flow, args, max);
    BoundedFlow(flow.body.value, SlotEnv(FlowSlots(flow), args), max);
  }
}
