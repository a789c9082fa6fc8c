/**
 Compiled code means what the flow means, as far as the operand stack reaches.

 The proof is a simulation: running the code of a node from a machine state is the same as
 running from the state the source semantics predicts, for the body cut off where the operand stack ends:
 where that gets stuck the machine faults. Loops are handled by the budget of `FlowSemantics.Exec`,
 which is the number of back edges the machine has left.
 */
module CompilerCorrectness {
  import opened Options
  import opened Int32Arith
  import opened FlowSyntax
  import opened Opcodes
  import opened BytecodeCompiler
  import opened StackMachine
  import opened StackNeed
  import Sem = FlowSemantics

  // ----- code in memory -----

  ghost predicate CodeAt(code: seq<Int32>, pc: nat, part: seq<int>) {
    pc + |part| <= |code| && forall i :: 0 <= i < |part| ==> code[pc + i] == part[i]
  }

  lemma CodeSplit(code: seq<Int32>, pc: nat, a: seq<int>, b: seq<int>)
    requires CodeAt(code, pc, a + b)
    ensures CodeAt(code, pc, a) && CodeAt(code, pc + |a|, b)
  {
    forall i | 0 <= i < |a| ensures code[pc + i] == a[i] {
      assert (a + b)[i] == a[i];
    }
    forall i | 0 <= i < |b| ensures code[pc + |a| + i] == b[i] {
      assert (a + b)[|a| + i] == b[i];
    }
  }

  lemma CodeCell(code: seq<Int32>, pc: nat, part: seq<int>, i: nat)
    requires CodeAt(code, pc, part) && i < |part|
    ensures pc + i < |code| && code[pc + i] == part[i]
  {
  }

  // ----- variables in slots -----

  /** Every variable with a slot has its value there. */
  ghost predicate Represents(slots: Slots, env: Sem.Env, locals: seq<Int32>) {
    forall x :: x in slots ==> slots[x] < |locals| && locals[slots[x]] == Sem.Lookup(env, x)
  }

  lemma RepresentsFewer(a: Slots, b: Slots, env: Sem.Env, locals: seq<Int32>)
    requires Extends(a, b) && Represents(b, env, locals)
    ensures Represents(a, env, locals)
  {
  }

  lemma RepresentsStore(slots: Slots, env: Sem.Env, locals: seq<Int32>, x: string, v: Int32)
    requires Slotting(slots) && Represents(slots, env, locals) && x in slots
    ensures Represents(slots, env[x := v], locals[slots[x] := v])
  {
  }

  lemma ExtendsTransitive(a: Slots, b: Slots, c: Slots)
    requires Extends(a, b) && Extends(b, c)
    ensures Extends(a, c)
  {
  }

  // ----- expressions -----

  /** The VM's trapping arithmetic, fast paths included, is the exact arithmetic of the source. */
  lemma BinaryAgrees(op: BinOp, a: Int32, b: Int32)
    ensures BinaryOp(op, a, b) == Sem.BinaryMeaning(op, a, b)
  {
    MulIsExact(a, b);
    DivIsExact(a, b);
    ModIsExact(a, b);
  }

  lemma UnaryAgrees(op: UnOp, a: Int32)
    ensures UnaryOp(op, a) == Sem.UnaryMeaning(op, a)
  {
  }

  /** Code, the cap, and how the machine's run ends from each state. */
  datatype Machine = Machine(code: seq<Int32>, max: nat, run: State -> Halt)

  /** Marks the states at which a proof looks into the run. */
  predicate Seen(st: State) {
    true
  }

  ghost predicate Faithful(m: Machine) {
    forall st {:trigger Seen(st)} :: Seen(st) && st.edges <= m.max ==> m.run(st) == Run(m.code, m.max, st)
  }

  /** After an expression: its value on top of an otherwise untouched machine. */
  function Pushed(st: State, width: nat, v: Int32): State {
    st.(pc := st.pc + width, stack := st.stack + [v])
  }

  /** The machine itself. */
  function MachineOf(code: seq<Int32>, max: nat): Machine {
    Machine(code, max, (st: State) => if st.edges <= max then Run(code, max, st) else Fault)
  }

  lemma MachineIsFaithful(code: seq<Int32>, max: nat)
    ensures Faithful(MachineOf(code, max))
  {
  }

  /** How the machine's run ends, given how it ends behind the expression. */
  ghost predicate ExprOutcome(m: Machine, st: State, width: nat, r: Sem.ExprResult)
    requires st.edges <= m.max
  {
    m.run(st)
    == match r
       case Value(v) => m.run(Pushed(st, width, v))
       case Raises(k) => Trapped(k)
       case Meaningless => Fault
  }

  /** A push needs a free cell. */
  lemma PushRuns(m: Machine, op: int, arg: int, v: Int32, st: State)
    requires Faithful(m)
    requires st.edges <= m.max && |st.stack| <= STACK_CELLS && CodeAt(m.code, st.pc, [op, arg])
    requires (op == LOAD_CONST && arg == v)
             || (op == LOAD_LOCAL && 0 <= arg < |st.locals| && st.locals[arg] == v)
    ensures m.run(st)
         == if |st.stack| < STACK_CELLS then m.run(Pushed(st, 2, v)) else Fault
  {
    CodeCell(m.code, st.pc, [op, arg], 0);
    CodeCell(m.code, st.pc, [op, arg], 1);
    assert Seen(st) && Seen(Pushed(st, 2, v));
  }

  lemma LeafRuns(m: Machine, e: Expr, slots: Slots, env: Sem.Env, st: State)
    requires Faithful(m)
    requires st.edges <= m.max && |st.stack| <= STACK_CELLS && !e.BinaryExpr? && !e.UnaryExpr?
    requires CompileExpr(e, slots).Some? && CodeAt(m.code, st.pc, CompileExpr(e, slots).value)
    requires Represents(slots, env, st.locals)
    ensures ExprOutcome(m, st, |CompileExpr(e, slots).value|,
                        Sem.Eval(CutExpr(e, STACK_CELLS - |st.stack|), env))
  {
    var part := CompileExpr(e, slots).value;
    PushRuns(m, part[0], part[1], Sem.Eval(e, env).v, st);
  }

  lemma {:induction false} ExprRuns(m: Machine, e: Expr, slots: Slots, env: Sem.Env, st: State)
    requires Faithful(m)
    requires st.edges <= m.max && |st.stack| <= STACK_CELLS
    requires CompileExpr(e, slots).Some? && CodeAt(m.code, st.pc, CompileExpr(e, slots).value)
    requires Represents(slots, env, st.locals)
    ensures ExprOutcome(m, st, |CompileExpr(e, slots).value|,
                        Sem.Eval(CutExpr(e, STACK_CELLS - |st.stack|), env))
    decreases e, 1
  {
    match e
    case BinaryExpr(_, _, _) => BinaryExprRuns(m, e, slots, env, st);
    case UnaryExpr(op, x) =>
      var c := CompileExpr(x, slots).value;
      CodeSplit(m.code, st.pc, c, [UnOpcode(op)]);
      ExprRuns(m, x, slots, env, st);
      var a := Sem.Eval(CutExpr(x, STACK_CELLS - |st.stack|), env);
      if a.Value? {
        UnaryRuns(m, op, a.v, st, Pushed(st, |c|, a.v));
      }
    case _ => LeafRuns(m, e, slots, env, st);
  }

  lemma BinaryLayout(code: seq<Int32>, pc: nat, e: Expr, slots: Slots) returns (cl: seq<int>, cr: seq<int>)
    requires e.BinaryExpr? && CompileExpr(e, slots).Some? && CodeAt(code, pc, CompileExpr(e, slots).value)
    ensures CompileExpr(e.left, slots) == Some(cl) && CompileExpr(e.right, slots) == Some(cr)
    ensures |CompileExpr(e, slots).value| == |cl| + |cr| + 1
    ensures CodeAt(code, pc, cl) && CodeAt(code, pc + |cl|, cr)
    ensures CodeAt(code, pc + |cl| + |cr|, [BinOpcode(e.op)])
  {
    cl, cr := CompileExpr(e.left, slots).value, CompileExpr(e.right, slots).value;
    CodeSplit(code, pc, cl + cr, [BinOpcode(e.op)]);
    CodeSplit(code, pc, cl, cr);
  }

  lemma BinaryMeans(e: Expr, free: nat, env: Sem.Env)
    requires e.BinaryExpr?
    ensures var a := Sem.Eval(CutExpr(e.left, free), env);
            && (a.Value? ==> free > 0)
            && Sem.Eval(CutExpr(e, free), env)
               == if !a.Value? then a else BinaryResult(e.op, a.v, Sem.Eval(CutExpr(e.right, free - 1), env))
  {
    CutMeaning(e.left, free, env);
  }

  function BinaryResult(op: BinOp, a: Int32, b: Sem.ExprResult): Sem.ExprResult {
    if b.Value? then Sem.FromChecked(Sem.BinaryMeaning(op, a, b.v)) else b
  }

  lemma {:induction false} BinaryExprRuns(m: Machine, e: Expr, slots: Slots, env: Sem.Env, st: State)
    requires Faithful(m)
    requires st.edges <= m.max && |st.stack| <= STACK_CELLS && e.BinaryExpr?
    requires CompileExpr(e, slots).Some? && CodeAt(m.code, st.pc, CompileExpr(e, slots).value)
    requires Represents(slots, env, st.locals)
    ensures ExprOutcome(m, st, |CompileExpr(e, slots).value|,
                        Sem.Eval(CutExpr(e, STACK_CELLS - |st.stack|), env))
    decreases e, 0
  {
    var free := STACK_CELLS - |st.stack|;
    var cl, cr := BinaryLayout(m.code, st.pc, e, slots);
    BinaryMeans(e, free, env);
    ExprRuns(m, e.left, slots, env, st);
    var a := Sem.Eval(CutExpr(e.left, free), env);
    if a.Value? {
      RightRuns(m, e.right, slots, env, st, |cl|, a.v);
      BinaryTail(m, e.op, st, |cl|, a.v, |cr|, Sem.Eval(CutExpr(e.right, free - 1), env));
    }
  }

  /** The right operand, above the value of the left one. */
  lemma {:induction false} RightRuns(m: Machine, r: Expr, slots: Slots, env: Sem.Env, st: State, wl: nat, a: Int32)
    requires Faithful(m)
    requires st.edges <= m.max && |st.stack| < STACK_CELLS
    requires CompileExpr(r, slots).Some? && CodeAt(m.code, st.pc + wl, CompileExpr(r, slots).value)
    requires Represents(slots, env, st.locals)
    ensures ExprOutcome(m, Pushed(st, wl, a), |CompileExpr(r, slots).value|,
                        Sem.Eval(CutExpr(r, STACK_CELLS - |st.stack| - 1), env))
    decreases r, 2
  {
    ExprRuns(m, r, slots, env, Pushed(st, wl, a));
  }

  /** Both operands and the operator behind them. */
  lemma BinaryTail(m: Machine, op: BinOp, st: State, wl: nat, a: Int32, wr: nat, b: Sem.ExprResult)
    requires Faithful(m)
    requires st.edges <= m.max && CodeAt(m.code, st.pc + wl + wr, [BinOpcode(op)])
    requires ExprOutcome(m, st, wl, Sem.Value(a)) && ExprOutcome(m, Pushed(st, wl, a), wr, b)
    ensures ExprOutcome(m, st, wl + wr + 1, BinaryResult(op, a, b))
  {
    if b.Value? {
      BinaryRuns(m, op, a, b.v, st, Pushed(Pushed(st, wl, a), wr, b.v));
    }
  }

  lemma BinaryRuns(m: Machine, op: BinOp, a: Int32, b: Int32, st: State, st2: State)
    requires Faithful(m)
    requires st.edges <= m.max && st2.pc >= st.pc
    requires st2 == st.(pc := st2.pc, stack := st.stack + [a] + [b])
    requires CodeAt(m.code, st2.pc, [BinOpcode(op)])
    ensures match Sem.BinaryMeaning(op, a, b)
            case Trap(k) => m.run(st2) == Trapped(k)
            case Val(v) => m.run(st2) == m.run(Pushed(st, st2.pc + 1 - st.pc, v))
  {
    var r := Sem.BinaryMeaning(op, a, b);
    BinaryAgrees(op, a, b);
    CodeCell(m.code, st2.pc, [BinOpcode(op)], 0);
    assert Seen(st2);
    if r.Val? {
      assert Seen(Pushed(st, st2.pc + 1 - st.pc, r.v));
    }
    assert BinOpOf(m.code[st2.pc]) == op;
    assert st2.stack[..|st2.stack| - 2] == st.stack;
  }

  lemma UnaryRuns(m: Machine, op: UnOp, a: Int32, st: State, st1: State)
    requires Faithful(m)
    requires st.edges <= m.max && st1.pc >= st.pc
    requires st1 == st.(pc := st1.pc, stack := st.stack + [a])
    requires CodeAt(m.code, st1.pc, [UnOpcode(op)])
    ensures match Sem.UnaryMeaning(op, a)
            case Trap(k) => m.run(st1) == Trapped(k)
            case Val(v) => m.run(st1) == m.run(Pushed(st, st1.pc + 1 - st.pc, v))
  {
    var r := Sem.UnaryMeaning(op, a);
    UnaryAgrees(op, a);
    CodeCell(m.code, st1.pc, [UnOpcode(op)], 0);
    assert Seen(st1);
    if r.Val? {
      assert Seen(Pushed(st, st1.pc + 1 - st.pc, r.v));
    }
    assert st1.stack[..|st1.stack| - 1] == st.stack;
  }

  // ----- which slots a statement adds -----

  /** Slots only get added, and stay distinct. */
  ghost predicate Grown(slots: Slots, e: Option<Emitted>) {
    e.Some? ==> Slotting(e.value.slots) && Extends(slots, e.value.slots) && |slots| <= |e.value.slots|
  }

  lemma StoreSlots(x: string, e: Option<Expr>, slots: Slots)
    requires Slotting(slots)
    ensures Grown(slots, CompileStore(x, e, slots))
  {
    WithSlotProperties(slots, x);
  }

  lemma {:induction false} StmtSlots(s: Stmt, slots: Slots, base: nat)
    requires Slotting(slots)
    ensures Grown(slots, CompileStmt(s, slots, base))
    decreases s, 1
  {
    match s
    case LetDecl(x, e) => StoreSlots(x, e, slots);
    case AssignStmt(x, e) => StoreSlots(x, e, slots);
    case ReturnStmt(_) =>
    case UnsupportedStmt =>
    case Block(ss) => BlockSlots(ss, slots, base);
    case WhileStmt(cond, body) =>
      var c := CompileCond(cond, slots);
      if c.Some? {
        NestedSlots(body, slots, base + |c.value| + 2);
      }
    case IfStmt(cond, _, _) =>
      var c := CompileCond(cond, slots);
      if c.Some? {
        IfSlots(s, c.value, slots, base);
      }
  }

  lemma {:induction false} IfSlots(s: Stmt, c: seq<int>, slots: Slots, base: nat)
    requires s.IfStmt? && Slotting(slots)
    ensures Grown(slots, CompileIf(s, c, slots, base))
    decreases s, 0
  {
    NestedSlots(s.thn, slots, base + |c| + 2);
    var t := CompileNested(s.thn, slots, base + |c| + 2);
    if t.Some? && s.els.Some? {
      var elseAddr := base + |c| + 2 + |t.value.code| + 2;
      NestedSlots(s.els, t.value.slots, elseAddr);
      GrownTransitive(slots, t.value, CompileNested(s.els, t.value.slots, elseAddr));
    }
  }

  lemma GrownTransitive(slots: Slots, mid: Emitted, last: Option<Emitted>)
    requires Grown(slots, Some(mid)) && Grown(mid.slots, last)
    ensures Grown(slots, last)
  {
    if last.Some? {
      ExtendsTransitive(slots, mid.slots, last.value.slots);
    }
  }

  lemma {:induction false} NestedSlots(o: Option<Stmt>, slots: Slots, base: nat)
    requires Slotting(slots)
    ensures Grown(slots, CompileNested(o, slots, base))
    decreases o, 2
  {
    match o
    case None =>
    case Some(t) => StmtSlots(t, slots, base);
  }

  /** A block compiles to its first statement, then the rest. */
  lemma BlockParts(ss: seq<Stmt>, slots: Slots, base: nat) returns (h: Emitted, t: Emitted)
    requires ss != [] && CompileBlock(ss, slots, base).Some?
    ensures CompileStmt(ss[0], slots, base) == Some(h)
    ensures CompileBlock(ss[1..], h.slots, base + |h.code|) == Some(t)
    ensures CompileBlock(ss, slots, base).value == Emitted(h.code + t.code, t.slots)
  {
    h := CompileStmt(ss[0], slots, base).value;
    t := CompileBlock(ss[1..], h.slots, base + |h.code|).value;
  }

  lemma {:induction false} BlockSlots(ss: seq<Stmt>, slots: Slots, base: nat)
    requires Slotting(slots)
    ensures Grown(slots, CompileBlock(ss, slots, base))
    decreases ss, 0
  {
    if ss != [] && CompileBlock(ss, slots, base).Some? {
      var h, t := BlockParts(ss, slots, base);
      StmtSlots(ss[0], slots, base);
      BlockSlots(ss[1..], h.slots, base + |h.code|);
      GrownTransitive(slots, h, Some(t));
    }
  }

  // ----- statements -----

  /** The machine between two statements: nothing on the operand stack, every variable in place. */
  ghost predicate AtBoundary(st: State, pc: nat, edges: nat, slots: Slots, env: Sem.Env) {
    st.pc == pc && st.stack == [] && st.edges == edges && Represents(slots, env, st.locals)
  }

  /** How the machine's run ends, given how it ends behind a statement whose source run is `r`. */
  function Means(r: Sem.Run, behind: Halt): Halt {
    match r
    case Exhausted => LoopCap
    case Done(Ended(Returned(v)), _) => Returned(v)
    case Done(Ended(Trapped(k)), _) => Trapped(k)
    case Done(Ended(Stuck), _) => Fault
    case Done(FellThrough(_), _) => behind
  }

  /** From `st` the machine does what the source run `r` did; if that fell through, it gets to
      `end`, the boundary behind the statement. */
  ghost predicate StmtOutcome(m: Machine, st: State, r: Sem.Run, end: State, pc: nat, slots: Slots)
    requires st.edges <= m.max
  {
    && end.edges <= m.max && m.run(st) == Means(r, m.run(end))
    && (FallsThrough(r) ==> r.left <= m.max && AtBoundary(end, pc, m.max - r.left, slots, r.res.env))
  }

  /** The outcome of a state the machine is known to reach is the outcome of where it came from. */
  lemma OutcomeFrom(m: Machine, from: State, st: State, r: Sem.Run, end: State, pc: nat, slots: Slots)
    requires from.edges <= m.max && st.edges <= m.max && m.run(from) == m.run(st)
    requires StmtOutcome(m, st, r, end, pc, slots)
    ensures StmtOutcome(m, from, r, end, pc, slots)
  {
  }

  /** A run that does not fall through ends the same way whatever follows. */
  lemma OutcomeWithoutEnd(m: Machine, st: State, r: Sem.Run, end: State, pc: nat, behind: nat, slots: Slots)
    requires st.edges <= m.max && StmtOutcome(m, st, r, end, pc, slots) && !FallsThrough(r)
    ensures StmtOutcome(m, st, r, end, behind, slots)
  {
  }

  lemma OrZeroRuns(m: Machine, e: Option<Expr>, slots: Slots, env: Sem.Env, st: State)
    requires Faithful(m)
    requires st.edges <= m.max && st.stack == []
    requires CompileOrZero(e, slots).Some? && CodeAt(m.code, st.pc, CompileOrZero(e, slots).value)
    requires Represents(slots, env, st.locals)
    ensures ExprOutcome(m, st, |CompileOrZero(e, slots).value|, Sem.EvalOrZero(CutOption(e), env))
  {
    match e
    case None => PushRuns(m, LOAD_CONST, 0, 0, st);
    case Some(x) => ExprRuns(m, x, slots, env, st);
  }

  /** Statement code sits at the machine's program counter; `all` is the finished slot table. */
  ghost predicate Placed(code: seq<Int32>, st: State, e: Option<Emitted>, slots: Slots, all: Slots) {
    e.Some? && CodeAt(code, st.pc, e.value.code) && Slotting(slots) && Slotting(all) && Extends(e.value.slots, all)
  }

  ghost predicate Ready(max: nat, st: State, all: Slots, env: Sem.Env) {
    st.edges <= max && st.stack == [] && Represents(all, env, st.locals)
  }

  lemma StoreLayout(code: seq<Int32>, pc: nat, x: string, e: Option<Expr>, slots: Slots, all: Slots)
    returns (c: seq<int>)
    requires Slotting(slots) && CompileStore(x, e, slots).Some?
    requires CodeAt(code, pc, CompileStore(x, e, slots).value.code)
    requires Extends(CompileStore(x, e, slots).value.slots, all)
    ensures CompileOrZero(e, slots) == Some(c) && |CompileStore(x, e, slots).value.code| == |c| + 2
    ensures x in all && Extends(slots, all)
    ensures CodeAt(code, pc, c) && CodeAt(code, pc + |c|, [STORE_LOCAL, all[x]])
  {
    c := CompileOrZero(e, slots).value;
    CodeSplit(code, pc, c, [STORE_LOCAL, WithSlot(slots, x)[x]]);
    StoreSlots(x, e, slots);
    ExtendsTransitive(slots, WithSlot(slots, x), all);
  }

  lemma StoreRuns(m: Machine, x: string, e: Option<Expr>, slots: Slots, all: Slots,
                  env: Sem.Env, st: State)
    returns (end: State)
    requires Faithful(m)
    requires Ready(m.max, st, all, env) && Placed(m.code, st, CompileStore(x, e, slots), slots, all)
    ensures StmtOutcome(m, st, Sem.Done(Sem.Stored(x, Sem.EvalOrZero(CutOption(e), env), env), m.max - st.edges),
                        end, st.pc + |CompileStore(x, e, slots).value.code|, all)
  {
    end := st;
    var c := StoreLayout(m.code, st.pc, x, e, slots, all);
    RepresentsFewer(slots, all, env, st.locals);
    OrZeroRuns(m, e, slots, env, st);
    var r := Sem.EvalOrZero(CutOption(e), env);
    if r.Value? {
      end := StoreTail(m, x, all, env, Pushed(st, |c|, r.v), r.v);
    }
  }

  lemma StoreTail(m: Machine, x: string, all: Slots, env: Sem.Env, st: State, v: Int32)
    returns (end: State)
    requires Faithful(m)
    requires st.edges <= m.max && st.stack == [v] && Represents(all, env, st.locals)
    requires Slotting(all) && x in all && CodeAt(m.code, st.pc, [STORE_LOCAL, all[x]])
    ensures AtBoundary(end, st.pc + 2, st.edges, all, env[x := v]) && m.run(st) == m.run(end)
  {
    CodeCell(m.code, st.pc, [STORE_LOCAL, all[x]], 0);
    CodeCell(m.code, st.pc, [STORE_LOCAL, all[x]], 1);
    end := st.(pc := st.pc + 2, stack := [], locals := st.locals[all[x] := v]);
    RepresentsStore(all, env, st.locals, x, v);
    assert Step(m.code, m.max, st) == Next(end);
    assert Seen(st) && Seen(end);
  }

  lemma ReturnRuns(m: Machine, e: Option<Expr>, slots: Slots, all: Slots, env: Sem.Env, st: State)
    requires Faithful(m)
    requires Ready(m.max, st, all, env) && Placed(m.code, st, CompileStmt(ReturnStmt(e), slots, st.pc), slots, all)
    ensures StmtOutcome(m, st, Sem.Exec(Cut(ReturnStmt(e)), env, m.max - st.edges), st, 0, all)
  {
    var c := CompileOrZero(e, slots).value;
    CodeSplit(m.code, st.pc, c, [RETURN]);
    RepresentsFewer(slots, all, env, st.locals);
    OrZeroRuns(m, e, slots, env, st);
    var r := Sem.EvalOrZero(CutOption(e), env);
    if r.Value? {
      ReturnTail(m, Pushed(st, |c|, r.v));
    }
  }

  lemma ReturnTail(m: Machine, st: State)
    requires Faithful(m)
    requires st.edges <= m.max && |st.stack| > 0 && CodeAt(m.code, st.pc, [RETURN])
    ensures m.run(st) == Returned(st.stack[|st.stack| - 1])
  {
    CodeCell(m.code, st.pc, [RETURN], 0);
    assert Seen(st);
  }

  /** A condition and the JUMP_IF_FALSE behind it; the jump goes forward, so it costs nothing. */
  lemma CondRuns(m: Machine, cond: Option<Expr>, slots: Slots, all: Slots, env: Sem.Env, st: State,
                 target: nat)
    requires Faithful(m)
    requires Ready(m.max, st, all, env) && Extends(slots, all) && CompileCond(cond, slots).Some?
    requires var c := CompileCond(cond, slots).value;
             && CodeAt(m.code, st.pc, c) && CodeAt(m.code, st.pc + |c|, [JUMP_IF_FALSE, target])
             && target >= st.pc + |c| + 2
    ensures var afterJump := st.pc + |CompileCond(cond, slots).value| + 2;
            match Sem.EvalCond(CutOption(cond), env)
            case Value(v) => m.run(st) == m.run(st.(pc := if v == 0 then target else afterJump))
            case Raises(k) => m.run(st) == Trapped(k)
            case Meaningless => m.run(st) == Fault
  {
    var c := CompileCond(cond, slots).value;
    RepresentsFewer(slots, all, env, st.locals);
    ExprRuns(m, cond.value, slots, env, st);
    var r := Sem.EvalCond(CutOption(cond), env);
    if r.Value? {
      ConditionalJump(m, Pushed(st, |c|, r.v), st, target);
    }
  }

  lemma ConditionalJump(m: Machine, st: State, under: State, target: nat)
    requires Faithful(m)
    requires st.edges <= m.max && CodeAt(m.code, st.pc, [JUMP_IF_FALSE, target]) && target >= st.pc + 2
    requires |st.stack| == 1 && under == st.(pc := under.pc, stack := [])
    ensures m.run(st)
         == m.run(under.(pc := if st.stack[0] == 0 then target else st.pc + 2))
  {
    CodeCell(m.code, st.pc, [JUMP_IF_FALSE, target], 0);
    CodeCell(m.code, st.pc, [JUMP_IF_FALSE, target], 1);
    assert st.stack[..|st.stack| - 1] == [];
    assert Seen(st) && Seen(under.(pc := if st.stack[0] == 0 then target else st.pc + 2));
  }

  lemma {:induction false} StmtRuns(m: Machine, s: Stmt, slots: Slots, all: Slots, env: Sem.Env, st: State)
    returns (end: State)
    requires Faithful(m)
    requires Ready(m.max, st, all, env) && Placed(m.code, st, CompileStmt(s, slots, st.pc), slots, all)
    ensures StmtOutcome(m, st, Sem.Exec(Cut(s), env, m.max - st.edges),
                        end, st.pc + |CompileStmt(s, slots, st.pc).value.code|, all)
    decreases m.max - st.edges, s, 3
  {
    match s
    case LetDecl(x, e) => end := StoreRuns(m, x, e, slots, all, env, st);
    case AssignStmt(x, e) => end := StoreRuns(m, x, e, slots, all, env, st);
    case ReturnStmt(e) => end := st; ReturnRuns(m, e, slots, all, env, st);
    case IfStmt(_, _, _) => end := IfRuns(m, s, slots, all, env, st);
    case WhileStmt(cond, _) =>
      end := WhileRuns(m, s, CompileCond(cond, slots).value, slots, all, env, st);
    case Block(ss) => end := BlockRuns(m, ss, slots, all, env, st);
    case UnsupportedStmt => end := st;
  }

  lemma {:induction false} NestedRuns(m: Machine, o: Option<Stmt>, slots: Slots, all: Slots,
                                      env: Sem.Env, st: State)
    returns (end: State)
    requires Faithful(m)
    requires Ready(m.max, st, all, env) && Placed(m.code, st, CompileNested(o, slots, st.pc), slots, all)
    ensures StmtOutcome(m, st, Sem.ExecNested(CutNested(o), env, m.max - st.edges),
                        end, st.pc + |CompileNested(o, slots, st.pc).value.code|, all)
    decreases m.max - st.edges, o, 4
  {
    match o
    case None => end := st;
    case Some(t) => end := StmtRuns(m, t, slots, all, env, st);
  }

  lemma BlockLayout(code: seq<Int32>, ss: seq<Stmt>, slots: Slots, all: Slots, base: nat)
    returns (h: Emitted, t: Emitted)
    requires ss != [] && Slotting(slots)
    requires CompileBlock(ss, slots, base).Some? && CodeAt(code, base, CompileBlock(ss, slots, base).value.code)
    requires Extends(CompileBlock(ss, slots, base).value.slots, all)
    ensures CompileStmt(ss[0], slots, base) == Some(h)
    ensures CompileBlock(ss[1..], h.slots, base + |h.code|) == Some(t)
    ensures CompileBlock(ss, slots, base).value == Emitted(h.code + t.code, t.slots)
    ensures CodeAt(code, base, h.code) && CodeAt(code, base + |h.code|, t.code)
    ensures Slotting(h.slots) && Extends(h.slots, all) && Extends(t.slots, all)
  {
    h, t := BlockParts(ss, slots, base);
    CodeSplit(code, base, h.code, t.code);
    StmtSlots(ss[0], slots, base);
    BlockSlots(ss[1..], h.slots, base + |h.code|);
    ExtendsTransitive(h.slots, t.slots, all);
  }

  lemma {:induction false} BlockRuns(m: Machine, ss: seq<Stmt>, slots: Slots, all: Slots,
                                     env: Sem.Env, st: State)
    returns (end: State)
    requires Faithful(m)
    requires Ready(m.max, st, all, env) && Placed(m.code, st, CompileBlock(ss, slots, st.pc), slots, all)
    ensures StmtOutcome(m, st, Sem.ExecBlock(CutAll(ss), env, m.max - st.edges),
                        end, st.pc + |CompileBlock(ss, slots, st.pc).value.code|, all)
    decreases m.max - st.edges, ss, 0
  {
    if ss == [] {
      end := st;
    } else {
      var h, t := BlockLayout(m.code, ss, slots, all, st.pc);
      var mid := StmtRuns(m, ss[0], slots, all, env, st);
      var r := Sem.Exec(Cut(ss[0]), env, m.max - st.edges);
      var rest := r;
      end := mid;
      if FallsThrough(r) {
        end := BlockRuns(m, ss[1..], h.slots, all, r.res.env, mid);
        rest := Sem.ExecBlock(CutAll(ss[1..]), r.res.env, r.left);
      }
      InSequence(m, st, r, mid, st.pc + |h.code|, rest, end, st.pc + |h.code| + |t.code|, all);
      BlockMeans(ss, env, m.max - st.edges);
    }
  }

  /** One outcome after another. */
  lemma InSequence(m: Machine, st: State, r: Sem.Run, mid: State, pc: nat, rest: Sem.Run, end: State, stop: nat,
                   all: Slots)
    requires st.edges <= m.max && StmtOutcome(m, st, r, mid, pc, all)
    requires if FallsThrough(r) then StmtOutcome(m, mid, rest, end, stop, all) else end == mid && rest == r
    ensures StmtOutcome(m, st, rest, end, stop, all)
  {
  }

  lemma BlockMeans(ss: seq<Stmt>, env: Sem.Env, budget: nat)
    requires ss != []
    ensures var r := Sem.Exec(Cut(ss[0]), env, budget);
            Sem.ExecBlock(CutAll(ss), env, budget)
            == if FallsThrough(r) then Sem.ExecBlock(CutAll(ss[1..]), r.res.env, r.left) else r
  {
    CutAllFirst(ss);
  }

  lemma {:induction false} IfRuns(m: Machine, s: Stmt, slots: Slots, all: Slots, env: Sem.Env, st: State)
    returns (end: State)
    requires Faithful(m)
    requires s.IfStmt?
    requires Ready(m.max, st, all, env) && Placed(m.code, st, CompileStmt(s, slots, st.pc), slots, all)
    ensures StmtOutcome(m, st, Sem.Exec(Cut(s), env, m.max - st.edges),
                        end, st.pc + |CompileStmt(s, slots, st.pc).value.code|, all)
    decreases m.max - st.edges, s, 2
  {
    var c := CompileCond(s.cond, slots).value;
    if s.els.None? {
      end := IfThenRuns(m, s, c, slots, all, env, st);
    } else {
      end := IfElseRuns(m, s, c, slots, all, env, st);
    }
  }

  lemma IfThenLayout(code: seq<Int32>, s: Stmt, c: seq<int>, slots: Slots, all: Slots, base: nat)
    returns (t: Emitted, target: nat)
    requires s.IfStmt? && s.els.None? && Slotting(slots)
    requires CompileIf(s, c, slots, base).Some? && CodeAt(code, base, CompileIf(s, c, slots, base).value.code)
    requires Extends(CompileIf(s, c, slots, base).value.slots, all)
    ensures CompileNested(s.thn, slots, base + |c| + 2) == Some(t) && target == base + |c| + 2 + |t.code|
    ensures CompileIf(s, c, slots, base) == Some(Emitted(IfCode(base, c, t.code), t.slots))
    ensures |IfCode(base, c, t.code)| == target - base
    ensures CodeAt(code, base, c) && CodeAt(code, base + |c|, [JUMP_IF_FALSE, target])
    ensures CodeAt(code, base + |c| + 2, t.code)
    ensures Extends(slots, all) && Extends(t.slots, all)
  {
    t := CompileNested(s.thn, slots, base + |c| + 2).value;
    target := base + |c| + 2 + |t.code|;
    CodeSplit(code, base, c, [JUMP_IF_FALSE, target] + t.code);
    CodeSplit(code, base + |c|, [JUMP_IF_FALSE, target], t.code);
    NestedSlots(s.thn, slots, base + |c| + 2);
    ExtendsTransitive(slots, t.slots, all);
  }

  lemma {:induction false} IfThenRuns(m: Machine, s: Stmt, c: seq<int>, slots: Slots, all: Slots,
                                      env: Sem.Env, st: State)
    returns (end: State)
    requires Faithful(m)
    requires s.IfStmt? && s.els.None? && CompileCond(s.cond, slots) == Some(c)
    requires Ready(m.max, st, all, env) && Placed(m.code, st, CompileIf(s, c, slots, st.pc), slots, all)
    ensures StmtOutcome(m, st, Sem.Exec(Cut(s), env, m.max - st.edges),
                        end, st.pc + |CompileIf(s, c, slots, st.pc).value.code|, all)
    decreases m.max - st.edges, s, 1
  {
    end := st;
    var t, target := IfThenLayout(m.code, s, c, slots, all, st.pc);
    var thenAddr := st.pc + |c| + 2;
    CondRuns(m, s.cond, slots, all, env, st, target);
    var r := Sem.EvalCond(CutOption(s.cond), env);
    if r.Value? {
      if r.v == 0 {
        end := st.(pc := target);
      } else {
        end := BranchRuns(m, s.thn, slots, all, env, st, st.(pc := thenAddr));
      }
    }
  }

  lemma IfElseLayout(code: seq<Int32>, s: Stmt, c: seq<int>, slots: Slots, all: Slots, base: nat)
    returns (t: Emitted, e: Emitted, elseAddr: nat)
    requires s.IfStmt? && s.els.Some? && Slotting(slots)
    requires CompileIf(s, c, slots, base).Some? && CodeAt(code, base, CompileIf(s, c, slots, base).value.code)
    requires Extends(CompileIf(s, c, slots, base).value.slots, all)
    ensures CompileNested(s.thn, slots, base + |c| + 2) == Some(t) && elseAddr == base + |c| + 2 + |t.code| + 2
    ensures CompileNested(s.els, t.slots, elseAddr) == Some(e)
    ensures CompileIf(s, c, slots, base) == Some(Emitted(IfElseCode(base, c, t.code, e.code), e.slots))
    ensures |IfElseCode(base, c, t.code, e.code)| == elseAddr + |e.code| - base
    ensures CodeAt(code, base, c) && CodeAt(code, base + |c|, [JUMP_IF_FALSE, elseAddr])
    ensures CodeAt(code, base + |c| + 2, t.code) && CodeAt(code, elseAddr - 2, [JUMP, elseAddr + |e.code|])
    ensures CodeAt(code, elseAddr, e.code)
    ensures Slotting(t.slots) && Extends(slots, all) && Extends(t.slots, all) && Extends(e.slots, all)
  {
    t := CompileNested(s.thn, slots, base + |c| + 2).value;
    elseAddr := base + |c| + 2 + |t.code| + 2;
    e := CompileNested(s.els, t.slots, elseAddr).value;
    CodeSplit(code, base, c + ([JUMP_IF_FALSE, elseAddr] + t.code), [JUMP, elseAddr + |e.code|] + e.code);
    CodeSplit(code, base, c, [JUMP_IF_FALSE, elseAddr] + t.code);
    CodeSplit(code, base + |c|, [JUMP_IF_FALSE, elseAddr], t.code);
    CodeSplit(code, elseAddr - 2, [JUMP, elseAddr + |e.code|], e.code);
    NestedSlots(s.thn, slots, base + |c| + 2);
    NestedSlots(s.els, t.slots, elseAddr);
    ExtendsTransitive(t.slots, e.slots, all);
    ExtendsTransitive(slots, t.slots, all);
  }

  lemma {:induction false} IfElseRuns(m: Machine, s: Stmt, c: seq<int>, slots: Slots, all: Slots,
                                      env: Sem.Env, st: State)
    returns (end: State)
    requires Faithful(m)
    requires s.IfStmt? && s.els.Some? && CompileCond(s.cond, slots) == Some(c)
    requires Ready(m.max, st, all, env) && Placed(m.code, st, CompileIf(s, c, slots, st.pc), slots, all)
    ensures StmtOutcome(m, st, Sem.Exec(Cut(s), env, m.max - st.edges),
                        end, st.pc + |CompileIf(s, c, slots, st.pc).value.code|, all)
    decreases m.max - st.edges, s, 1
  {
    var t, e, elseAddr := IfElseLayout(m.code, s, c, slots, all, st.pc);
    CondRuns(m, s.cond, slots, all, env, st, elseAddr);
    var r := Sem.EvalCond(CutOption(s.cond), env);
    if !r.Value? {
      end := st;
    } else if r.v == 0 {
      end := BranchRuns(m, s.els, t.slots, all, env, st, st.(pc := elseAddr));
    } else {
      end := BranchRuns(m, s.thn, slots, all, env, st, st.(pc := st.pc + |c| + 2));
      end := SkipElse(m, st, Sem.ExecNested(CutNested(s.thn), env, m.max - st.edges), end, elseAddr - 2,
                      elseAddr + |e.code|, all);
    }
  }

  /** A branch whose code starts where the condition sent the machine. */
  lemma {:induction false} BranchRuns(m: Machine, o: Option<Stmt>, slots: Slots, all: Slots,
                                      env: Sem.Env, st: State, inside: State)
    returns (end: State)
    requires Faithful(m)
    requires inside == st.(pc := inside.pc)
    requires Ready(m.max, inside, all, env) && Placed(m.code, inside, CompileNested(o, slots, inside.pc), slots, all)
    requires m.run(st) == m.run(inside)
    ensures StmtOutcome(m, st, Sem.ExecNested(CutNested(o), env, m.max - st.edges),
                        end, inside.pc + |CompileNested(o, slots, inside.pc).value.code|, all)
    decreases m.max - st.edges, o, 5
  {
    end := NestedRuns(m, o, slots, all, env, inside);
    OutcomeFrom(m, st, inside, Sem.ExecNested(CutNested(o), env, m.max - st.edges),
                end, inside.pc + |CompileNested(o, slots, inside.pc).value.code|, all);
  }

  /** Behind the then branch, a forward jump over the else branch. */
  lemma SkipElse(m: Machine, st: State, r: Sem.Run, mid: State, pc: nat, stop: nat, all: Slots)
    returns (end: State)
    requires Faithful(m)
    requires st.edges <= m.max && StmtOutcome(m, st, r, mid, pc, all)
    requires CodeAt(m.code, pc, [JUMP, stop]) && stop > pc
    ensures StmtOutcome(m, st, r, end, stop, all)
  {
    end := mid;
    if r.Exhausted? || r.res.Ended? {
      OutcomeWithoutEnd(m, st, r, mid, pc, stop, all);
    } else {
      ForwardJump(m, mid, stop);
      end := mid.(pc := stop);
    }
  }

  lemma ForwardJump(m: Machine, st: State, target: nat)
    requires Faithful(m)
    requires st.edges <= m.max && CodeAt(m.code, st.pc, [JUMP, target]) && target > st.pc
    ensures m.run(st) == m.run(st.(pc := target))
  {
    CodeCell(m.code, st.pc, [JUMP, target], 0);
    CodeCell(m.code, st.pc, [JUMP, target], 1);
    assert Seen(st) && Seen(st.(pc := target));
  }

  /** A loop's jump back costs one of the remaining back edges, or hits the cap. */
  lemma JumpBack(m: Machine, st: State, b: Sem.Run, mid: State, pc: nat, all: Slots)
    returns (again: State)
    requires Faithful(m)
    requires st.edges <= m.max && StmtOutcome(m, st, b, mid, pc, all) && b.Done? && b.res.FellThrough?
    requires CodeAt(m.code, pc, [JUMP, st.pc]) && st.pc <= pc
    ensures b.left == 0 ==> m.run(st) == LoopCap
    ensures b.left > 0 ==> AtBoundary(again, st.pc, m.max - b.left + 1, all, b.res.env)
                           && m.run(st) == m.run(again)
  {
    again := mid.(pc := st.pc, edges := mid.edges + 1);
    BackwardJump(m, mid, st.pc);
  }

  lemma BackwardJump(m: Machine, st: State, target: nat)
    requires Faithful(m)
    requires st.edges <= m.max && CodeAt(m.code, st.pc, [JUMP, target]) && target <= st.pc
    ensures m.run(st)
         == if st.edges == m.max then LoopCap else m.run(st.(pc := target, edges := st.edges + 1))
  {
    CodeCell(m.code, st.pc, [JUMP, target], 0);
    CodeCell(m.code, st.pc, [JUMP, target], 1);
    assert Seen(st) && Seen(st.(pc := target, edges := st.edges + 1));
  }

  lemma WhileLayout(code: seq<Int32>, s: Stmt, c: seq<int>, slots: Slots, all: Slots, base: nat)
    returns (b: Emitted, stop: nat)
    requires s.WhileStmt? && Slotting(slots)
    requires CompileWhile(s, c, slots, base).Some? && CodeAt(code, base, CompileWhile(s, c, slots, base).value.code)
    requires Extends(CompileWhile(s, c, slots, base).value.slots, all)
    ensures CompileNested(s.body, slots, base + |c| + 2) == Some(b) && stop == base + |c| + 2 + |b.code| + 2
    ensures CompileWhile(s, c, slots, base) == Some(Emitted(WhileCode(base, c, b.code), b.slots))
    ensures |WhileCode(base, c, b.code)| == stop - base
    ensures CodeAt(code, base, c) && CodeAt(code, base + |c|, [JUMP_IF_FALSE, stop])
    ensures CodeAt(code, base + |c| + 2, b.code) && CodeAt(code, stop - 2, [JUMP, base])
    ensures Extends(slots, all) && Extends(b.slots, all)
  {
    b := CompileNested(s.body, slots, base + |c| + 2).value;
    stop := base + |c| + 2 + |b.code| + 2;
    CodeSplit(code, base, c, [JUMP_IF_FALSE, stop] + (b.code + [JUMP, base]));
    CodeSplit(code, base + |c|, [JUMP_IF_FALSE, stop], b.code + [JUMP, base]);
    CodeSplit(code, base + |c| + 2, b.code, [JUMP, base]);
    NestedSlots(s.body, slots, base + |c| + 2);
    ExtendsTransitive(slots, b.slots, all);
  }

  lemma {:induction false} WhileRuns(m: Machine, s: Stmt, c: seq<int>, slots: Slots, all: Slots,
                                     env: Sem.Env, st: State)
    returns (end: State)
    requires Faithful(m)
    requires s.WhileStmt? && CompileCond(s.cond, slots) == Some(c)
    requires Ready(m.max, st, all, env) && Placed(m.code, st, CompileWhile(s, c, slots, st.pc), slots, all)
    ensures StmtOutcome(m, st, Sem.Exec(Cut(s), env, m.max - st.edges),
                        end, st.pc + |CompileWhile(s, c, slots, st.pc).value.code|, all)
    decreases m.max - st.edges, s, 2
  {
    var _, stop := WhileLayout(m.code, s, c, slots, all, st.pc);
    CondRuns(m, s.cond, slots, all, env, st, stop);
    var r := Sem.EvalCond(CutOption(s.cond), env);
    if !r.Value? || r.v == 0 {
      end := st.(pc := stop);
    } else {
      var mid := LoopBody(m, s, c, slots, all, env, st, st.(pc := st.pc + |c| + 2), stop);
      end := LoopBack(m, s, c, slots, all, env, st, mid, stop);
    }
  }

  lemma {:induction false} LoopBody(m: Machine, s: Stmt, c: seq<int>, slots: Slots, all: Slots,
                                    env: Sem.Env, st: State, inside: State, stop: nat)
    returns (mid: State)
    requires Faithful(m)
    requires s.WhileStmt? && CompileCond(s.cond, slots) == Some(c)
    requires Ready(m.max, st, all, env) && Placed(m.code, st, CompileWhile(s, c, slots, st.pc), slots, all)
    requires inside == st.(pc := st.pc + |c| + 2) && m.run(st) == m.run(inside)
    requires stop == st.pc + |CompileWhile(s, c, slots, st.pc).value.code|
    ensures StmtOutcome(m, st, Sem.ExecNested(CutNested(s.body), env, m.max - st.edges), mid, stop - 2, all)
    decreases m.max - st.edges, s, 1
  {
    var _, _ := WhileLayout(m.code, s, c, slots, all, st.pc);
    mid := BranchRuns(m, s.body, slots, all, env, st, inside);
  }

  /** Behind the body: the jump back, and the rest of the loop if the budget allows it. */
  lemma {:induction false} LoopBack(m: Machine, s: Stmt, c: seq<int>, slots: Slots, all: Slots,
                                    env: Sem.Env, st: State, mid: State, stop: nat)
    returns (end: State)
    requires Faithful(m)
    requires s.WhileStmt? && CompileCond(s.cond, slots) == Some(c)
    requires Ready(m.max, st, all, env) && Placed(m.code, st, CompileWhile(s, c, slots, st.pc), slots, all)
    requires stop == st.pc + |CompileWhile(s, c, slots, st.pc).value.code|
    requires Sem.EvalCond(CutOption(s.cond), env).Value? && Sem.EvalCond(CutOption(s.cond), env).v != 0
    requires StmtOutcome(m, st, Sem.ExecNested(CutNested(s.body), env, m.max - st.edges), mid, stop - 2, all)
    ensures StmtOutcome(m, st, Sem.Exec(Cut(s), env, m.max - st.edges), end, stop, all)
    decreases m.max - st.edges, s, 1
  {
    var _, _ := WhileLayout(m.code, s, c, slots, all, st.pc);
    var b := Sem.ExecNested(CutNested(s.body), env, m.max - st.edges);
    end := mid;
    if b.Exhausted? || b.res.Ended? {
      OutcomeWithoutEnd(m, st, b, mid, stop - 2, stop, all);
    } else {
      var again := JumpBack(m, st, b, mid, stop - 2, all);
      if b.left > 0 {
        end := WhileRuns(m, s, c, slots, all, b.res.env, again);
        OutcomeFrom(m, st, again, Sem.Exec(Cut(s), b.res.env, b.left - 1), end, stop, all);
      }
    }
  }

  // ----- compiled code has a meaning everywhere -----

  lemma {:induction false} ExprHasMeaning(e: Expr, slots: Slots, env: Sem.Env)
    requires CompileExpr(e, slots).Some?
    ensures !Sem.Eval(e, env).Meaningless?
  {
    match e
    case BinaryExpr(_, l, r) =>
      ExprHasMeaning(l, slots, env);
      ExprHasMeaning(r, slots, env);
    case UnaryExpr(_, x) => ExprHasMeaning(x, slots, env);
    case _ =>
  }

  lemma {:induction false} StmtNeverStuck(s: Stmt, slots: Slots, base: nat, env: Sem.Env, budget: nat)
    requires CompileStmt(s, slots, base).Some?
    ensures !IsStuck(Sem.Exec(s, env, budget))
    decreases budget, s, 2
  {
    match s
    case LetDecl(_, e) => if e.Some? { ExprHasMeaning(e.value, slots, env); }
    case AssignStmt(_, e) => if e.Some? { ExprHasMeaning(e.value, slots, env); }
    case ReturnStmt(e) => if e.Some? { ExprHasMeaning(e.value, slots, env); }
    case IfStmt(_, _, _) => IfNeverStuck(s, slots, base, env, budget);
    case WhileStmt(_, _) => WhileNeverStuck(s, slots, base, env, budget);
    case Block(ss) => BlockNeverStuck(ss, slots, base, env, budget);
    case UnsupportedStmt =>
  }

  lemma {:induction false} IfNeverStuck(s: Stmt, slots: Slots, base: nat, env: Sem.Env, budget: nat)
    requires s.IfStmt? && CompileStmt(s, slots, base).Some?
    ensures !IsStuck(Sem.Exec(s, env, budget))
    decreases budget, s, 1
  {
    var c := CompileCond(s.cond, slots).value;
    var thenAddr := base + |c| + 2;
    var t := CompileNested(s.thn, slots, thenAddr).value;
    ExprHasMeaning(s.cond.value, slots, env);
    NestedNeverStuck(s.thn, slots, thenAddr, env, budget);
    if s.els.Some? {
      NestedNeverStuck(s.els, t.slots, thenAddr + |t.code| + 2, env, budget);
    }
  }

  lemma {:induction false} WhileNeverStuck(s: Stmt, slots: Slots, base: nat, env: Sem.Env, budget: nat)
    requires s.WhileStmt? && CompileStmt(s, slots, base).Some?
    ensures !IsStuck(Sem.Exec(s, env, budget))
    decreases budget, s, 1
  {
    var c := CompileCond(s.cond, slots).value;
    ExprHasMeaning(s.cond.value, slots, env);
    NestedNeverStuck(s.body, slots, base + |c| + 2, env, budget);
    var b := Sem.ExecNested(s.body, env, budget);
    if FallsThrough(b) && b.left > 0 {
      StmtNeverStuck(s, slots, base, b.res.env, b.left - 1);
    }
  }

  lemma {:induction false} NestedNeverStuck(o: Option<Stmt>, slots: Slots, base: nat, env: Sem.Env, budget: nat)
    requires CompileNested(o, slots, base).Some?
    ensures !IsStuck(Sem.ExecNested(o, env, budget))
    decreases budget, o, 3
  {
    if o.Some? {
      StmtNeverStuck(o.value, slots, base, env, budget);
    }
  }

  lemma {:induction false} BlockNeverStuck(ss: seq<Stmt>, slots: Slots, base: nat, env: Sem.Env, budget: nat)
    requires CompileBlock(ss, slots, base).Some?
    ensures !IsStuck(Sem.ExecBlock(ss, env, budget))
    decreases budget, ss, 0
  {
    if ss != [] {
      var h, _ := BlockParts(ss, slots, base);
      StmtNeverStuck(ss[0], slots, base, env, budget);
      var r := Sem.Exec(ss[0], env, budget);
      if FallsThrough(r) {
        BlockNeverStuck(ss[1..], h.slots, base + |h.code|, r.res.env, r.left);
      }
    }
  }
}
