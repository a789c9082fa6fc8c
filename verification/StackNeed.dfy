/**
 How many cells of the operand stack an evaluation takes, and the source run that stops where they
 are not there.

 `Cut` replaces what would not fit by an expression without meaning, so that a run of the cut body
 gets stuck exactly where the run of the body reaches an evaluation that takes too many cells.
 */
module StackNeed {
  import opened Options
  import opened Int32Arith
  import opened FlowSyntax
  import opened StackMachine
  import Sem = FlowSemantics

  function Max(a: nat, b: nat): nat {
    if a >= b then a else b
  }

  // ----- the need of an expression -----

  /** How many operand cells evaluating `e` can take: the left value waits while the right runs. */
  function Need(e: Expr): (cells: nat)
    ensures cells >= 1
  {
    match e
    case BinaryExpr(_, l, r) => Max(Need(l), 1 + Need(r))
    case UnaryExpr(_, x) => Need(x)
    case _ => 1
  }

  /** How many it takes in `env`: what stands behind a trap is not evaluated. */
  function Takes(e: Expr, env: Sem.Env): (cells: nat)
    ensures cells >= 1
  {
    match e
    case BinaryExpr(_, l, r) => if Sem.Eval(l, env).Value? then Max(Takes(l, env), 1 + Takes(r, env)) else Takes(l, env)
    case UnaryExpr(_, x) => Takes(x, env)
    case _ => 1
  }

  lemma {:induction false} TakesNeed(e: Expr, env: Sem.Env)
    ensures Takes(e, env) <= Need(e)
    ensures Sem.Eval(e, env).Value? ==> Takes(e, env) == Need(e)
  {
    match e
    case BinaryExpr(_, l, r) =>
      TakesNeed(l, env);
      TakesNeed(r, env);
    case UnaryExpr(_, x) => TakesNeed(x, env);
    case _ =>
  }

  predicate ExprFits(e: Option<Expr>) {
    e.Some? ==> Need(e.value) <= 256
  }

  /** Every expression of the statement fits the operand stack. */
  predicate Fits(s: Stmt) {
    match s
    case LetDecl(_, e) => ExprFits(e)
    case AssignStmt(_, e) => ExprFits(e)
    case ReturnStmt(e) => ExprFits(e)
    case IfStmt(c, t, e) => ExprFits(c) && (t.Some? ==> Fits(t.value)) && (e.Some? ==> Fits(e.value))
    case WhileStmt(c, b) => ExprFits(c) && (b.Some? ==> Fits(b.value))
    case Block(ss) => forall t :: t in ss ==> Fits(t)
    case UnsupportedStmt => true
  }

  // ----- cutting off what does not fit -----

  /** `e` as far as it gets on `free` cells. */
  function CutExpr(e: Expr, free: nat): Expr {
    match e
    case BinaryExpr(op, l, r) => BinaryExpr(op, CutExpr(l, free), if free == 0 then r else CutExpr(r, free - 1))
    case UnaryExpr(op, x) => UnaryExpr(op, CutExpr(x, free))
    case _ => if free == 0 then UnsupportedExpr else e
  }

  function CutOption(e: Option<Expr>): Option<Expr> {
    match e
    case None => None
    case Some(x) => Some(CutExpr(x, STACK_CELLS))
  }

  function Cut(s: Stmt): Stmt
    decreases s, 1
  {
    match s
    case LetDecl(x, e) => LetDecl(x, CutOption(e))
    case AssignStmt(x, e) => AssignStmt(x, CutOption(e))
    case ReturnStmt(e) => ReturnStmt(CutOption(e))
    case IfStmt(c, t, e) => IfStmt(CutOption(c), CutNested(t), CutNested(e))
    case WhileStmt(c, b) => WhileStmt(CutOption(c), CutNested(b))
    case Block(ss) => Block(CutAll(ss))
    case UnsupportedStmt => UnsupportedStmt
  }

  function CutNested(o: Option<Stmt>): Option<Stmt>
    decreases o, 2
  {
    match o
    case None => None
    case Some(t) => Some(Cut(t))
  }

  function CutAll(ss: seq<Stmt>): seq<Stmt>
    decreases ss, 0
  {
    if ss == [] then [] else [Cut(ss[0])] + CutAll(ss[1..])
  }

  lemma CutAllFirst(ss: seq<Stmt>)
    requires ss != []
    ensures CutAll(ss) != [] && CutAll(ss)[0] == Cut(ss[0]) && CutAll(ss)[1..] == CutAll(ss[1..])
  {
  }

  /** On `free` cells an evaluation that takes no more is the same, one that takes more gets stuck. */
  lemma {:induction false} CutMeaning(e: Expr, free: nat, env: Sem.Env)
    ensures Sem.Eval(CutExpr(e, free), env)
         == if Takes(e, env) <= free then Sem.Eval(e, env) else Sem.Meaningless
  {
    match e
    case BinaryExpr(_, l, r) =>
      CutMeaning(l, free, env);
      if free > 0 {
        CutMeaning(r, free - 1, env);
      }
    case UnaryExpr(_, x) => CutMeaning(x, free, env);
    case _ =>
  }

  lemma {:induction false} CutKeepsExpr(e: Expr, free: nat)
    requires Need(e) <= free
    ensures CutExpr(e, free) == e
  {
    match e
    case BinaryExpr(_, l, r) =>
      CutKeepsExpr(l, free);
      CutKeepsExpr(r, free - 1);
    case UnaryExpr(_, x) => CutKeepsExpr(x, free);
    case _ =>
  }

  lemma CutKeepsOption(e: Option<Expr>)
    requires ExprFits(e)
    ensures CutOption(e) == e
  {
    if e.Some? {
      CutKeepsExpr(e.value, STACK_CELLS);
    }
  }

  /** Where everything fits nothing is cut off. */
  lemma {:induction false} CutKeeps(s: Stmt)
    requires Fits(s)
    ensures Cut(s) == s
    decreases s, 1
  {
    match s
    case LetDecl(_, e) => CutKeepsOption(e);
    case AssignStmt(_, e) => CutKeepsOption(e);
    case ReturnStmt(e) => CutKeepsOption(e);
    case IfStmt(c, t, e) =>
      CutKeepsOption(c);
      CutKeepsNested(t);
      CutKeepsNested(e);
    case WhileStmt(c, b) =>
      CutKeepsOption(c);
      CutKeepsNested(b);
    case Block(ss) => CutKeepsAll(ss);
    case UnsupportedStmt =>
  }

  lemma {:induction false} CutKeepsNested(o: Option<Stmt>)
    requires o.Some? ==> Fits(o.value)
    ensures CutNested(o) == o
    decreases o, 2
  {
    if o.Some? {
      CutKeeps(o.value);
    }
  }

  lemma {:induction false} CutKeepsAll(ss: seq<Stmt>)
    requires forall t :: t in ss ==> Fits(t)
    ensures CutAll(ss) == ss
    decreases ss, 0
  {
    if ss != [] {
      assert ss[0] in ss && forall t :: t in ss[1..] ==> t in ss;
      CutKeeps(ss[0]);
      CutKeepsAll(ss[1..]);
      assert ss == [ss[0]] + ss[1..];
    }
  }

  // ----- the source run that comes to an evaluation that does not fit -----

  predicate TooDeep(e: Option<Expr>, env: Sem.Env) {
    e.Some? && Takes(e.value, env) > 256
  }

  predicate FallsThrough(r: Sem.Run) {
    r.Done? && r.res.FellThrough?
  }

  predicate IsStuck(r: Sem.Run) {
    r.Done? && r.res == Sem.Ended(Sem.Stuck)
  }

  /** While at most `budget` loop bodies complete, the run of `s` evaluates an expression that takes
      more cells than there are. */
  predicate Meets(s: Stmt, env: Sem.Env, budget: nat)
    decreases budget, s, 1
  {
    match s
    case LetDecl(_, e) => TooDeep(e, env)
    case AssignStmt(_, e) => TooDeep(e, env)
    case ReturnStmt(e) => TooDeep(e, env)
    case IfStmt(c, thn, els) =>
      var r := Sem.EvalCond(c, env);
      TooDeep(c, env) || (r.Value? && MeetsNested(if r.v != 0 then thn else els, env, budget))
    case WhileStmt(c, body) =>
      var r := Sem.EvalCond(c, env);
      var b := Sem.ExecNested(body, env, budget);
      || TooDeep(c, env)
      || (r.Value? && r.v != 0
          && (MeetsNested(body, env, budget)
              || (FallsThrough(b) && b.left > 0 && Meets(s, b.res.env, b.left - 1))))
    case Block(ss) => MeetsAll(ss, env, budget)
    case UnsupportedStmt => false
  }

  predicate MeetsNested(o: Option<Stmt>, env: Sem.Env, budget: nat)
    decreases budget, o, 2
  {
    o.Some? && Meets(o.value, env, budget)
  }

  predicate MeetsAll(ss: seq<Stmt>, env: Sem.Env, budget: nat)
    decreases budget, ss, 0
  {
    ss != []
    && (Meets(ss[0], env, budget)
        || (var r := Sem.Exec(ss[0], env, budget);
            FallsThrough(r) && MeetsAll(ss[1..], r.res.env, r.left)))
  }

  // ----- the cut body gets stuck exactly there, and else runs like the body -----

  /** The run of the cut body, if the run of the body is `r` and `met` says what it came to. */
  predicate CutLike(cut: Sem.Run, r: Sem.Run, met: bool) {
    if met then IsStuck(cut) else cut == r
  }

  lemma CutOptionMeaning(e: Option<Expr>, env: Sem.Env)
    ensures Sem.EvalOrZero(CutOption(e), env) == if TooDeep(e, env) then Sem.Meaningless else Sem.EvalOrZero(e, env)
    ensures Sem.EvalCond(CutOption(e), env) == if TooDeep(e, env) then Sem.Meaningless else Sem.EvalCond(e, env)
  {
    if e.Some? {
      CutMeaning(e.value, STACK_CELLS, env);
    }
  }

  lemma {:induction false} CutRuns(s: Stmt, env: Sem.Env, budget: nat)
    ensures CutLike(Sem.Exec(Cut(s), env, budget), Sem.Exec(s, env, budget), Meets(s, env, budget))
    decreases budget, s, 1
  {
    match s
    case LetDecl(_, e) => CutOptionMeaning(e, env);
    case AssignStmt(_, e) => CutOptionMeaning(e, env);
    case ReturnStmt(e) => CutOptionMeaning(e, env);
    case UnsupportedStmt =>
    case IfStmt(c, thn, els) =>
      CutOptionMeaning(c, env);
      CutNestedRuns(thn, env, budget);
      CutNestedRuns(els, env, budget);
    case WhileStmt(_, _) => CutLoopRuns(s, env, budget);
    case Block(ss) => CutAllRuns(ss, env, budget);
  }

  lemma {:induction false} CutLoopRuns(s: Stmt, env: Sem.Env, budget: nat)
    requires s.WhileStmt?
    ensures CutLike(Sem.Exec(Cut(s), env, budget), Sem.Exec(s, env, budget), Meets(s, env, budget))
    decreases budget, s, 0
  {
    CutOptionMeaning(s.cond, env);
    CutNestedRuns(s.body, env, budget);
    var b := Sem.ExecNested(s.body, env, budget);
    if FallsThrough(b) && b.left > 0 {
      CutRuns(s, b.res.env, b.left - 1);
    }
  }

  lemma {:induction false} CutNestedRuns(o: Option<Stmt>, env: Sem.Env, budget: nat)
    ensures CutLike(Sem.ExecNested(CutNested(o), env, budget), Sem.ExecNested(o, env, budget),
                    MeetsNested(o, env, budget))
    decreases budget, o, 2
  {
    if o.Some? {
      CutRuns(o.value, env, budget);
    }
  }

  lemma {:induction false} CutAllRuns(ss: seq<Stmt>, env: Sem.Env, budget: nat)
    ensures CutLike(Sem.ExecBlock(CutAll(ss), env, budget), Sem.ExecBlock(ss, env, budget), MeetsAll(ss, env, budget))
    decreases budget, ss, 0
  {
    if ss != [] {
      CutAllFirst(ss);
      CutRuns(ss[0], env, budget);
      var r := Sem.Exec(ss[0], env, budget);
      if FallsThrough(r) {
        CutAllRuns(ss[1..], r.res.env, r.left);
      }
    }
  }
}
