/**
 What a flow means, independently of any bytecode.

 One flat environment per flow, no block scoping; a variable that was never assigned reads 0;
 `&&` and `||` evaluate both operands; falling off the end returns 0; 32-bit arithmetic traps.

 `BigStep` is the reference: a relation with no notion of a cap, in which `n` counts completed
 loop bodies over all nested and sequential loops. `Exec` runs the same flow for as long as at
 most `budget` loop bodies complete; the lemmas at the end show it decides `BigStep` exactly.
 */
module FlowSemantics {
  import opened Options
  import opened IntegerDivision
  import opened Int32Arith
  import opened FlowSyntax

  type Env = map<string, Int32>

  function Lookup(env: Env, x: string): Int32 {
    if x in env then env[x] else 0
  }

  datatype ExprResult = Value(v: Int32) | Raises(kind: TrapKind) | Meaningless

  function FromChecked(r: I32Result): ExprResult {
    match r
    case Val(v) => Value(v)
    case Trap(k) => Raises(k)
  }

  function BinaryMeaning(op: BinOp, a: Int32, b: Int32): I32Result {
    match op
    case Add => Checked(a + b)
    case Sub => Checked(a - b)
    case Mul => Checked(a * b)
    case Div => if b == 0 then Trap(DivisionByZero) else Checked(TruncDiv(a, b))
    case Mod => if b == 0 then Trap(DivisionByZero) else Checked(TruncRem(a, b))
    case Lt => Val(Truth(a < b))
    case Le => Val(Truth(a <= b))
    case Gt => Val(Truth(a > b))
    case Ge => Val(Truth(a >= b))
    case Eq => Val(Truth(a == b))
    case Ne => Val(Truth(a != b))
    case And => Val(Truth(a != 0 && b != 0))
    case Or => Val(Truth(a != 0 || b != 0))
  }

  function UnaryMeaning(op: UnOp, a: Int32): I32Result {
    match op
    case Neg => Checked(0 - a)
    case Not => Val(Truth(a == 0))
  }

  function Eval(e: Expr, env: Env): ExprResult {
    match e
    case NumberLiteral(n) => if InRange(n) then Value(n) else Meaningless
    case BoolLiteral(b) => Value(Truth(b))
    case Identifier(x) =>
      if x == "true" then Value(1) else if x == "false" then Value(0) else Value(Lookup(env, x))
    case BinaryExpr(op, l, r) =>
      var a := Eval(l, env);
      if !a.Value? then a else
      var b := Eval(r, env);
      if !b.Value? then b else FromChecked(BinaryMeaning(op, a.v, b.v))
    case UnaryExpr(op, x) =>
      var a := Eval(x, env);
      if !a.Value? then a else FromChecked(UnaryMeaning(op, a.v))
    case UnsupportedExpr => Meaningless
  }

  /** A missing initialiser, right-hand side or result stands for 0. */
  function EvalOrZero(e: Option<Expr>, env: Env): ExprResult {
    match e
    case None => Value(0)
    case Some(x) => Eval(x, env)
  }

  /** A condition, by contrast, must be there. */
  function EvalCond(e: Option<Expr>, env: Env): ExprResult {
    match e
    case None => Meaningless
    case Some(x) => Eval(x, env)
  }

  datatype Outcome = Returned(v: Int32) | Trapped(kind: TrapKind) | Stuck

  function Abrupt(r: ExprResult): Outcome
    requires !r.Value?
  {
    if r.Raises? then Trapped(r.kind) else Stuck
  }

  // ----- the reference relation -----

  datatype Ending = FellThrough(env: Env) | Ended(out: Outcome)

  /** From `env`, statement `s` terminates with ending `res` after completing `n` loop bodies. */
  least predicate BigStep[nat](s: Stmt, env: Env, res: Ending, n: nat) {
    match s
    case LetDecl(x, e) => n == 0 && res == Stored(x, EvalOrZero(e, env), env)
    case AssignStmt(x, e) => n == 0 && res == Stored(x, EvalOrZero(e, env), env)
    case ReturnStmt(e) =>
      var r := EvalOrZero(e, env);
      n == 0 && res == Ended(if r.Value? then Returned(r.v) else Abrupt(r))
    case IfStmt(c, thn, els) =>
      var r := EvalCond(c, env);
      if !r.Value? then n == 0 && res == Ended(Abrupt(r))
      else BigStep(Nested(if r.v != 0 then thn else els), env, res, n)
    case WhileStmt(c, body) =>
      var r := EvalCond(c, env);
      if !r.Value? then n == 0 && res == Ended(Abrupt(r))
      else if r.v == 0 then n == 0 && res == FellThrough(env)
      else
        || (res.Ended? && BigStep(Nested(body), env, res, n))
        || (exists mid, n1: nat, n2: nat ::
              && BigStep(Nested(body), env, FellThrough(mid), n1)
              && BigStep(s, mid, res, n2)
              && n == n1 + 1 + n2)
    case Block(ss) =>
      if ss == [] then n == 0 && res == FellThrough(env)
      else
        || (res.Ended? && BigStep(ss[0], env, res, n))
        || (exists mid, n1: nat, n2: nat ::
              && BigStep(ss[0], env, FellThrough(mid), n1)
              && BigStep(Block(ss[1..]), mid, res, n2)
              && n == n1 + n2)
    case UnsupportedStmt => n == 0 && res == Ended(Stuck)
  }

  function Stored(x: string, r: ExprResult, env: Env): Ending {
    if r.Value? then FellThrough(env[x := r.v]) else Ended(Abrupt(r))
  }

  /** An absent branch or body does nothing. */
  function Nested(s: Option<Stmt>): Stmt {
    match s
    case None => Block([])
    case Some(t) => t
  }

  // ----- the same flow, run for a bounded number of loop bodies -----

  datatype Run = Done(res: Ending, left: nat) | Exhausted

  function Exec(s: Stmt, env: Env, budget: nat): (r: Run)
    ensures r.Done? ==> r.left <= budget
    decreases budget, s, 1
  {
    match s
    case LetDecl(x, e) => Done(Stored(x, EvalOrZero(e, env), env), budget)
    case AssignStmt(x, e) => Done(Stored(x, EvalOrZero(e, env), env), budget)
    case ReturnStmt(e) =>
      var r := EvalOrZero(e, env);
      Done(Ended(if r.Value? then Returned(r.v) else Abrupt(r)), budget)
    case IfStmt(c, thn, els) =>
      var r := EvalCond(c, env);
      if !r.Value? then Done(Ended(Abrupt(r)), budget)
      else if r.v != 0 then ExecNested(thn, env, budget)
      else ExecNested(els, env, budget)
    case WhileStmt(c, body) =>
      var r := EvalCond(c, env);
      if !r.Value? then Done(Ended(Abrupt(r)), budget)
      else if r.v == 0 then Done(FellThrough(env), budget)
      else
        var b := ExecNested(body, env, budget);
        if b.Exhausted? || b.res.Ended? then b
        else if b.left == 0 then Exhausted
        else Exec(s, b.res.env, b.left - 1)
    case Block(ss) => ExecBlock(ss, env, budget)
    case UnsupportedStmt => Done(Ended(Stuck), budget)
  }

  function ExecNested(s: Option<Stmt>, env: Env, budget: nat): (r: Run)
    ensures r.Done? ==> r.left <= budget
    decreases budget, s, 2
  {
    match s
    case None => Done(FellThrough(env), budget)
    case Some(t) => Exec(t, env, budget)
  }

  function ExecBlock(ss: seq<Stmt>, env: Env, budget: nat): (r: Run)
    ensures r.Done? ==> r.left <= budget
    decreases budget, ss, 0
  {
    if ss == [] then Done(FellThrough(env), budget)
    else
      var r := Exec(ss[0], env, budget);
      if r.Exhausted? || r.res.Ended? then r
      else ExecBlock(ss[1..], r.res.env, r.left)
  }

  // ----- the bounded run decides the relation -----

  lemma NestedIsStmt(o: Option<Stmt>, env: Env, budget: nat)
    ensures ExecNested(o, env, budget) == Exec(Nested(o), env, budget)
  {
  }

  /** Every terminating run is found once the budget covers its loop bodies, and not before. */
  lemma ExecComplete(s: Stmt, env: Env, res: Ending, n: nat, budget: nat)
    requires BigStep(s, env, res, n)
    ensures Exec(s, env, budget) == Afforded(res, n, budget)
  {
    var k: nat :| BigStep#[k](s, env, res, n);
    CompleteAt(k, s, env, res, n, budget);
  }

  function Afforded(res: Ending, n: nat, budget: nat): Run {
    if n <= budget then Done(res, budget - n) else Exhausted
  }

  /** By induction on the depth of the derivation. */
  lemma {:induction false} CompleteAt(k: nat, s: Stmt, env: Env, res: Ending, n: nat, budget: nat)
    requires BigStep#[k](s, env, res, n)
    ensures Exec(s, env, budget) == Afforded(res, n, budget)
    decreases k, 1
  {
    match s
    case LetDecl(_, _) =>
    case AssignStmt(_, _) =>
    case ReturnStmt(_) =>
    case UnsupportedStmt =>
    case IfStmt(c, thn, els) =>
      var r := EvalCond(c, env);
      if r.Value? {
        var branch := if r.v != 0 then thn else els;
        NestedIsStmt(branch, env, budget);
        CompleteAt(k - 1, Nested(branch), env, res, n, budget);
      }
    case WhileStmt(_, _) => LoopComplete(k, s, env, res, n, budget);
    case Block(_) => BlockComplete(k, s, env, res, n, budget);
  }

  lemma {:induction false} LoopComplete(k: nat, s: Stmt, env: Env, res: Ending, n: nat, budget: nat)
    requires s.WhileStmt? && BigStep#[k](s, env, res, n)
    ensures Exec(s, env, budget) == Afforded(res, n, budget)
    decreases k, 0
  {
    var r, body := EvalCond(s.cond, env), Nested(s.body);
    if r.Value? && r.v != 0 {
      NestedIsStmt(s.body, env, budget);
      if res.Ended? && BigStep#[k - 1](body, env, res, n) {
        CompleteAt(k - 1, body, env, res, n, budget);
      } else {
        var mid, n1: nat, n2: nat :| BigStep#[k - 1](body, env, FellThrough(mid), n1)
                                     && BigStep#[k - 1](s, mid, res, n2) && n == n1 + 1 + n2;
        CompleteAt(k - 1, body, env, FellThrough(mid), n1, budget);
        if n1 + 1 <= budget {
          CompleteAt(k - 1, s, mid, res, n2, budget - n1 - 1);
        }
        TurnTaken(s, env, mid, res, n1, n2, budget);
      }
    }
  }

  /** One turn of a loop, and then the others. */
  lemma TurnTaken(s: Stmt, env: Env, mid: Env, res: Ending, n1: nat, n2: nat, budget: nat)
    requires s.WhileStmt? && EvalCond(s.cond, env).Value? && EvalCond(s.cond, env).v != 0
    requires ExecNested(s.body, env, budget) == Afforded(FellThrough(mid), n1, budget)
    requires n1 + 1 <= budget ==> Exec(s, mid, budget - n1 - 1) == Afforded(res, n2, budget - n1 - 1)
    ensures Exec(s, env, budget) == Afforded(res, n1 + 1 + n2, budget)
  {
  }

  lemma {:induction false} BlockComplete(k: nat, s: Stmt, env: Env, res: Ending, n: nat, budget: nat)
    requires s.Block? && BigStep#[k](s, env, res, n)
    ensures Exec(s, env, budget) == Afforded(res, n, budget)
    decreases k, 0
  {
    var ss := s.stmts;
    if ss != [] {
      if res.Ended? && BigStep#[k - 1](ss[0], env, res, n) {
        CompleteAt(k - 1, ss[0], env, res, n, budget);
      } else {
        var mid, n1: nat, n2: nat :| BigStep#[k - 1](ss[0], env, FellThrough(mid), n1)
                                     && BigStep#[k - 1](Block(ss[1..]), mid, res, n2) && n == n1 + n2;
        CompleteAt(k - 1, ss[0], env, FellThrough(mid), n1, budget);
        if n1 <= budget {
          CompleteAt(k - 1, Block(ss[1..]), mid, res, n2, budget - n1);
        }
      }
    }
  }

  /** Whatever the bounded run reports is a run of the reference. */
  lemma {:induction false} ExecSound(s: Stmt, env: Env, budget: nat)
    ensures var r := Exec(s, env, budget); r.Done? ==> BigStep(s, env, r.res, budget - r.left)
    decreases budget, s, 1
  {
    match s
    case LetDecl(_, _) =>
    case AssignStmt(_, _) =>
    case ReturnStmt(_) =>
    case UnsupportedStmt =>
    case IfStmt(_, thn, els) =>
      NestedSound(thn, env, budget);
      NestedSound(els, env, budget);
    case WhileStmt(_, _) => LoopSound(s, env, budget);
    case Block(ss) => BlockSound(ss, env, budget);
  }

  lemma {:induction false} LoopSound(s: Stmt, env: Env, budget: nat)
    requires s.WhileStmt?
    ensures var r := Exec(s, env, budget); r.Done? ==> BigStep(s, env, r.res, budget - r.left)
    decreases budget, s, 0
  {
    var r := EvalCond(s.cond, env);
    if r.Value? && r.v != 0 {
      NestedSound(s.body, env, budget);
      var b := ExecNested(s.body, env, budget);
      if b.Done? && b.res.FellThrough? && b.left > 0 {
        ExecSound(s, b.res.env, b.left - 1);
      }
    }
  }

  lemma {:induction false} NestedSound(o: Option<Stmt>, env: Env, budget: nat)
    ensures var r := ExecNested(o, env, budget); r.Done? ==> BigStep(Nested(o), env, r.res, budget - r.left)
    decreases budget, o, 2
  {
    match o
    case None =>
    case Some(t) => ExecSound(t, env, budget);
  }

  lemma {:induction false} BlockSound(ss: seq<Stmt>, env: Env, budget: nat)
    ensures var r := ExecBlock(ss, env, budget); r.Done? ==> BigStep(Block(ss), env, r.res, budget - r.left)
    decreases budget, ss, 0
  {
    if ss != [] {
      ExecSound(ss[0], env, budget);
      var r := Exec(ss[0], env, budget);
      if r.Done? && r.res.FellThrough? {
        BlockSound(ss[1..], r.res.env, r.left);
      }
    }
  }

  /** The bounded run reports `res` exactly when the reference terminates that way within the
      budget; it is exhausted exactly when the reference has no run within the budget. */
  lemma ExecDecidesBigStep(s: Stmt, env: Env, budget: nat)
    ensures forall res, left: nat ::
              Exec(s, env, budget) == Done(res, left) <==> left <= budget && BigStep(s, env, res, budget - left)
    ensures Exec(s, env, budget).Exhausted? <==> forall res, n: nat :: BigStep(s, env, res, n) ==> n > budget
  {
    ExecSound(s, env, budget);
    forall res, n: nat | BigStep(s, env, res, n)
      ensures Exec(s, env, budget) == if n <= budget then Done(res, budget - n) else Exhausted
    {
      ExecComplete(s, env, res, n, budget);
    }
    forall res, left: nat
      ensures Exec(s, env, budget) == Done(res, left) <==> left <= budget && BigStep(s, env, res, budget - left)
    {
    }
  }

  // ----- a whole flow -----

  /** Parameters take the arguments by position; parameters without an argument read 0. */
  function Bind(names: seq<string>, args: seq<int>): Env
    requires |args| <= |names|
  {
    if args == [] then map[]
    else
      var k := |args| - 1;
      Bind(names, args[..k])[names[k] := ToInt32(args[k])]
  }

  /** The flow body run from `env` terminates with `out` after completing `n` loop bodies. */
  ghost predicate FlowRuns(body: seq<Stmt>, env: Env, out: Outcome, n: nat) {
    || BigStep(Block(body), env, Ended(out), n)
    || (out == Returned(0) && exists last :: BigStep(Block(body), env, FellThrough(last), n))
  }
}
