/**
 Which flows the compiler accepts, in terms of the syntax tree alone, and which arguments a
 compiled flow really sees.
 */
module FlowAdmission {
  import opened Options
  import opened Int32Arith
  import opened FlowSyntax
  import opened BytecodeCompiler
  import opened CompilerCorrectness
  import opened CompiledFlows
  import opened Collections
  import Sem = FlowSemantics
  import VM = BytecodeVM

  // ----- acceptance -----

  /** The expression only reads names already introduced above it, and has a meaning. */
  predicate AdmitsExpr(e: Expr, names: set<string>) {
    match e
    case NumberLiteral(n) => InRange(n)
    case BoolLiteral(_) => true
    case Identifier(x) => x == "true" || x == "false" || x in names
    case BinaryExpr(_, l, r) => AdmitsExpr(l, names) && AdmitsExpr(r, names)
    case UnaryExpr(_, x) => AdmitsExpr(x, names)
    case UnsupportedExpr => false
  }

  predicate AdmitsOptional(e: Option<Expr>, names: set<string>) {
    e.Some? ==> AdmitsExpr(e.value, names)
  }

  predicate AdmitsCond(e: Option<Expr>, names: set<string>) {
    e.Some? && AdmitsExpr(e.value, names)
  }

  /** The names a statement introduces, on any branch. */
  function Introduces(s: Stmt): set<string> {
    match s
    case LetDecl(x, _) => {x}
    case AssignStmt(x, _) => {x}
    case IfStmt(_, t, e) => (if t.Some? then Introduces(t.value) else {}) + (if e.Some? then Introduces(e.value) else {})
    case WhileStmt(_, b) => if b.Some? then Introduces(b.value) else {}
    case Block(ss) => IntroducesAll(ss)
    case _ => {}
  }

  function IntroducesAll(ss: seq<Stmt>): set<string> {
    if ss == [] then {} else Introduces(ss[0]) + IntroducesAll(ss[1..])
  }

  /** Names are introduced in source order and never go out of scope. */
  predicate Admits(s: Stmt, names: set<string>) {
    match s
    case LetDecl(_, e) => AdmitsOptional(e, names)
    case AssignStmt(_, e) => AdmitsOptional(e, names)
    case ReturnStmt(e) => AdmitsOptional(e, names)
    case IfStmt(c, t, e) =>
      && AdmitsCond(c, names)
      && (t.Some? ==> Admits(t.value, names))
      && (e.Some? ==> Admits(e.value, names + if t.Some? then Introduces(t.value) else {}))
    case WhileStmt(c, b) => AdmitsCond(c, names) && (b.Some? ==> Admits(b.value, names))
    case Block(ss) => AdmitsAll(ss, names)
    case UnsupportedStmt => false
  }

  predicate AdmitsAll(ss: seq<Stmt>, names: set<string>) {
    ss == [] || (Admits(ss[0], names) && AdmitsAll(ss[1..], names + Introduces(ss[0])))
  }

  lemma ExprAdmission(e: Expr, slots: Slots)
    ensures CompileExpr(e, slots).Some? <==> AdmitsExpr(e, slots.Keys)
  {
  }

  /** Success and the resulting slot names are what the syntax says, at whatever address. */
  ghost predicate Verdict(e: Option<Emitted>, admitted: bool, names: set<string>) {
    (e.Some? <==> admitted) && (e.Some? ==> e.value.slots.Keys == names)
  }

  lemma StoreAdmission(x: string, e: Option<Expr>, slots: Slots)
    ensures Verdict(CompileStore(x, e, slots), AdmitsOptional(e, slots.Keys), slots.Keys + {x})
  {
    WithSlotProperties(slots, x);
    if e.Some? {
      ExprAdmission(e.value, slots);
    }
  }

  lemma {:induction false} StmtAdmission(s: Stmt, slots: Slots, base: nat)
    ensures Verdict(CompileStmt(s, slots, base), Admits(s, slots.Keys), slots.Keys + Introduces(s))
    decreases s, 3
  {
    match s
    case LetDecl(x, e) => StoreAdmission(x, e, slots);
    case AssignStmt(x, e) => StoreAdmission(x, e, slots);
    case ReturnStmt(e) =>
      if e.Some? {
        ExprAdmission(e.value, slots);
      }
    case UnsupportedStmt =>
    case Block(ss) => BlockAdmission(ss, slots, base);
    case WhileStmt(cond, body) =>
      if cond.Some? {
        ExprAdmission(cond.value, slots);
        var c := CompileExpr(cond.value, slots);
        if c.Some? {
          NestedAdmission(body, slots, base + |c.value| + 2);
        }
      }
    case IfStmt(cond, thn, els) =>
      if cond.Some? {
        ExprAdmission(cond.value, slots);
        var c := CompileExpr(cond.value, slots);
        if c.Some? {
          IfAdmission(s, c.value, slots, base);
        }
      }
  }

  lemma {:induction false} IfAdmission(s: Stmt, c: seq<int>, slots: Slots, base: nat)
    requires s.IfStmt?
    ensures Verdict(CompileIf(s, c, slots, base),
                    && (s.thn.Some? ==> Admits(s.thn.value, slots.Keys))
                    && (s.els.Some? ==> Admits(s.els.value, slots.Keys + if s.thn.Some? then Introduces(s.thn.value) else {})),
                    slots.Keys + Introduces(s))
    decreases s, 2
  {
    NestedAdmission(s.thn, slots, base + |c| + 2);
    var t := CompileNested(s.thn, slots, base + |c| + 2);
    if t.Some? {
      NestedAdmission(s.els, t.value.slots, base + |c| + 2 + |t.value.code| + 2);
    }
  }

  lemma {:induction false} NestedAdmission(o: Option<Stmt>, slots: Slots, base: nat)
    ensures Verdict(CompileNested(o, slots, base), o.Some? ==> Admits(o.value, slots.Keys),
                    slots.Keys + if o.Some? then Introduces(o.value) else {})
    decreases o, 4
  {
    if o.Some? {
      StmtAdmission(o.value, slots, base);
    }
  }

  lemma BlockVerdict(ss: seq<Stmt>, slots: Slots, base: nat, h: Option<Emitted>, t: Option<Emitted>)
    requires ss != [] && h == CompileStmt(ss[0], slots, base)
    requires h.Some? ==> t == CompileBlock(ss[1..], h.value.slots, base + |h.value.code|)
    ensures CompileBlock(ss, slots, base).Some? <==> h.Some? && t.Some?
    ensures CompileBlock(ss, slots, base).Some? ==> CompileBlock(ss, slots, base).value.slots == t.value.slots
  {
  }

  lemma BlockVerdictNames(ss: seq<Stmt>, names: set<string>, h: Option<Emitted>, t: Option<Emitted>)
    requires ss != [] && Verdict(h, Admits(ss[0], names), names + Introduces(ss[0]))
    requires h.Some? ==> var keys := h.value.slots.Keys; Verdict(t, AdmitsAll(ss[1..], keys), keys + IntroducesAll(ss[1..]))
    ensures h.Some? && t.Some? <==> AdmitsAll(ss, names)
    ensures h.Some? && t.Some? ==> t.value.slots.Keys == names + IntroducesAll(ss)
  {
    UnionAssociative(names, Introduces(ss[0]), IntroducesAll(ss[1..]));
  }

  lemma {:induction false} BlockAdmission(ss: seq<Stmt>, slots: Slots, base: nat)
    ensures Verdict(CompileBlock(ss, slots, base), AdmitsAll(ss, slots.Keys), slots.Keys + IntroducesAll(ss))
    decreases ss, 0
  {
    if ss != [] {
      var h := CompileStmt(ss[0], slots, base);
      var t := if h.Some? then CompileBlock(ss[1..], h.value.slots, base + |h.value.code|) else None;
      StmtAdmission(ss[0], slots, base);
      if h.Some? {
        BlockAdmission(ss[1..], h.value.slots, base + |h.value.code|);
      }
      BlockVerdict(ss, slots, base, h, t);
      BlockVerdictNames(ss, slots.Keys, h, t);
    }
  }

  lemma UnionAssociative(a: set<string>, b: set<string>, c: set<string>)
    ensures a + b + c == a + (b + c)
  {
  }

  lemma OneNameMore(params: seq<Param>, n: nat)
    requires 0 < n <= |params|
    ensures (set i | 0 <= i < n :: params[i].name) == (set i | 0 <= i < n - 1 :: params[i].name) + {params[n - 1].name}
  {
    var all, fewer := (set i | 0 <= i < n :: params[i].name), (set i | 0 <= i < n - 1 :: params[i].name);
    forall x | x in all ensures x in fewer + {params[n - 1].name} {
      var i :| 0 <= i < n && params[i].name == x;
    }
  }

  lemma {:induction false} ParamSlotNames(params: seq<Param>, n: nat)
    requires n <= |params|
    ensures ParamSlots(params, n).Keys == set i | 0 <= i < n :: params[i].name
  {
    if n > 0 {
      ParamSlotNames(params, n - 1);
      WithSlotProperties(ParamSlots(params, n - 1), params[n - 1].name);
      OneNameMore(params, n);
    }
  }

  /** A flow compiles exactly when it declares no 64-bit scalar, takes integer parameters only,
      has a body, and every node of the body is supported and reads introduced names only. */
  lemma CompilesIff(flow: Flow)
    ensures CompileFlow(flow).Some? <==>
              && !flow.declares64
              && IntegerParams(flow.params)
              && flow.body.Some?
              && AdmitsAll(flow.body.value, set i | 0 <= i < |flow.params| :: flow.params[i].name)
  {
    ParamSlotNames(flow.params, |flow.params|);
    if flow.body.Some? {
      BlockAdmission(flow.body.value, ParamSlots(flow.params, |flow.params|), 0);
    }
  }

  // ----- arguments -----

  ghost predicate Distinct(names: seq<string>) {
    forall i, j :: 0 <= i < j < |names| ==> names[i] != names[j]
  }

  lemma {:induction false} FreshParam(params: seq<Param>, n: nat, x: string)
    requires n <= |params| && forall i :: 0 <= i < n ==> params[i].name != x
    ensures x !in ParamSlots(params, n)
  {
    if n > 0 {
      FreshParam(params, n - 1, x);
    }
  }

  lemma {:induction false} DistinctParamSlots(params: seq<Param>, n: nat)
    requires n <= |params| && Distinct(ParamNames(params))
    ensures |ParamSlots(params, n)| == n
    ensures forall i :: 0 <= i < n ==> params[i].name in ParamSlots(params, n) && ParamSlots(params, n)[params[i].name] == i
  {
    if n > 0 {
      DistinctParamSlots(params, n - 1);
      var names := ParamNames(params);
      assert forall i :: 0 <= i < n - 1 ==> names[i] != names[n - 1];
      FreshParam(params, n - 1, params[n - 1].name);
    }
  }

  lemma {:induction false} BindLookup(names: seq<string>, args: seq<int>, x: string)
    requires |args| <= |names| && Distinct(names)
    ensures x in Sem.Bind(names, args) <==> exists i :: 0 <= i < |args| && names[i] == x
    ensures forall i :: 0 <= i < |args| && names[i] == x ==> Sem.Bind(names, args)[x] == ToInt32(args[i])
  {
    if args != [] {
      BindLookup(names, args[..|args| - 1], x);
    }
  }

  /** Which variables see which cell: parameters their own argument, and a variable whose slot
      lies among the surplus arguments that argument instead of 0. */
  lemma SlotEnvLookup(flow: Flow, args: seq<int>, x: string)
    requires Runnable(flow) && Distinct(ParamNames(flow.params)) && x in FlowSlots(flow)
    ensures var n, slot := |flow.params|, FlowSlots(flow)[x];
            && (slot < n ==> ParamNames(flow.params)[slot] == x)
            && Sem.Lookup(SlotEnv(FlowSlots(flow), args), x)
               == (if slot >= n && slot < |args| then ToInt32(args[slot])
                   else Sem.Lookup(Sem.Bind(ParamNames(flow.params), if |args| < n then args else args[..n]), x))
  {
    var names, n := ParamNames(flow.params), |flow.params|;
    var e := FlowCode(flow);
    forall i | 0 <= i < n ensures names[i] == x <==> e.slots[x] == i {
      ParamInSlot(flow.params, e.slots, i);
      if e.slots[x] == i {
        SlotUnique(e.slots, x, names[i]);
      }
    }
    BindLookup(names, if |args| < n then args else args[..n], x);
  }

  lemma ParamInSlot(params: seq<Param>, slots: Slots, i: nat)
    requires i < |params| && Distinct(ParamNames(params)) && Extends(ParamSlots(params, |params|), slots)
    ensures params[i].name in slots && slots[params[i].name] == i
  {
    DistinctParamSlots(params, |params|);
    assert params[i].name in ParamSlots(params, |params|);
  }

  lemma SlotUnique(slots: Slots, x: string, y: string)
    requires Slotting(slots) && x in slots && y in slots && slots[x] == slots[y]
    ensures x == y
  {
  }

  /** Distinct parameters and no surplus argument: the flow runs on its parameters' arguments. */
  lemma ArgumentsByPosition(flow: Flow, args: seq<int>)
    requires Runnable(flow) && Distinct(ParamNames(flow.params)) && |args| <= |flow.params|
    ensures SlotEnv(FlowSlots(flow), args) == Sem.Bind(ParamNames(flow.params), args)
  {
    var names, slots := ParamNames(flow.params), FlowSlots(flow);
    var e := FlowCode(flow);
    forall x
      ensures x in SlotEnv(slots, args) <==> x in Sem.Bind(names, args)
      ensures x in SlotEnv(slots, args) ==> SlotEnv(slots, args)[x] == Sem.Bind(names, args)[x]
    {
      ArgumentAt(flow, e, args, x);
    }
  }

  lemma ArgumentAt(flow: Flow, e: Emitted, args: seq<int>, x: string)
    requires Runnable(flow) && Distinct(ParamNames(flow.params)) && |args| <= |flow.params|
    requires e.slots == FlowSlots(flow) && Extends(ParamSlots(flow.params, |flow.params|), e.slots)
    ensures var slots, bound := FlowSlots(flow), Sem.Bind(ParamNames(flow.params), args);
            && (x in SlotEnv(slots, args) <==> x in bound)
            && (x in SlotEnv(slots, args) ==> SlotEnv(slots, args)[x] == bound[x])
  {
    var names := ParamNames(flow.params);
    BindLookup(names, args, x);
    if x in SlotEnv(FlowSlots(flow), args) {
      SlotEnvLookup(flow, args, x);
    } else if i :| 0 <= i < |args| && names[i] == x {
      ParamInSlot(flow.params, e.slots, i);
    }
  }

  /** Every variable starts as without the surplus arguments exactly when each that lands in an
      allocated slot is 0. */
  lemma SurplusArgumentsVisible(flow: Flow, args: seq<int>)
    requires Runnable(flow) && Distinct(ParamNames(flow.params)) && |args| > |flow.params|
    ensures var slots := FlowSlots(flow);
            (forall x :: x in slots ==>
               Sem.Lookup(SlotEnv(slots, args), x)
               == Sem.Lookup(Sem.Bind(ParamNames(flow.params), args[..|flow.params|]), x))
            <==> (forall x :: x in slots && |flow.params| <= slots[x] < |args| ==> ToInt32(args[slots[x]]) == 0)
  {
    var n, names, slots := |flow.params|, ParamNames(flow.params), FlowSlots(flow);
    forall x | x in slots
      ensures Sem.Lookup(SlotEnv(slots, args), x) == Sem.Lookup(Sem.Bind(names, args[..n]), x)
         <==> (n <= slots[x] < |args| ==> ToInt32(args[slots[x]]) == 0)
    {
      SlotEnvLookup(flow, args, x);
      BindLookup(names, args[..n], x);
      var e := FlowCode(flow);
      DistinctParamSlots(flow.params, n);
      if slots[x] >= n {
        forall i | 0 <= i < n ensures names[i] != x {
          assert flow.params[i].name in ParamSlots(flow.params, n);
        }
      }
    }
  }

  // Under that condition the answer is the same as well.

  ghost function SlotNumbers(slots: Slots, names: set<string>): set<nat>
    requires names <= slots.Keys
  {
    set x | x in names :: slots[x]
  }

  lemma {:induction false} AsManyNumbers(slots: Slots, names: set<string>)
    requires Slotting(slots) && names <= slots.Keys
    ensures |SlotNumbers(slots, names)| == |names|
    decreases |names|
  {
    if names != {} {
      var x :| x in names;
      var rest := names - {x};
      AsManyNumbers(slots, rest);
      assert SlotNumbers(slots, names) == SlotNumbers(slots, rest) + {slots[x]};
      assert slots[x] !in SlotNumbers(slots, rest);
    }
  }

  lemma {:induction false} BoundedNumbers(numbers: set<nat>, n: nat)
    requires forall k :: k in numbers ==> k < n
    ensures |numbers| <= n
    decreases n
  {
    if n == 0 {
      assert numbers == {};
    } else {
      var rest := numbers - {n - 1};
      BoundedNumbers(rest, n - 1);
      assert numbers <= rest + {n - 1};
      assert |rest + {n - 1}| == |rest| + 1;
      Fewer(numbers, rest + {n - 1});
    }
  }

  /** The slots handed out are all of 0, 1, 2, ... up to their count. */
  lemma SlotTaken(slots: Slots, k: nat) returns (x: string)
    requires Slotting(slots) && k < |slots|
    ensures x in slots && slots[x] == k
  {
    var numbers := SlotNumbers(slots, slots.Keys);
    AsManyNumbers(slots, slots.Keys);
    if k !in numbers {
      BoundedNumbers(numbers + {k}, |slots|);
    }
    x :| x in slots && slots[x] == k;
  }

  lemma SameCell(flow: Flow, args: seq<int>, k: nat)
    requires Runnable(flow) && |args| > |flow.params| && k < CompileFlow(flow).value.localCount
    requires var slots := FlowSlots(flow);
             forall x :: x in slots && |flow.params| <= slots[x] < |args| ==> ToInt32(args[slots[x]]) == 0
    ensures var p := CompileFlow(flow).value;
            VM.Arguments(args, p.localCount)[k] == VM.Arguments(args[..|flow.params|], p.localCount)[k]
  {
    var e := FlowCode(flow);
    if |flow.params| <= k < |args| {
      var x := SlotTaken(e.slots, k);
    }
  }

  /** Surplus arguments that land in no allocated slot, or are 0 there, do not change the answer. */
  lemma SurplusArgumentsUnseen(flow: Flow, args: seq<int>, max: nat)
    requires Runnable(flow) && |args| > |flow.params|
    requires var slots := FlowSlots(flow);
             forall x :: x in slots && |flow.params| <= slots[x] < |args| ==> ToInt32(args[slots[x]]) == 0
    ensures VmAnswer(flow, args, max) == VmAnswer(flow, args[..|flow.params|], max)
  {
    var p, n := CompileFlow(flow).value, |flow.params|;
    forall k | 0 <= k < p.localCount
      ensures VM.Arguments(args, p.localCount)[k] == VM.Arguments(args[..n], p.localCount)[k]
    {
      SameCell(flow, args, k);
    }
    assert VM.Arguments(args, p.localCount) == VM.Arguments(args[..n], p.localCount);
  }
}
