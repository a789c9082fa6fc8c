/**
 The shape of compiled code, read off the cells alone: the cells decode into whole instructions,
 every jump lands on an instruction, and only a loop's closing JUMP goes backward.
 */
module CodeShape {
  import opened Options
  import opened FlowSyntax
  import opened Opcodes
  import opened BytecodeCompiler
  import opened Collections

  /** Cells taken by an instruction, operand included. */
  function Width(op: int): nat {
    if op == LOAD_CONST || op == LOAD_LOCAL || op == STORE_LOCAL || op == JUMP || op == JUMP_IF_FALSE then 2 else 1
  }

  /** Decoding `part` from its first cell, an instruction starts (or the code ends) at offset `i`. */
  predicate Boundary(part: seq<int>, i: nat)
    decreases |part|
  {
    i == 0
    || (part != [] && Width(part[0]) <= |part| && Width(part[0]) <= i && Boundary(part[Width(part[0])..], i - Width(part[0])))
  }

  predicate Whole(part: seq<int>) {
    Boundary(part, |part|)
  }

  datatype Jump = Jump(at: nat, op: int, target: int)

  /** The jump instructions of `part`, whose first cell is at address `at`. */
  function Jumps(part: seq<int>, at: nat): seq<Jump>
    decreases |part|
  {
    if part == [] || Width(part[0]) > |part| then []
    else
      var rest := Jumps(part[Width(part[0])..], at + Width(part[0]));
      if part[0] == JUMP || part[0] == JUMP_IF_FALSE then [Jump(at, part[0], part[1])] + rest else rest
  }

  lemma {:induction false} BoundaryConcat(a: seq<int>, b: seq<int>, i: nat)
    requires Whole(a)
    ensures i <= |a| ==> Boundary(a + b, i) == Boundary(a, i)
    ensures i >= |a| ==> Boundary(a + b, i) == Boundary(b, i - |a|)
    decreases |a|
  {
    if a == [] {
      assert a + b == b;
    } else {
      var w := Width(a[0]);
      assert (a + b)[w..] == a[w..] + b;
      if i >= w {
        BoundaryConcat(a[w..], b, i - w);
      }
    }
  }

  /** The jump of the first instruction, if it is one. */
  function FirstJump(part: seq<int>, at: nat): seq<Jump> {
    if |part| >= 2 && (part[0] == JUMP || part[0] == JUMP_IF_FALSE) then [Jump(at, part[0], part[1])] else []
  }

  lemma JumpsFirst(part: seq<int>, at: nat)
    requires part != [] && Width(part[0]) <= |part|
    ensures Jumps(part, at) == FirstJump(part, at) + Jumps(part[Width(part[0])..], at + Width(part[0]))
  {
  }

  lemma {:induction false} JumpsConcat(a: seq<int>, b: seq<int>, at: nat)
    requires Whole(a)
    ensures Jumps(a + b, at) == Jumps(a, at) + Jumps(b, at + |a|)
    decreases |a|
  {
    if a == [] {
      assert a + b == b;
    } else {
      var w := Width(a[0]);
      assert (a + b)[w..] == a[w..] + b;
      JumpsConcat(a[w..], b, at + w);
      JumpsFirst(a, at);
      JumpsFirst(a + b, at);
      assert FirstJump(a + b, at) == FirstJump(a, at);
      Assoc(FirstJump(a, at), Jumps(a[w..], at + w), Jumps(b, at + |a|));
    }
  }

  lemma WholeConcat(a: seq<int>, b: seq<int>)
    requires Whole(a) && Whole(b)
    ensures Whole(a + b)
  {
    BoundaryConcat(a, b, |a| + |b|);
  }

  /** A jump lands on an instruction of `part` (or on its end); a conditional one goes forward. */
  predicate Lands(j: Jump, part: seq<int>, base: nat) {
    && base <= j.target <= base + |part| && Boundary(part, j.target - base)
    && (j.op == JUMP_IF_FALSE ==> j.target > j.at)
  }

  ghost predicate Shaped(part: seq<int>, base: nat) {
    Whole(part) && forall j :: j in Jumps(part, base) ==> Lands(j, part, base)
  }

  /** What lands inside the middle of a concatenation lands inside the whole. */
  lemma LandsInside(j: Jump, a: seq<int>, b: seq<int>, c: seq<int>, base: nat)
    requires Whole(a) && Whole(b) && Lands(j, b, base + |a|)
    ensures Lands(j, a + b + c, base)
  {
    var i := j.target - base;
    WholeConcat(a, b);
    BoundaryConcat(a + b, c, i);
    BoundaryConcat(a, b, i);
  }

  lemma ShapedConcat(a: seq<int>, b: seq<int>, base: nat)
    requires Shaped(a, base) && Shaped(b, base + |a|)
    ensures Shaped(a + b, base)
  {
    WholeConcat(a, b);
    JumpsConcat(a, b, base);
    forall j | j in Jumps(a + b, base) ensures Lands(j, a + b, base) {
      if j in Jumps(a, base) {
        LandsInside(j, [], a, b, base);
        assert [] + a + b == a + b;
      } else {
        LandsInside(j, a, b, [], base);
        assert a + b + [] == a + b;
      }
    }
  }

  // ----- expressions have no jumps -----

  ghost predicate Straight(part: seq<int>) {
    Whole(part) && forall at: nat :: Jumps(part, at) == []
  }

  lemma StraightConcat(a: seq<int>, b: seq<int>)
    requires Straight(a) && Straight(b)
    ensures Straight(a + b)
  {
    WholeConcat(a, b);
    forall at: nat ensures Jumps(a + b, at) == [] {
      JumpsConcat(a, b, at);
    }
  }

  lemma OneInstruction(part: seq<int>)
    requires part != [] && |part| == Width(part[0])
    ensures Whole(part)
    ensures part[0] != JUMP && part[0] != JUMP_IF_FALSE ==> Straight(part)
    ensures part[0] == JUMP || part[0] == JUMP_IF_FALSE ==> forall at: nat :: Jumps(part, at) == [Jump(at, part[0], part[1])]
  {
    assert part[Width(part[0])..] == [];
  }

  lemma {:induction false} ExprStraight(e: Expr, slots: Slots)
    requires CompileExpr(e, slots).Some?
    ensures Straight(CompileExpr(e, slots).value)
  {
    var part := CompileExpr(e, slots).value;
    match e
    case BinaryExpr(op, l, r) =>
      ExprStraight(l, slots);
      ExprStraight(r, slots);
      var cl, cr := CompileExpr(l, slots).value, CompileExpr(r, slots).value;
      StraightConcat(cl, cr);
      OneInstruction([BinOpcode(op)]);
      StraightConcat(cl + cr, [BinOpcode(op)]);
    case UnaryExpr(op, x) =>
      ExprStraight(x, slots);
      OneInstruction([UnOpcode(op)]);
      StraightConcat(CompileExpr(x, slots).value, [UnOpcode(op)]);
    case _ => OneInstruction(part);
  }

  lemma OrZeroStraight(e: Option<Expr>, slots: Slots)
    requires CompileOrZero(e, slots).Some?
    ensures Straight(CompileOrZero(e, slots).value)
  {
    if e.Some? {
      ExprStraight(e.value, slots);
    } else {
      OneInstruction([LOAD_CONST, 0]);
    }
  }

  // ----- statements -----

  lemma {:induction false} StmtShaped(s: Stmt, slots: Slots, base: nat)
    requires CompileStmt(s, slots, base).Some?
    ensures Shaped(CompileStmt(s, slots, base).value.code, base)
    decreases s, 3
  {
    match s
    case LetDecl(x, e) => StoreShaped(x, e, slots, base);
    case AssignStmt(x, e) => StoreShaped(x, e, slots, base);
    case ReturnStmt(e) =>
      OrZeroStraight(e, slots);
      OneInstruction([RETURN]);
      StraightConcat(CompileOrZero(e, slots).value, [RETURN]);
    case UnsupportedStmt =>
    case Block(ss) => BlockShaped(ss, slots, base);
    case WhileStmt(cond, _) => WhileStmtShaped(s, CompileCond(cond, slots).value, slots, base);
    case IfStmt(cond, _, _) => IfStmtShaped(s, CompileCond(cond, slots).value, slots, base);
  }

  lemma {:induction false} WhileStmtShaped(s: Stmt, c: seq<int>, slots: Slots, base: nat)
    requires s.WhileStmt? && Some(c) == CompileCond(s.cond, slots) && CompileWhile(s, c, slots, base).Some?
    ensures Shaped(CompileWhile(s, c, slots, base).value.code, base)
    decreases s, 2
  {
    ExprStraight(s.cond.value, slots);
    NestedShaped(s.body, slots, base + |c| + 2);
    WhileShaped(c, CompileNested(s.body, slots, base + |c| + 2).value.code, base);
  }

  lemma {:induction false} IfStmtShaped(s: Stmt, c: seq<int>, slots: Slots, base: nat)
    requires s.IfStmt? && Some(c) == CompileCond(s.cond, slots) && CompileIf(s, c, slots, base).Some?
    ensures Shaped(CompileIf(s, c, slots, base).value.code, base)
    decreases s, 2
  {
    var t := CompileNested(s.thn, slots, base + |c| + 2).value;
    ExprStraight(s.cond.value, slots);
    NestedShaped(s.thn, slots, base + |c| + 2);
    if s.els.None? {
      IfShaped(c, t.code, base);
    } else {
      var elseAddr := base + |c| + 2 + |t.code| + 2;
      NestedShaped(s.els, t.slots, elseAddr);
      IfElseShaped(c, t.code, CompileNested(s.els, t.slots, elseAddr).value.code, base);
    }
  }

  lemma StoreShaped(x: string, e: Option<Expr>, slots: Slots, base: nat)
    requires CompileStore(x, e, slots).Some?
    ensures Shaped(CompileStore(x, e, slots).value.code, base)
  {
    OrZeroStraight(e, slots);
    var store := [STORE_LOCAL, WithSlot(slots, x)[x]];
    OneInstruction(store);
    StraightConcat(CompileOrZero(e, slots).value, store);
  }

  lemma {:induction false} NestedShaped(o: Option<Stmt>, slots: Slots, base: nat)
    requires CompileNested(o, slots, base).Some?
    ensures Shaped(CompileNested(o, slots, base).value.code, base)
    decreases o, 4
  {
    if o.Some? {
      StmtShaped(o.value, slots, base);
    }
  }

  lemma {:induction false} BlockShaped(ss: seq<Stmt>, slots: Slots, base: nat)
    requires CompileBlock(ss, slots, base).Some?
    ensures Shaped(CompileBlock(ss, slots, base).value.code, base)
    decreases ss, 0
  {
    if ss != [] {
      StmtShaped(ss[0], slots, base);
      var h := CompileStmt(ss[0], slots, base).value;
      BlockShaped(ss[1..], h.slots, base + |h.code|);
      ShapedConcat(h.code, CompileBlock(ss[1..], h.slots, base + |h.code|).value.code, base);
    }
  }

  lemma IfShaped(c: seq<int>, t: seq<int>, base: nat)
    requires Straight(c) && Shaped(t, base + |c| + 2)
    ensures Shaped(IfCode(base, c, t), base)
  {
    var jif := [JUMP_IF_FALSE, base + |c| + 2 + |t|];
    var all := c + jif + t;
    assert IfCode(base, c, t) == all;
    OneInstruction(jif);
    WholeConcat(c, jif);
    WholeConcat(c + jif, t);
    JumpsConcat(c + jif, t, base);
    JumpsConcat(c, jif, base);
    forall j | j in Jumps(all, base) ensures Lands(j, all, base) {
      if j in Jumps(t, base + |c + jif|) {
        LandsInside(j, c + jif, t, [], base);
        assert c + jif + t + [] == all;
      }
    }
  }

  /** Everything up to the else branch. */
  lemma IfElseFront(c: seq<int>, jif: seq<int>, t: seq<int>, jump: seq<int>, base: nat)
    requires Straight(c) && Whole(t) && |jif| == |jump| == 2 && jif[0] == JUMP_IF_FALSE && jump[0] == JUMP
    ensures Whole(c + jif) && Whole(c + jif + t + jump)
    ensures Jumps(c + jif + t + jump, base)
         == [Jump(base + |c|, jif[0], jif[1])] + Jumps(t, base + |c| + 2)
            + [Jump(base + |c| + 2 + |t|, jump[0], jump[1])]
  {
    OneInstruction(jif);
    OneInstruction(jump);
    WholeConcat(c, jif);
    WholeConcat(c + jif, t);
    WholeConcat(c + jif + t, jump);
    JumpsConcat(c + jif + t, jump, base);
    JumpsConcat(c + jif, t, base);
    JumpsConcat(c, jif, base);
  }

  lemma IfElseShaped(c: seq<int>, t: seq<int>, e: seq<int>, base: nat)
    requires Straight(c) && Shaped(t, base + |c| + 2) && Shaped(e, base + |c| + 2 + |t| + 2)
    ensures Shaped(IfElseCode(base, c, t, e), base)
  {
    var elseAddr := base + |c| + 2 + |t| + 2;
    var jif, jump := [JUMP_IF_FALSE, elseAddr], [JUMP, elseAddr + |e|];
    var front := c + jif + t + jump;
    assert IfElseCode(base, c, t, e) == front + e;
    IfElseFront(c, jif, t, jump, base);
    WholeConcat(front, e);
    JumpsConcat(front, e, base);
    forall j | j in Jumps(front + e, base) ensures Lands(j, front + e, base) {
      IfElseLands(c, jif, t, jump, e, base, j);
    }
  }

  /** The two jumps of the statement, and those of its branches. */
  lemma IfElseLands(c: seq<int>, jif: seq<int>, t: seq<int>, jump: seq<int>, e: seq<int>, base: nat, j: Jump)
    requires Straight(c) && Shaped(t, base + |c| + 2) && Shaped(e, base + |c| + 2 + |t| + 2)
    requires var elseAddr := base + |c| + 2 + |t| + 2;
             jif == [JUMP_IF_FALSE, elseAddr] && jump == [JUMP, elseAddr + |e|]
    requires j in Jumps(c + jif + t + jump + e, base)
    ensures Lands(j, c + jif + t + jump + e, base)
  {
    var front := c + jif + t + jump;
    var all := front + e;
    IfElseFront(c, jif, t, jump, base);
    WholeConcat(front, e);
    JumpsConcat(front, e, base);
    BoundaryConcat(front, e, |front|);
    if j in Jumps(t, base + |c + jif|) {
      LandsInside(j, c + jif, t, jump + e, base);
      assert c + jif + t + (jump + e) == all;
    } else if j in Jumps(e, base + |front|) {
      LandsInside(j, front, e, [], base);
      assert front + e + [] == all;
    }
  }

  lemma WhileShaped(c: seq<int>, b: seq<int>, base: nat)
    requires Straight(c) && Shaped(b, base + |c| + 2)
    ensures Shaped(WhileCode(base, c, b), base)
  {
    var stop := base + |c| + 2 + |b| + 2;
    var jif, jump := [JUMP_IF_FALSE, stop], [JUMP, base];
    var all := c + jif + b + jump;
    assert WhileCode(base, c, b) == all;
    OneInstruction(jif);
    OneInstruction(jump);
    WholeConcat(c, jif);
    WholeConcat(c + jif, b);
    WholeConcat(c + jif + b, jump);
    JumpsConcat(c + jif + b, jump, base);
    JumpsConcat(c + jif, b, base);
    JumpsConcat(c, jif, base);
    forall j | j in Jumps(all, base) ensures Lands(j, all, base) {
      if j in Jumps(b, base + |c + jif|) {
        LandsInside(j, c + jif, b, jump, base);
      }
    }
  }

  /** In a compiled flow every jump targets the start of an instruction of the code, and every
      JUMP_IF_FALSE jumps forward. */
  lemma CompiledCodeShaped(flow: Flow)
    requires CompileBody(flow).Some?
    ensures var code := CompileBody(flow).value.code;
            && Whole(code)
            && forall j :: j in Jumps(code, 0) ==>
                 0 <= j.target < |code| && Boundary(code, j.target) && (j.op == JUMP_IF_FALSE ==> j.target > j.at)
  {
    var body := CompileBlock(flow.body.value, ParamSlots(flow.params, |flow.params|), 0).value.code;
    var tail := [LOAD_CONST, 0] + [RETURN];
    assert CompileBody(flow).value.code == body + tail;
    BlockShaped(flow.body.value, ParamSlots(flow.params, |flow.params|), 0);
    OneInstruction([LOAD_CONST, 0]);
    OneInstruction([RETURN]);
    StraightConcat([LOAD_CONST, 0], [RETURN]);
    ShapedThenStraight(body, tail);
  }

  /** The jumps of the front part still land when straight code follows, short of its end. */
  lemma ShapedThenStraight(body: seq<int>, tail: seq<int>)
    requires Shaped(body, 0) && Straight(tail) && tail != []
    ensures Whole(body + tail)
    ensures forall j :: j in Jumps(body + tail, 0) ==> Lands(j, body + tail, 0) && j.target < |body + tail|
  {
    WholeConcat(body, tail);
    JumpsConcat(body, tail, 0);
    forall j | j in Jumps(body + tail, 0) ensures Lands(j, body + tail, 0) && j.target < |body + tail| {
      LandsInside(j, [], body, tail, 0);
      assert [] + body + tail == body + tail;
    }
  }
}
