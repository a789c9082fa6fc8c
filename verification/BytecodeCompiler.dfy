/**
 The compiler from flow syntax to a flat opcode stream (class BytecodeCompiler of bytecode-vm.ts).

 `CompileExpr`, `CompileStmt` and `CompileFlow` say which code is emitted, at which addresses,
 and when compilation is declined. The class `Compiler` is the program itself: it pushes onto
 `code`, allocates slots by name, and patches forward jumps after the fact.
 */
module BytecodeCompiler {
  import opened Options
  import opened Int32Arith
  import opened FlowSyntax
  import opened Opcodes
  import opened Collections

  // ----- slots -----

  type Slots = map<string, nat>

  /** Slots are handed out 0, 1, 2, ... and never shared. */
  ghost predicate Slotting(slots: Slots) {
    && (forall x :: x in slots ==> slots[x] < |slots|)
    && (forall x, y :: x in slots && y in slots && slots[x] == slots[y] ==> x == y)
  }

  function WithSlot(slots: Slots, x: string): (r: Slots)
    ensures x in r
  {
    if x in slots then slots else slots[x := |slots|]
  }

  lemma WithSlotProperties(slots: Slots, x: string)
    ensures Slotting(slots) ==> Slotting(WithSlot(slots, x))
    ensures Extends(slots, WithSlot(slots, x))
    ensures WithSlot(slots, x).Keys == slots.Keys + {x}
  {
  }

  ghost predicate Extends(a: Slots, b: Slots) {
    forall x :: x in a ==> x in b && b[x] == a[x]
  }

  // ----- the code emitted for a node -----

  function CompileExpr(e: Expr, slots: Slots): Option<seq<int>> {
    match e
    case NumberLiteral(n) => if InRange(n) then Some([LOAD_CONST, n]) else None
    case BoolLiteral(b) => Some([LOAD_CONST, if b then 1 else 0])
    case Identifier(x) =>
      if x == "true" then Some([LOAD_CONST, 1])
      else if x == "false" then Some([LOAD_CONST, 0])
      else if x in slots then Some([LOAD_LOCAL, slots[x]])
      else None
    case BinaryExpr(op, l, r) =>
      var cl := CompileExpr(l, slots);
      if cl.None? then None else
      var cr := CompileExpr(r, slots);
      if cr.None? then None else
      Some(cl.value + cr.value + [BinOpcode(op)])
    case UnaryExpr(op, x) =>
      var c := CompileExpr(x, slots);
      if c.None? then None else
      Some(c.value + [UnOpcode(op)])
    case UnsupportedExpr => None
  }

  function CompileOrZero(e: Option<Expr>, slots: Slots): Option<seq<int>> {
    match e
    case None => Some([LOAD_CONST, 0])
    case Some(x) => CompileExpr(x, slots)
  }

  function CompileCond(e: Option<Expr>, slots: Slots): Option<seq<int>> {
    match e
    case None => None
    case Some(x) => CompileExpr(x, slots)
  }

  datatype Emitted = Emitted(code: seq<int>, slots: Slots)

  /** The slot is allocated after the right-hand side is compiled. */
  function CompileStore(x: string, e: Option<Expr>, slots: Slots): Option<Emitted> {
    var c := CompileOrZero(e, slots);
    if c.None? then None else
    var s := WithSlot(slots, x);
    Some(Emitted(c.value + [STORE_LOCAL, s[x]], s))
  }

  // Code layouts of the three jumping shapes, for code starting at address `base`.

  function IfCode(base: nat, c: seq<int>, t: seq<int>): seq<int> {
    c + ([JUMP_IF_FALSE, base + |c| + 2 + |t|] + t)
  }

  function IfElseCode(base: nat, c: seq<int>, t: seq<int>, e: seq<int>): seq<int> {
    var elseAddr := base + |c| + 2 + |t| + 2;
    c + ([JUMP_IF_FALSE, elseAddr] + t) + ([JUMP, elseAddr + |e|] + e)
  }

  function WhileCode(base: nat, c: seq<int>, b: seq<int>): seq<int> {
    c + ([JUMP_IF_FALSE, base + |c| + 2 + |b| + 2] + (b + [JUMP, base]))
  }

  /** `base` is the address of the first emitted cell: jump targets are absolute. */
  function CompileStmt(s: Stmt, slots: Slots, base: nat): Option<Emitted>
    decreases s, 1
  {
    match s
    case LetDecl(x, e) => CompileStore(x, e, slots)
    case AssignStmt(x, e) => CompileStore(x, e, slots)
    case ReturnStmt(e) =>
      var c := CompileOrZero(e, slots);
      if c.None? then None else
      Some(Emitted(c.value + [RETURN], slots))
    case IfStmt(cond, _, _) =>
      var c := CompileCond(cond, slots);
      if c.None? then None else CompileIf(s, c.value, slots, base)
    case WhileStmt(cond, _) =>
      var c := CompileCond(cond, slots);
      if c.None? then None else CompileWhile(s, c.value, slots, base)
    case Block(ss) => CompileBlock(ss, slots, base)
    case UnsupportedStmt => None
  }

  function CompileIf(s: Stmt, c: seq<int>, slots: Slots, base: nat): Option<Emitted>
    requires s.IfStmt?
    decreases s, 0
  {
    var t := CompileNested(s.thn, slots, base + |c| + 2);
    if t.None? then None
    else if s.els.None? then Some(Emitted(IfCode(base, c, t.value.code), t.value.slots))
    else
      var e := CompileNested(s.els, t.value.slots, base + |c| + 2 + |t.value.code| + 2);
      if e.None? then None
      else Some(Emitted(IfElseCode(base, c, t.value.code, e.value.code), e.value.slots))
  }

  function CompileWhile(s: Stmt, c: seq<int>, slots: Slots, base: nat): Option<Emitted>
    requires s.WhileStmt?
    decreases s, 0
  {
    var b := CompileNested(s.body, slots, base + |c| + 2);
    if b.None? then None else Some(Emitted(WhileCode(base, c, b.value.code), b.value.slots))
  }

  function CompileNested(s: Option<Stmt>, slots: Slots, base: nat): Option<Emitted>
    decreases s, 2
  {
    match s
    case None => Some(Emitted([], slots))
    case Some(t) => CompileStmt(t, slots, base)
  }

  function CompileBlock(ss: seq<Stmt>, slots: Slots, base: nat): Option<Emitted>
    decreases ss, 0
  {
    if ss == [] then Some(Emitted([], slots))
    else
      var h := CompileStmt(ss[0], slots, base);
      if h.None? then None else
      var t := CompileBlock(ss[1..], h.value.slots, base + |h.value.code|);
      if t.None? then None else
      Some(Emitted(h.value.code + t.value.code, t.value.slots))
  }

  /** The declared types the integer-only VM admits for a parameter. */
  predicate IsIntegerType(t: string) {
    t == "Int" || t == "Int8" || t == "Int16" || t == "Int32" || t == "Bool" || t == "Byte"
  }

  predicate IntegerParams(params: seq<Param>) {
    forall i :: 0 <= i < |params| ==> IsIntegerType(params[i].declType)
  }

  /** The slots of the first `n` parameters. */
  function ParamSlots(params: seq<Param>, n: nat): Slots
    requires n <= |params|
  {
    if n == 0 then map[] else WithSlot(ParamSlots(params, n - 1), params[n - 1].name)
  }

  lemma ParamSlotting(params: seq<Param>, n: nat)
    requires n <= |params|
    ensures Slotting(ParamSlots(params, n))
  {
    if n > 0 {
      WithSlotProperties(ParamSlots(params, n - 1), params[n - 1].name);
    }
  }

  datatype Program = Program(code: seq<Int32>, localCount: nat, paramNames: seq<string>)

  /** Int32Array.from truncates every cell to 32 bits. */
  function Int32Cells(code: seq<int>): (r: seq<Int32>)
    ensures |r| == |code|
    ensures forall i :: 0 <= i < |code| ==> r[i] == ToInt32(code[i])
  {
    seq(|code|, i requires 0 <= i < |code| => ToInt32(code[i]))
  }

  /** The body's code followed by the implicit `return 0`, before truncation to 32-bit cells. */
  function CompileBody(flow: Flow): Option<Emitted> {
    if flow.declares64 then None
    else if !IntegerParams(flow.params) then None
    else if flow.body.None? then None
    else
      var e := CompileBlock(flow.body.value, ParamSlots(flow.params, |flow.params|), 0);
      if e.None? then None else
      Some(Emitted(e.value.code + [LOAD_CONST, 0, RETURN], e.value.slots))
  }

  function CompileFlow(flow: Flow): Option<Program> {
    var e := CompileBody(flow);
    if e.None? then None else
    Some(Program(Int32Cells(e.value.code), |e.value.slots|, ParamNames(flow.params)))
  }

  // ----- the compiler object -----

  // Patching a placeholder turns pushed code into the layouts above.

  lemma Patched(front: seq<int>, op: int, rest: seq<int>, target: int)
    ensures (front + [op] + [0] + rest)[|front| + 1 := target] == front + ([op, target] + rest)
  {
  }

  lemma WhilePatched(before: seq<int>, c: seq<int>, b: seq<int>)
    ensures var pushed := before + c + [JUMP_IF_FALSE] + [0] + b + [JUMP, |before|];
            pushed[|before + c| + 1 := |pushed|] == before + WhileCode(|before|, c, b)
  {
    var front, tail := before + c, b + [JUMP, |before|];
    var pushed := front + [JUMP_IF_FALSE] + [0] + b + [JUMP, |before|];
    Assoc(front + [JUMP_IF_FALSE] + [0], b, [JUMP, |before|]);
    Patched(front, JUMP_IF_FALSE, tail, |pushed|);
    Assoc(before, c, [JUMP_IF_FALSE, |pushed|] + tail);
  }

  lemma IfPatched(before: seq<int>, c: seq<int>, t: seq<int>)
    ensures var pushed := before + c + [JUMP_IF_FALSE] + [0] + t;
            pushed[|before + c| + 1 := |pushed|] == before + IfCode(|before|, c, t)
  {
    var pushed := before + c + [JUMP_IF_FALSE] + [0] + t;
    Patched(before + c, JUMP_IF_FALSE, t, |pushed|);
    Assoc(before, c, [JUMP_IF_FALSE, |pushed|] + t);
  }

  lemma ThenPatched(front: seq<int>, t: seq<int>)
    ensures var pushed := front + [JUMP_IF_FALSE] + [0] + t + [JUMP] + [0];
            pushed[|front| + 1 := |pushed|]
            == front + ([JUMP_IF_FALSE, |front| + 2 + |t| + 2] + t) + [JUMP] + [0]
  {
    var pushed := front + [JUMP_IF_FALSE] + [0] + t + [JUMP] + [0];
    assert pushed == front + [JUMP_IF_FALSE] + [0] + (t + [JUMP] + [0]);
    Patched(front, JUMP_IF_FALSE, t + [JUMP] + [0], |pushed|);
    assert [JUMP_IF_FALSE, |pushed|] + (t + [JUMP] + [0]) == ([JUMP_IF_FALSE, |pushed|] + t) + [JUMP] + [0];
  }

  lemma ElsePatched(before: seq<int>, c: seq<int>, t: seq<int>, e: seq<int>)
    ensures var elseAddr := |before + c| + 2 + |t| + 2;
            var front := before + c + ([JUMP_IF_FALSE, elseAddr] + t);
            var pushed := front + [JUMP] + [0] + e;
            |front| + 2 == elseAddr
            && pushed[|front| + 1 := |pushed|] == before + IfElseCode(|before|, c, t, e)
  {
    var elseAddr := |before + c| + 2 + |t| + 2;
    var mid := [JUMP_IF_FALSE, elseAddr] + t;
    var pushed := before + c + mid + [JUMP] + [0] + e;
    Patched(before + c + mid, JUMP, e, |pushed|);
    Assoc(before, c, mid);
    Assoc(before, c + mid, [JUMP, |pushed|] + e);
  }

  class Compiler {
    var code: seq<int>
    var slots: map<string, nat>
    var nextSlot: nat

    constructor ()
      ensures code == [] && slots == map[] && nextSlot == 0
    {
      code, slots, nextSlot := [], map[], 0;
    }

    ghost predicate Valid()
      reads this
    {
      nextSlot == |slots|
    }

    /** The object holds `before` and, behind it, what `e` emitted. */
    ghost predicate Holds(before: seq<int>, e: Option<Emitted>)
      reads this
    {
      e.Some? && Valid() && code == before + e.value.code && slots == e.value.slots
    }

    method SlotFor(name: string) returns (s: nat)
      requires Valid()
      modifies this`slots, this`nextSlot
      ensures Valid()
      ensures slots == WithSlot(old(slots), name) && s == slots[name]
    {
      if name in slots {
        s := slots[name];
      } else {
        s := nextSlot;
        nextSlot := nextSlot + 1;
        slots := slots[name := s];
      }
    }

    /** `ok` is false where the source throws BytecodeUnsupported; the object is then discarded. */
    method EmitExpr(expr: Expr) returns (ok: bool)
      requires Valid()
      modifies this`code
      ensures ok <==> CompileExpr(expr, slots).Some?
      ensures ok ==> code == old(code) + CompileExpr(expr, slots).value
    {
      match expr
      case NumberLiteral(n) =>
        if !InRange(n) { return false; }
        code := code + [LOAD_CONST, n];
        return true;
      case BoolLiteral(b) =>
        code := code + [LOAD_CONST, if b then 1 else 0];
        return true;
      case Identifier(x) =>
        if x == "true" { code := code + [LOAD_CONST, 1]; return true; }
        if x == "false" { code := code + [LOAD_CONST, 0]; return true; }
        if x !in slots { return false; }
        code := code + [LOAD_LOCAL, slots[x]];
        return true;
      case BinaryExpr(op, l, r) =>
        ok := EmitExpr(l);
        if !ok { return; }
        ok := EmitExpr(r);
        if !ok { return; }
        code := code + [BinOpcode(op)];
      case UnaryExpr(op, x) =>
        ok := EmitExpr(x);
        if !ok { return; }
        code := code + [UnOpcode(op)];
      case UnsupportedExpr =>
        return false;
    }

    method EmitOrZero(expr: Option<Expr>) returns (ok: bool)
      requires Valid()
      modifies this`code
      ensures ok <==> CompileOrZero(expr, slots).Some?
      ensures ok ==> code == old(code) + CompileOrZero(expr, slots).value
    {
      match expr
      case None =>
        code := code + [LOAD_CONST, 0];
        return true;
      case Some(x) =>
        ok := EmitExpr(x);
    }

    method EmitStore(name: string, expr: Option<Expr>) returns (ok: bool)
      requires Valid()
      modifies this
      ensures ok <==> CompileStore(name, expr, old(slots)).Some?
      ensures ok ==> Holds(old(code), CompileStore(name, expr, old(slots)))
    {
      ok := EmitOrZero(expr);
      if !ok { return; }
      var s := SlotFor(name);
      code := code + [STORE_LOCAL, s];
    }

    /** Overwrites the placeholder cell at `addr` with the current end of the code. */
    method PatchToHere(addr: nat)
      requires Valid() && addr < |code|
      modifies this`code
      ensures code == old(code)[addr := |old(code)|]
    {
      code := code[addr := |code|];
    }

    method EmitStmt(stmt: Stmt) returns (ok: bool)
      requires Valid()
      modifies this
      ensures ok <==> CompileStmt(stmt, old(slots), |old(code)|).Some?
      ensures ok ==> Holds(old(code), CompileStmt(stmt, old(slots), |old(code)|))
      decreases stmt, 1
    {
      match stmt
      case LetDecl(name, init) => ok := EmitStore(name, init);
      case AssignStmt(name, rhs) => ok := EmitStore(name, rhs);
      case ReturnStmt(result) =>
        ok := EmitOrZero(result);
        if !ok { return; }
        code := code + [RETURN];
      case IfStmt(cond, _, _) =>
        ghost var before := code;
        if cond.None? { return false; }
        ok := EmitExpr(cond.value);
        if !ok { return; }
        ok := EmitIf(stmt, before, CompileExpr(cond.value, slots).value);
      case WhileStmt(cond, _) =>
        var loopStart := |code|;
        ghost var before := code;
        if cond.None? { return false; }
        ok := EmitExpr(cond.value);
        if !ok { return; }
        ok := EmitWhile(stmt, loopStart, before, CompileExpr(cond.value, slots).value);
      case Block(ss) => ok := EmitBlock(ss);
      case UnsupportedStmt => return false;
    }

    /** What follows the condition `c` of an if. */
    method EmitIf(stmt: Stmt, ghost before: seq<int>, ghost c: seq<int>) returns (ok: bool)
      requires Valid() && stmt.IfStmt? && code == before + c
      modifies this
      ensures ok <==> CompileIf(stmt, c, old(slots), |before|).Some?
      ensures ok ==> Holds(before, CompileIf(stmt, c, old(slots), |before|))
      decreases stmt, 0
    {
      ghost var t0 := CompileNested(stmt.thn, slots, |before| + |c| + 2);
      code := code + [JUMP_IF_FALSE];
      var elseJumpAddr := |code|;
      code := code + [0];
      ok := EmitNested(stmt.thn);
      if !ok { return; }
      if stmt.els.None? {
        PatchToHere(elseJumpAddr);
        IfPatched(before, c, t0.value.code);
      } else {
        ok := EmitElse(stmt.els, elseJumpAddr, before, c, t0.value.code);
      }
    }

    /** The tail of an if/else: the jump over the else branch, both patches, the branch itself. */
    method EmitElse(els: Option<Stmt>, elseJumpAddr: nat, ghost before: seq<int>, ghost c: seq<int>, ghost t: seq<int>)
      returns (ok: bool)
      requires Valid() && els.Some?
      requires code == before + c + [JUMP_IF_FALSE] + [0] + t && elseJumpAddr == |before + c| + 1
      modifies this
      ensures var e := CompileNested(els, old(slots), |before| + |c| + 2 + |t| + 2);
              && (ok <==> e.Some?)
              && (ok ==> Valid() && slots == e.value.slots
                         && code == before + IfElseCode(|before|, c, t, e.value.code))
      decreases els, 3
    {
      code := code + [JUMP];
      var endJumpAddr := |code|;
      code := code + [0];
      PatchToHere(elseJumpAddr);
      ThenPatched(before + c, t);
      ghost var e := CompileNested(els, slots, |code|);
      ok := EmitNested(els);
      if !ok { return; }
      PatchToHere(endJumpAddr);
      ElsePatched(before, c, t, e.value.code);
    }

    /** What follows the condition `c` of a while. */
    method EmitWhile(stmt: Stmt, loopStart: nat, ghost before: seq<int>, ghost c: seq<int>) returns (ok: bool)
      requires Valid() && stmt.WhileStmt? && code == before + c && loopStart == |before|
      modifies this
      ensures ok <==> CompileWhile(stmt, c, old(slots), |before|).Some?
      ensures ok ==> Holds(before, CompileWhile(stmt, c, old(slots), |before|))
      decreases stmt, 0
    {
      ghost var b0 := CompileNested(stmt.body, slots, |before| + |c| + 2);
      code := code + [JUMP_IF_FALSE];
      var endJumpAddr := |code|;
      code := code + [0];
      ok := EmitNested(stmt.body);
      if !ok { return; }
      code := code + [JUMP, loopStart];
      PatchToHere(endJumpAddr);
      WhilePatched(before, c, b0.value.code);
    }

    method EmitNested(stmt: Option<Stmt>) returns (ok: bool)
      requires Valid()
      modifies this
      ensures ok <==> CompileNested(stmt, old(slots), |old(code)|).Some?
      ensures ok ==> Holds(old(code), CompileNested(stmt, old(slots), |old(code)|))
      decreases stmt, 2
    {
      match stmt
      case None => return true;
      case Some(s) => ok := EmitStmt(s);
    }

    method EmitBlock(stmts: seq<Stmt>) returns (ok: bool)
      requires Valid()
      modifies this
      ensures ok <==> CompileBlock(stmts, old(slots), |old(code)|).Some?
      ensures ok ==> Holds(old(code), CompileBlock(stmts, old(slots), |old(code)|))
      decreases stmts, 0
    {
      if stmts == [] { return true; }
      ghost var before, slots0 := code, slots;
      ghost var h := CompileStmt(stmts[0], slots0, |before|);
      ok := EmitStmt(stmts[0]);
      if !ok {
        assert CompileBlock(stmts, slots0, |before|).None?;
        return;
      }
      ghost var t := CompileBlock(stmts[1..], h.value.slots, |before| + |h.value.code|);
      assert CompileBlock(stmts, slots0, |before|)
          == if t.None? then None else Some(Emitted(h.value.code + t.value.code, t.value.slots));
      ok := EmitBlock(stmts[1..]);
      if ok {
        Assoc(before, h.value.code, t.value.code);
      }
    }

    /** Parameters take slots 0, 1, ... in order; a non-integer parameter is declined. */
    method EmitParams(params: seq<Param>) returns (ok: bool)
      requires Valid() && slots == map[]
      modifies this`slots, this`nextSlot
      ensures Valid()
      ensures ok <==> IntegerParams(params)
      ensures ok ==> slots == ParamSlots(params, |params|)
    {
      var i := 0;
      while i < |params|
        invariant 0 <= i <= |params|
        invariant Valid() && slots == ParamSlots(params, i)
        invariant forall j :: 0 <= j < i ==> IsIntegerType(params[j].declType)
      {
        if !IsIntegerType(params[i].declType) { return false; }
        var _ := SlotFor(params[i].name);
        i := i + 1;
      }
      return true;
    }

    /** The declared entry point: the program, or nothing where the source throws. */
    method Compile(flow: Flow) returns (p: Option<Program>)
      requires code == [] && slots == map[] && nextSlot == 0
      modifies this
      ensures p == CompileFlow(flow)
    {
      if flow.declares64 { return None; }
      var ok := EmitParams(flow.params);
      if !ok || flow.body.None? { return None; }
      ghost var e := CompileBlock(flow.body.value, slots, 0);
      ok := EmitBlock(flow.body.value);
      if !ok { return None; }
      assert code == e.value.code;
      code := code + [LOAD_CONST, 0, RETURN];
      p := Some(Program(Int32Cells(code), nextSlot, ParamNames(flow.params)));
    }
  }
}
