/**
 The conversions, operators and types that the statements about compiled flows are stated through, written out
 (bytecode-vm.ts, i32-arith.ts).
 */
module FlowForms {
  import opened Int32Arith
  import opened FlowSyntax
  import opened BytecodeCompiler
  import opened FlowAdmission
  import opened IntegerDivision
  import M = StackMachine
  import Sem = FlowSemantics

  /** The value of a cell is the one 32-bit integer that differs from the number by a multiple of 2^32. */
  lemma ToInt32Iff(x: int, r: int)
    ensures r == ToInt32(x)
       <==> -2_147_483_648 <= r <= 2_147_483_647 && exists k :: x == r + 4_294_967_296 * k
  {
    var k := if ToInt32(x) == x % 4_294_967_296 then x / 4_294_967_296 else x / 4_294_967_296 + 1;
    assert x == ToInt32(x) + 4_294_967_296 * k;
  }

  /** An exact result, or the overflow of one that does not fit 32 bits. */
  function Exactly(n: int): I32Result {
    if -2_147_483_648 <= n <= 2_147_483_647 then Val(n) else Trap(IntegerOverflow)
  }

  function OneIf(b: bool): I32Result {
    Val(if b then 1 else 0)
  }

  /** What each operator answers, in the semantics and in the machine: exact or a trap, and 1 or 0. */
  lemma OperatorsAnswer(op: BinOp, a: Int32, b: Int32)
    ensures Sem.BinaryMeaning(op, a, b) == M.BinaryOp(op, a, b)
         == match op
            case Add => Exactly(a + b)
            case Sub => Exactly(a - b)
            case Mul => Exactly(a * b)
            case Div => if b == 0 then Trap(DivisionByZero) else Exactly(TruncDiv(a, b))
            case Mod => if b == 0 then Trap(DivisionByZero) else Exactly(TruncRem(a, b))
            case Lt => OneIf(a < b)
            case Le => OneIf(a <= b)
            case Gt => OneIf(a > b)
            case Ge => OneIf(a >= b)
            case Eq => OneIf(a == b)
            case Ne => OneIf(a != b)
            case And => OneIf(a != 0 && b != 0)
            case Or => OneIf(a != 0 || b != 0)
  {
    match op
    case Mul => MulIsExact(a, b);
    case Div => DivIsExact(a, b);
    case Mod => ModIsExact(a, b);
    case _ =>
  }

  lemma SignsAnswer(op: UnOp, a: Int32)
    ensures Sem.UnaryMeaning(op, a) == M.UnaryOp(op, a)
         == match op
            case Neg => var n: int := a; Exactly(-n)
            case Not => OneIf(a == 0)
  {
  }

  /** Truth values are written 1 and 0. */
  lemma LiteralsAnswer(b: bool, env: Sem.Env)
    ensures Sem.Eval(BoolLiteral(b), env) == Sem.Value(if b then 1 else 0)
  {
  }

  const INTEGER_TYPES := {"Int", "Int8", "Int16", "Int32", "Bool", "Byte"}

  lemma IntegerTypesAre(t: string)
    ensures IsIntegerType(t) <==> t in INTEGER_TYPES
  {
  }

  /**
   A flow compiles if and only if it declares no 64-bit type, each parameter is of one of the six types, there is a
   body, and the body is admitted with the parameters as its first locals.
   */
  lemma CompilesExactly(flow: Flow)
    ensures CompileFlow(flow).Some?
       <==> && !flow.declares64 && flow.body.Some?
            && (forall i :: 0 <= i < |flow.params| ==> flow.params[i].declType in INTEGER_TYPES)
            && AdmitsAll(flow.body.value, set i | 0 <= i < |flow.params| :: flow.params[i].name)
  {
    CompilesIff(flow);
    forall i | 0 <= i < |flow.params|
      ensures IsIntegerType(flow.params[i].declType) <==> flow.params[i].declType in INTEGER_TYPES
    {
      IntegerTypesAre(flow.params[i].declType);
    }
  }
}
