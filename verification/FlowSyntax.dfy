/**
 The syntax trees that the bytecode compiler accepts or declines, decoded from the parser's
 generic nodes. A node kind the compiler declines outright (a call, a float literal, an
 operator without its operands, an unknown statement) is an `Unsupported...` leaf.
 */
module FlowSyntax {
  import opened Options

  datatype BinOp = Add | Sub | Mul | Div | Mod | Lt | Le | Gt | Ge | Eq | Ne | And | Or

  datatype UnOp = Neg | Not

  datatype Expr =
    | NumberLiteral(n: int)
    | BoolLiteral(b: bool)
    | Identifier(name: string)
    | BinaryExpr(op: BinOp, left: Expr, right: Expr)
    | UnaryExpr(uop: UnOp, operand: Expr)
    | UnsupportedExpr

  // The children of a statement are positional and may be missing.
  datatype Stmt =
    | LetDecl(name: string, init: Option<Expr>)
    | AssignStmt(name: string, rhs: Option<Expr>)
    | ReturnStmt(result: Option<Expr>)
    | IfStmt(cond: Option<Expr>, thn: Option<Stmt>, els: Option<Stmt>)
    | WhileStmt(cond: Option<Expr>, body: Option<Stmt>)
    | Block(stmts: seq<Stmt>)
    | UnsupportedStmt

  datatype Param = Param(name: string, declType: string)

  /** `declares64` is the verdict of flowDeclaresUnlowerable64, which is not modelled. */
  datatype Flow = Flow(declares64: bool, params: seq<Param>, body: Option<seq<Stmt>>)

  function ParamNames(params: seq<Param>): (names: seq<string>)
    ensures |names| == |params|
    ensures forall i :: 0 <= i < |params| ==> names[i] == params[i].name
  {
    seq(|params|, i requires 0 <= i < |params| => params[i].name)
  }
}
