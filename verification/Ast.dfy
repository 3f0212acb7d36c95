/**
The Thermite surface syntax shared by the call-closure analysis, the bit-vector lowering and the
covenant evaluator (thermite-syntax/src/ast.rs). Source spans, raw literal spellings and match
patterns carry no meaning for those three consumers and are not represented.
 */
module Ast {

  datatype Option<+T> = None | Some(value: T)

  datatype PrimType = U8 | U16 | U32 | U64 | Usize | Bool

  datatype Type = Prim(prim: PrimType) | NonScalar

  datatype BinOp =
    | Add | Sub | Mul | Div | Rem
    | Shl | Shr | BitAnd | BitOr | BitXor
    | Eq | Ne | Lt | Le | Gt | Ge
    | And | Or

  datatype IndexArg =
    | Single(at: Expr)
    | RangeTo(to: Expr)
    | RangeFrom(from: Expr)
    | Range(lo: Expr, hi: Expr)

  datatype MatchArm = MatchArm(guard: Option<Expr>, body: Expr)

  datatype FieldInit = FieldInit(name: string, value: Expr)

  datatype Expr =
    | IntLit(value: nat)
    | BoolLit(truth: bool)
    | Path(segments: seq<string>)
    | Call(callee: Expr, args: seq<Expr>)
    | MethodCall(receiver: Expr, name: string, args: seq<Expr>)
    | Field(receiver: Expr, name: string)
    | Closure(params: seq<string>, closureBody: Expr)
    | Match(scrutinee: Expr, arms: seq<MatchArm>)
    | If(cond: Expr, thn: Block, els: Block)
    | Binary(op: BinOp, lhs: Expr, rhs: Expr)
    | Not(operand: Expr)
    | Index(base: Expr, index: IndexArg)
    | Cast(operand: Expr, ty: Type)
    | Ref(mutable: bool, operand: Expr)
    | StructLit(path: seq<string>, fields: seq<FieldInit>)
    | Is(scrutinee: Expr, variant: seq<string>)
    | Deref(operand: Expr)
    | StrLit(text: string)
    | Tuple(elems: seq<Expr>)
    | TupleProj(receiver: Expr, position: nat)
    | Quantifier(universal: bool, bound: string, sort: string, domain: Expr, formula: Expr)

  datatype Stmt =
    | Let(mutable: bool, name: string, init: Expr)
    | Assign(target: Expr, value: Expr)
    | Return(result: Option<Expr>)
    | IfStmt(cond: Expr, thn: Block, els: Option<Block>)
    | Loop(invs: seq<Expr>, dec: Expr, guard: Option<Expr>, body: Block)
    | Break
    | Continue
    | ExprStmt(expr: Expr)

  datatype Block = Block(stmts: seq<Stmt>, tail: Option<Expr>)

  datatype Item =
    | Fn(name: string, boundary: bool, slag: bool, req: Expr, ens: seq<Expr>, fnDec: Option<Expr>,
         fnBody: Option<Block>)
    | SpecFn(name: string, dec: Expr, body: Block)
    | Struct(name: string, inv: Option<Expr>)
    | Enum(name: string, variants: seq<string>)
    | Forge(name: string)
}
