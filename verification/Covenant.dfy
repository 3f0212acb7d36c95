/**
The covenant evaluator of forge/src/covenant_eval.rs. The source computes on `i128`; what an
out-of-range result does depends on the build, so evaluation takes a mode: `Checked` aborts,
`Wrapping` wraps, and `Exact` is the unbounded reference the other two are compared with.
 */
module Covenant {
  import opened Ast
  import opened Bits

  datatype Arith = Exact | Checked | Wrapping

  datatype Value = IntV(n: int) | BoolV(b: bool)

  /** `Overflow` is the abort of a checked build; the others are the source's error variants. */
  datatype EvalError = Unsupported | Unbound(name: string) | TypeMismatch | Trap | Overflow

  datatype Outcome<+T> = Ok(value: T) | Err(error: EvalError) {
    predicate IsFailure() { Err? }

    function PropagateFailure<U>(): Outcome<U>
      requires Err?
    {
      Err(error)
    }

    function Extract(): T
      requires Ok?
    {
      value
    }
  }

  type Env = map<string, Value>

  // ---------- i128 arithmetic ----------

  const LIMIT: int := 0x8000_0000_0000_0000_0000_0000_0000_0000

  predicate InI128(n: int) {
    -LIMIT <= n < LIMIT
  }

  function Wrap(n: int): (r: int)
    ensures InI128(r)
    ensures InI128(n) ==> r == n
  {
    (n + LIMIT) % (2 * LIMIT) - LIMIT
  }

  /** The result of `+`, `-` or `*`. */
  function Fit(m: Arith, n: int): Outcome<int> {
    match m
    case Exact => Ok(n)
    case Checked => if InI128(n) then Ok(n) else Err(Overflow)
    case Wrapping => Ok(Wrap(n))
  }

  /** Division that rounds toward zero. */
  function TruncDiv(a: int, b: int): int
    requires b != 0
  {
    if a >= 0 then a / b else -((-a) / b)
  }

  function TruncRem(a: int, b: int): int
    requires b != 0
  {
    a - b * TruncDiv(a, b)
  }

  /** The one overflowing division, `i128::MIN / -1`, aborts in every build. */
  predicate DivOverflows(m: Arith, a: int, b: int) {
    m != Exact && a == -LIMIT && b == -1
  }

  function AsInt(v: Value): Outcome<int> {
    match v case IntV(n) => Ok(n) case BoolV(_) => Err(TypeMismatch)
  }

  function AsBool(v: Value): Outcome<bool> {
    match v case BoolV(b) => Ok(b) case IntV(_) => Err(TypeMismatch)
  }

  function ValueEq(l: Value, r: Value): Outcome<bool> {
    match (l, r)
    case (IntV(a), IntV(b)) => Ok(a == b)
    case (BoolV(a), BoolV(b)) => Ok(a == b)
    case _ => Err(TypeMismatch)
  }

  function IntResult(o: Outcome<int>): Outcome<Value> {
    match o case Ok(n) => Ok(IntV(n)) case Err(e) => Err(e)
  }

  predicate IsLogical(op: BinOp) {
    op.And? || op.Or?
  }

  /** The operators on two integers. */
  function OnInts(m: Arith, op: BinOp, a: int, b: int): Outcome<Value> {
    match op
    case Add => IntResult(Fit(m, a + b))
    case Sub => IntResult(Fit(m, a - b))
    case Mul => IntResult(Fit(m, a * b))
    case Div =>
      if b == 0 then Err(Trap) else if DivOverflows(m, a, b) then Err(Overflow) else Ok(IntV(TruncDiv(a, b)))
    case Rem =>
      if b == 0 then Err(Trap) else if DivOverflows(m, a, b) then Err(Overflow) else Ok(IntV(TruncRem(a, b)))
    case Shl =>
      if !(0 <= b < 128) then Err(Trap)
      else Ok(IntV(if m == Exact then a * Pow2(b) else Wrap(a * Pow2(b))))
    case Shr => if !(0 <= b < 128) then Err(Trap) else Ok(IntV(a / Pow2(b)))
    case BitAnd => Ok(IntV(Bitwise(AndBit, a, b)))
    case BitOr => Ok(IntV(Bitwise(OrBit, a, b)))
    case BitXor => Ok(IntV(Bitwise(XorBit, a, b)))
    case Lt => Ok(BoolV(a < b))
    case Le => Ok(BoolV(a <= b))
    case Gt => Ok(BoolV(a > b))
    case Ge => Ok(BoolV(a >= b))
    case _ => Err(Unsupported)
  }

  /** Every operator but the short-circuiting connectives. */
  function OnValues(m: Arith, op: BinOp, l: Value, r: Value): Outcome<Value> {
    if op.Eq? then var e :- ValueEq(l, r); Ok(BoolV(e))
    else if op.Ne? then var e :- ValueEq(l, r); Ok(BoolV(!e))
    else var a :- AsInt(l); var b :- AsInt(r); OnInts(m, op, a, b)
  }

  /** The width of an integer type. */
  function WidthOf(p: PrimType): Option<nat> {
    match p
    case U8 => Some(8)
    case U16 => Some(16)
    case U32 => Some(32)
    case U64 => Some(64)
    case Usize => Some(64)
    case Bool => None
  }

  function CastTo(ty: Type, n: int): Outcome<Value> {
    match ty
    case NonScalar => Err(Unsupported)
    case Prim(p) =>
      match WidthOf(p)
      case Some(w) => Ok(IntV(n % Pow2(w)))
      case None => Err(TypeMismatch)
  }

  // ---------- Expressions, blocks and statements ----------

  function EvalExpr(m: Arith, e: Expr, env: Env): Outcome<Value>
    decreases e
  {
    match e
    case IntLit(n) => Ok(IntV(if m == Exact then n else Wrap(n)))
    case BoolLit(b) => Ok(BoolV(b))
    case Path(segments) =>
      if |segments| != 1 then Err(Unsupported)
      else if segments[0] in env then Ok(env[segments[0]])
      else Err(Unbound(segments[0]))
    case Not(operand) =>
      var v :- EvalExpr(m, operand, env);
      (match v case BoolV(b) => Ok(BoolV(!b)) case IntV(n) => Ok(IntV(-n - 1)))
    case Binary(op, lhs, rhs) =>
      var l :- EvalExpr(m, lhs, env);
      if op.And? then
        var a :- AsBool(l);
        if !a then Ok(BoolV(false)) else var r :- EvalExpr(m, rhs, env); var b :- AsBool(r); Ok(BoolV(b))
      else if op.Or? then
        var a :- AsBool(l);
        if a then Ok(BoolV(true)) else var r :- EvalExpr(m, rhs, env); var b :- AsBool(r); Ok(BoolV(b))
      else
        var r :- EvalExpr(m, rhs, env);
        OnValues(m, op, l, r)
    case If(cond, thn, els) =>
      var c :- EvalExpr(m, cond, env);
      var b :- AsBool(c);
      if b then EvalBlock(m, thn, env) else EvalBlock(m, els, env)
    case Cast(operand, ty) =>
      var v :- EvalExpr(m, operand, env);
      var n :- AsInt(v);
      CastTo(ty, n)
    case _ => Err(Unsupported)
  }

  /** Where a statement stream leaves the block: an early result, the environment, the `let mut` names. */
  datatype Flow = Flow(returned: Option<Value>, env: Env, mutable: set<string>)

  function EvalBlock(m: Arith, b: Block, env: Env): Outcome<Value>
    decreases b
  {
    var flow :- EvalStmts(m, b.stmts, Flow(None, env, {}));
    match flow.returned
    case Some(v) => Ok(v)
    case None =>
      match b.tail
      case Some(e) => EvalExpr(m, e, flow.env)
      case None => Err(TypeMismatch)
  }

  /** One statement; the branches of a statement-`if` run in the enclosing environment. */
  function EvalStmt(m: Arith, s: Stmt, flow: Flow): Outcome<Flow>
    decreases s
  {
    match s
    case Let(mutable, name, init) =>
      var v :- EvalExpr(m, init, flow.env);
      Ok(Flow(None, flow.env[name := v], if mutable then flow.mutable + {name} else flow.mutable - {name}))
    case Assign(target, value) =>
      if !(target.Path? && |target.segments| == 1) then Err(Unsupported)
      else if target.segments[0] !in flow.mutable then Err(Unsupported)
      else
        var v :- EvalExpr(m, value, flow.env);
        Ok(flow.(env := flow.env[target.segments[0] := v]))
    case Return(result) =>
      (match result
       case None => Err(TypeMismatch)
       case Some(e) => var v :- EvalExpr(m, e, flow.env); Ok(flow.(returned := Some(v))))
    case IfStmt(cond, thn, els) =>
      var c :- EvalExpr(m, cond, flow.env);
      var b :- AsBool(c);
      if b then EvalStmts(m, thn.stmts, flow)
      else (match els case Some(block) => EvalStmts(m, block.stmts, flow) case None => Ok(flow))
    case ExprStmt(_) => Ok(flow)
    case _ => Err(Unsupported)
  }

  function EvalStmts(m: Arith, stmts: seq<Stmt>, flow: Flow): Outcome<Flow>
    decreases stmts
  {
    if stmts == [] || flow.returned.Some? then Ok(flow)
    else
      var next :- EvalStmt(m, stmts[0], flow);
      EvalStmts(m, stmts[1..], next)
  }

  // ---------- The statement loop ----------

  lemma StmtsStop(m: Arith, stmts: seq<Stmt>, flow: Flow)
    requires flow.returned.Some?
    ensures EvalStmts(m, stmts, flow) == Ok(flow)
  {
  }

  /** The source's loop over the statements, threading one environment and one set of mutable names. */
  method RunStmts(m: Arith, stmts: seq<Stmt>, env0: Env, mutable0: set<string>) returns (r: Outcome<Flow>)
    ensures r == EvalStmts(m, stmts, Flow(None, env0, mutable0))
    decreases stmts
  {
    var env, mutable := env0, mutable0;
    for i := 0 to |stmts|
      invariant EvalStmts(m, stmts, Flow(None, env0, mutable0)) == EvalStmts(m, stmts[i..], Flow(None, env, mutable))
    {
      var stmt := stmts[i];
      assert stmts[i..][0] == stmt && stmts[i..][1..] == stmts[i + 1..];
      match stmt
      case Let(isMut, name, init) =>
        var v := EvalExpr(m, init, env);
        if v.Err? { return Err(v.error); }
        env := env[name := v.value];
        mutable := if isMut then mutable + {name} else mutable - {name};
      case Assign(target, value) =>
        if !(target.Path? && |target.segments| == 1) || target.segments[0] !in mutable { return Err(Unsupported); }
        var v := EvalExpr(m, value, env);
        if v.Err? { return Err(v.error); }
        env := env[target.segments[0] := v.value];
      case Return(result) =>
        if result.None? { return Err(TypeMismatch); }
        var v := EvalExpr(m, result.value, env);
        if v.Err? { return Err(v.error); }
        StmtsStop(m, stmts[i + 1..], Flow(Some(v.value), env, mutable));
        return Ok(Flow(Some(v.value), env, mutable));
      case IfStmt(_, _, _) =>
        var branch := RunBranch(m, stmt, env, mutable);
        if branch.Err? { return branch; }
        env, mutable := branch.value.env, branch.value.mutable;
        if branch.value.returned.Some? {
          StmtsStop(m, stmts[i + 1..], branch.value);
          return branch;
        }
      case ExprStmt(_) =>
      case Loop(_, _, _, _) => return Err(Unsupported);
      case Break => return Err(Unsupported);
      case Continue => return Err(Unsupported);
    }
    r := Ok(Flow(None, env, mutable));
  }

  /** A statement-`if`: the taken branch shares the enclosing environment. */
  method RunBranch(m: Arith, s: Stmt, env: Env, mutable: set<string>) returns (branch: Outcome<Flow>)
    requires s.IfStmt?
    ensures branch == EvalStmt(m, s, Flow(None, env, mutable))
    decreases s
  {
    var c := EvalExpr(m, s.cond, env);
    if c.Err? { return Err(c.error); }
    if c.value.IntV? { return Err(TypeMismatch); }
    if c.value.b {
      branch := RunStmts(m, s.thn.stmts, env, mutable);
    } else if s.els.Some? {
      branch := RunStmts(m, s.els.value.stmts, env, mutable);
    } else {
      branch := Ok(Flow(None, env, mutable));
    }
  }
}
