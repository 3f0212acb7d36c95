/**
When the i128 arithmetic of the covenant evaluator is exact. A bound computed over a body, through its
bindings, assignments, branches and returns, dominates the magnitude of every subexpression; below 2^127
everywhere, no operation overflows and all three arithmetic modes agree.
 */
module CovenantBounds {
  import opened Ast
  import opened Bits
  import opened Covenant

  function Max(a: nat, b: nat): nat {
    if a < b then b else a
  }

  function BitLen(n: nat): (k: nat)
    ensures n < Pow2(k)
  {
    if n == 0 then 0 else 1 + BitLen(n / 2)
  }

  function Times(a: nat, b: nat): nat {
    a * b
  }

  type Bounds = map<string, nat>

  /** The bound of an operator from the bounds `l` and `r` of its operands; `rhs` is the right operand itself. */
  function OpBound(op: BinOp, l: nat, r: nat, rhs: Expr): nat {
    match op
    case Add => l + r
    case Sub => l + r
    case Mul => Times(l, r)
    case Div => l
    case Rem => l
    case Shl => if rhs.IntLit? && rhs.value < 128 then Times(l, Pow2(rhs.value)) else LIMIT
    case Shr => l
    case BitAnd => Pow2(BitLen(Max(l, r)))
    case BitOr => Pow2(BitLen(Max(l, r)))
    case BitXor => Pow2(BitLen(Max(l, r)))
    case _ => 0
  }

  /** An upper bound on the magnitude of an integer expression, from bounds on its variables. */
  function Bound(e: Expr, vars: Bounds): nat
    decreases e
  {
    match e
    case IntLit(n) => n
    case Path(segments) => if |segments| == 1 && segments[0] in vars then vars[segments[0]] else 0
    case Not(operand) => Bound(operand, vars) + 1
    case Binary(op, lhs, rhs) => OpBound(op, Bound(lhs, vars), Bound(rhs, vars), rhs)
    case If(_, thn, els) => Max(BlockBound(thn, vars), BlockBound(els, vars))
    case Cast(_, ty) => if ty.Prim? && WidthOf(ty.prim).Some? then Pow2(WidthOf(ty.prim).value) - 1 else 0
    case _ => 0
  }

  /** The bounds of the names after a branch that may or may not have run. */
  function Join(a: Bounds, b: Bounds): Bounds {
    map x | x in a.Keys + b.Keys :: if x !in b then a[x] else if x !in a then b[x] else Max(a[x], b[x])
  }

  /** The bounds of the names after a statement. */
  function AfterStmt(s: Stmt, vars: Bounds): Bounds
    decreases s
  {
    match s
    case Let(_, name, init) => vars[name := Bound(init, vars)]
    case Assign(target, value) =>
      if target.Path? && |target.segments| == 1 then vars[target.segments[0] := Bound(value, vars)] else vars
    case IfStmt(_, thn, els) =>
      Join(AfterStmts(thn.stmts, vars), match els case Some(b) => AfterStmts(b.stmts, vars) case None => vars)
    case _ => vars
  }

  function AfterStmts(stmts: seq<Stmt>, vars: Bounds): Bounds
    decreases stmts
  {
    if stmts == [] then vars else AfterStmts(stmts[1..], AfterStmt(stmts[0], vars))
  }

  /** An upper bound on what a statement returns early. */
  function ReturnBound(s: Stmt, vars: Bounds): nat
    decreases s
  {
    match s
    case Return(result) => (match result case Some(e) => Bound(e, vars) case None => 0)
    case IfStmt(_, thn, els) =>
      Max(ReturnsBound(thn.stmts, vars), match els case Some(b) => ReturnsBound(b.stmts, vars) case None => 0)
    case _ => 0
  }

  function ReturnsBound(stmts: seq<Stmt>, vars: Bounds): nat
    decreases stmts
  {
    if stmts == [] then 0
    else Max(ReturnBound(stmts[0], vars), ReturnsBound(stmts[1..], AfterStmt(stmts[0], vars)))
  }

  function BlockBound(b: Block, vars: Bounds): nat
    decreases b
  {
    Max(ReturnsBound(b.stmts, vars),
        match b.tail case Some(e) => Bound(e, AfterStmts(b.stmts, vars)) case None => 0)
  }

  /** Every subexpression's bound is below 2^127. */
  predicate Bounded(e: Expr, vars: Bounds)
    decreases e
  {
    && Bound(e, vars) < LIMIT
    && match e
       case Not(operand) => Bounded(operand, vars)
       case Binary(_, lhs, rhs) => Bounded(lhs, vars) && Bounded(rhs, vars)
       case If(cond, thn, els) => Bounded(cond, vars) && BoundedBlock(thn, vars) && BoundedBlock(els, vars)
       case Cast(operand, _) => Bounded(operand, vars)
       case _ => true
  }

  predicate BoundedStmt(s: Stmt, vars: Bounds)
    decreases s
  {
    match s
    case Let(_, _, init) => Bounded(init, vars)
    case Assign(_, value) => Bounded(value, vars)
    case Return(result) => (match result case Some(e) => Bounded(e, vars) case None => true)
    case IfStmt(cond, thn, els) =>
      && Bounded(cond, vars) && BoundedStmts(thn.stmts, vars)
      && (match els case Some(b) => BoundedStmts(b.stmts, vars) case None => true)
    case _ => true
  }

  predicate BoundedStmts(stmts: seq<Stmt>, vars: Bounds)
    decreases stmts
  {
    stmts == [] || (BoundedStmt(stmts[0], vars) && BoundedStmts(stmts[1..], AfterStmt(stmts[0], vars)))
  }

  predicate BoundedBlock(b: Block, vars: Bounds)
    decreases b
  {
    && BoundedStmts(b.stmts, vars)
    && match b.tail case Some(e) => Bounded(e, AfterStmts(b.stmts, vars)) case None => true
  }

  ghost predicate Within(env: Env, vars: Bounds) {
    forall x :: x in env && env[x].IntV? ==> x in vars && Abs(env[x].n) <= vars[x]
  }

  /** The integer result, if there is one, is at most `bound` in magnitude. */
  predicate AtMost(r: Outcome<Value>, bound: nat) {
    r.Ok? && r.value.IntV? ==> Abs(r.value.n) <= bound
  }

  // ---------- Bounds of the operators ----------

  predicate FitsSigned(a: int, k: nat) {
    a < Pow2(k) && -a <= Pow2(k)
  }

  /** Two's-complement operands of `k` bits and a sign give a result of that size. */
  lemma {:induction false} BitwiseSigned(op: BitOp, a: int, b: int, k: nat)
    requires FitsSigned(a, k) && FitsSigned(b, k)
    ensures FitsSigned(Bitwise(op, a, b), k)
    decreases k
  {
    if k > 0 {
      BitwiseStep(op, a, b);
      BitwiseSigned(op, a / 2, b / 2, k - 1);
    }
  }

  lemma BitwiseBound(op: BitOp, a: int, b: int, l: nat, r: nat)
    requires Abs(a) <= l && Abs(b) <= r
    ensures Abs(Bitwise(op, a, b)) <= Pow2(BitLen(Max(l, r)))
  {
    BitwiseSigned(op, a, b, BitLen(Max(l, r)));
  }

  lemma MulBound(a: int, b: int, l: nat, r: nat)
    requires Abs(a) <= l && Abs(b) <= r
    ensures Abs(a * b) <= l * r
  {
    var p, q := Abs(a), Abs(b);
    assert Abs(a * b) == p * q;
    assert p * q <= l * q <= l * r;
  }

  lemma NegativeDiv(a: nat, b: int)
    requires b < 0
    ensures a / b == -(a / (-b))
  {
  }

  lemma DivBound(a: int, b: int)
    requires b != 0
    ensures Abs(TruncDiv(a, b)) <= Abs(a)
  {
    if b > 0 {
      PositiveDiv(Abs(a), b);
    } else {
      NegativeDiv(Abs(a), b);
      PositiveDiv(Abs(a), -b);
    }
  }

  /** The remainder has the sign of the dividend and is no larger. */
  lemma RemBound(a: int, b: int)
    requires b != 0
    ensures Abs(TruncRem(a, b)) <= Abs(a)
  {
    if b < 0 {
      NegativeDiv(Abs(a), b);
    }
    var d := Abs(b);
    var q, r := Abs(a) / d, Abs(a) % d;
    assert Abs(a) == d * q + r && r >= 0;
    assert d * q >= 0;
    TruncRemParts(a, b, q);
  }

  lemma TruncRemParts(a: int, b: int, q: int)
    requires b != 0 && q == Abs(a) / Abs(b)
    ensures TruncRem(a, b) == if a >= 0 then a - Abs(b) * q else a + Abs(b) * q
  {
    if b < 0 {
      NegativeDiv(Abs(a), b);
      assert b * -q == Abs(b) * q;
    }
  }

  lemma ShrBound(a: int, k: nat)
    ensures Abs(a / Pow2(k)) <= Abs(a)
  {
    if a >= 0 {
      PositiveDiv(a, Pow2(k));
    } else {
      NegativeFloor(a, Pow2(k));
    }
  }

  lemma ShlBound(a: int, l: nat, k: nat)
    requires Abs(a) <= l
    ensures Abs(a * Pow2(k)) <= l * Pow2(k)
  {
    MulBound(a, Pow2(k), l, Pow2(k));
  }

  /** One operator: if the bound is in range the modes agree, and the bound holds. */
  lemma OpBounded(m: Arith, op: BinOp, a: int, b: int, l: nat, r: nat, rhs: Expr)
    requires OpBound(op, l, r, rhs) < LIMIT && l < LIMIT
    requires Abs(a) <= l && Abs(b) <= r && (rhs.IntLit? ==> b == rhs.value)
    ensures OnInts(m, op, a, b) == OnInts(Exact, op, a, b)
    ensures AtMost(OnInts(Exact, op, a, b), OpBound(op, l, r, rhs))
  {
    match op
    case Mul => MulBound(a, b, l, r);
    case Div => if b != 0 { DivBound(a, b); }
    case Rem => if b != 0 { RemBound(a, b); }
    case Shl => if 0 <= b < 128 { ShlBound(a, l, b); }
    case Shr => if 0 <= b < 128 { ShrBound(a, b); }
    case BitAnd => BitwiseBound(AndBit, a, b, l, r);
    case BitOr => BitwiseBound(OrBit, a, b, l, r);
    case BitXor => BitwiseBound(XorBit, a, b, l, r);
    case _ =>
  }

  // ---------- The theorem ----------

  /** The evaluation does not depend on the build and stays within the bound. */
  ghost predicate ExactWithin(m: Arith, e: Expr, vars: Bounds, env: Env) {
    EvalExpr(m, e, env) == EvalExpr(Exact, e, env) && AtMost(EvalExpr(Exact, e, env), Bound(e, vars))
  }

  /** With every bound in range the build does not matter: no abort, no wrap, the exact result. */
  lemma {:induction false} BoundedIsExact(m: Arith, e: Expr, vars: Bounds, env: Env)
    requires Bounded(e, vars) && Within(env, vars)
    ensures ExactWithin(m, e, vars, env)
    decreases e
  {
    match e
    case Not(operand) =>
      BoundedIsExact(m, operand, vars, env);
      NotIsExact(m, e, vars, env);
    case Binary(op, lhs, rhs) =>
      BoundedIsExact(m, lhs, vars, env);
      BoundedIsExact(m, rhs, vars, env);
      BinaryIsExact(m, e, vars, env);
    case If(cond, thn, els) =>
      BoundedIsExact(m, cond, vars, env);
      BodyIsExact(m, thn, vars, env);
      BodyIsExact(m, els, vars, env);
      ChoiceIsExact(m, e, vars, env);
    case Cast(operand, ty) =>
      BoundedIsExact(m, operand, vars, env);
      CastIsExact(m, e, vars, env);
    case _ => LeafIsExact(m, e, vars, env);
  }

  lemma NotIsExact(m: Arith, e: Expr, vars: Bounds, env: Env)
    requires e.Not? && Bounded(e, vars) && ExactWithin(m, e.operand, vars, env)
    ensures ExactWithin(m, e, vars, env)
  {
  }

  lemma CastIsExact(m: Arith, e: Expr, vars: Bounds, env: Env)
    requires e.Cast? && Bounded(e, vars) && ExactWithin(m, e.operand, vars, env)
    ensures ExactWithin(m, e, vars, env)
  {
  }

  lemma ChoiceIsExact(m: Arith, e: Expr, vars: Bounds, env: Env)
    requires e.If? && Bounded(e, vars) && ExactWithin(m, e.cond, vars, env)
    requires BlockExact(m, e.thn, vars, env) && BlockExact(m, e.els, vars, env)
    ensures ExactWithin(m, e, vars, env)
  {
  }

  lemma LeafIsExact(m: Arith, e: Expr, vars: Bounds, env: Env)
    requires !e.Not? && !e.Binary? && !e.If? && !e.Cast? && Bounded(e, vars) && Within(env, vars)
    ensures ExactWithin(m, e, vars, env)
  {
  }

  lemma BinaryIsExact(m: Arith, e: Expr, vars: Bounds, env: Env)
    requires e.Binary? && Bounded(e, vars)
    requires ExactWithin(m, e.lhs, vars, env) && ExactWithin(m, e.rhs, vars, env)
    ensures ExactWithin(m, e, vars, env)
  {
    if IsLogical(e.op) {
      LogicalIsExact(m, e, vars, env);
    } else {
      OperatorIsExact(m, e, vars, env);
    }
  }

  lemma LogicalIsExact(m: Arith, e: Expr, vars: Bounds, env: Env)
    requires e.Binary? && IsLogical(e.op) && ExactWithin(m, e.lhs, vars, env) && ExactWithin(m, e.rhs, vars, env)
    ensures ExactWithin(m, e, vars, env)
  {
  }

  lemma OperatorIsExact(m: Arith, e: Expr, vars: Bounds, env: Env)
    requires e.Binary? && !IsLogical(e.op) && Bounded(e, vars)
    requires ExactWithin(m, e.lhs, vars, env) && ExactWithin(m, e.rhs, vars, env)
    ensures ExactWithin(m, e, vars, env)
  {
    var l, r := EvalExpr(Exact, e.lhs, env), EvalExpr(Exact, e.rhs, env);
    if l.Ok? && r.Ok? && l.value.IntV? && r.value.IntV? {
      assert Bounded(e.lhs, vars);
      LiteralOperand(e.rhs, env);
      OpBounded(m, e.op, l.value.n, r.value.n, Bound(e.lhs, vars), Bound(e.rhs, vars), e.rhs);
    }
  }

  lemma LiteralOperand(e: Expr, env: Env)
    ensures e.IntLit? ==> EvalExpr(Exact, e, env) == Ok(IntV(e.value))
  {
  }

  // ---------- Statements and bodies ----------

  ghost predicate BlockExact(m: Arith, b: Block, vars: Bounds, env: Env) {
    EvalBlock(m, b, env) == EvalBlock(Exact, b, env) && AtMost(EvalBlock(Exact, b, env), BlockBound(b, vars))
  }

  /** Both builds end a list alike: with a bounded early result, or with the names within their bounds. */
  ghost predicate FlowExact(r: Outcome<Flow>, exact: Outcome<Flow>, early: nat, vars: Bounds) {
    && r == exact
    && (exact.Ok? && exact.value.returned.Some? ==> AtMost(Ok(exact.value.returned.value), early))
    && (exact.Ok? && exact.value.returned.None? ==> Within(exact.value.env, vars))
  }

  lemma FlowWeakens(r: Outcome<Flow>, exact: Outcome<Flow>, early: nat, vars: Bounds, early': nat, vars': Bounds)
    requires FlowExact(r, exact, early, vars) && early <= early'
    requires forall x :: x in vars ==> x in vars' && vars[x] <= vars'[x]
    ensures FlowExact(r, exact, early', vars')
  {
  }

  lemma {:induction false} StmtIsExact(m: Arith, s: Stmt, vars: Bounds, flow: Flow)
    requires BoundedStmt(s, vars) && Within(flow.env, vars) && flow.returned.None?
    ensures FlowExact(EvalStmt(m, s, flow), EvalStmt(Exact, s, flow), ReturnBound(s, vars), AfterStmt(s, vars))
    decreases s
  {
    match s
    case Let(_, _, init) => BoundedIsExact(m, init, vars, flow.env);
    case Assign(_, value) => BoundedIsExact(m, value, vars, flow.env);
    case Return(result) =>
      if result.Some? {
        BoundedIsExact(m, result.value, vars, flow.env);
      }
    case IfStmt(cond, thn, els) =>
      BoundedIsExact(m, cond, vars, flow.env);
      StmtsAreExact(m, thn.stmts, vars, flow);
      FlowWeakens(EvalStmts(m, thn.stmts, flow), EvalStmts(Exact, thn.stmts, flow),
                  ReturnsBound(thn.stmts, vars), AfterStmts(thn.stmts, vars), ReturnBound(s, vars), AfterStmt(s, vars));
      if els.Some? {
        var b := els.value;
        StmtsAreExact(m, b.stmts, vars, flow);
        FlowWeakens(EvalStmts(m, b.stmts, flow), EvalStmts(Exact, b.stmts, flow),
                    ReturnsBound(b.stmts, vars), AfterStmts(b.stmts, vars), ReturnBound(s, vars), AfterStmt(s, vars));
      } else {
        FlowWeakens(Ok(flow), Ok(flow), 0, vars, ReturnBound(s, vars), AfterStmt(s, vars));
      }
    case _ =>
  }

  lemma {:induction false} StmtsAreExact(m: Arith, stmts: seq<Stmt>, vars: Bounds, flow: Flow)
    requires BoundedStmts(stmts, vars) && Within(flow.env, vars) && flow.returned.None?
    ensures FlowExact(EvalStmts(m, stmts, flow), EvalStmts(Exact, stmts, flow),
                      ReturnsBound(stmts, vars), AfterStmts(stmts, vars))
    decreases stmts
  {
    if stmts != [] {
      StmtIsExact(m, stmts[0], vars, flow);
      var next := EvalStmt(Exact, stmts[0], flow);
      if next.Ok? && next.value.returned.None? {
        StmtsAreExact(m, stmts[1..], AfterStmt(stmts[0], vars), next.value);
      }
    }
  }

  /**
  Whole bodies: with every bound in range, through bindings, assignments, branches and early returns, every
  build computes the exact result, and it is within the bound of the body.
   */
  lemma {:induction false} BodyIsExact(m: Arith, b: Block, vars: Bounds, env: Env)
    requires BoundedBlock(b, vars) && Within(env, vars)
    ensures EvalBlock(m, b, env) == EvalBlock(Exact, b, env)
    ensures AtMost(EvalBlock(Exact, b, env), BlockBound(b, vars))
    decreases b
  {
    StmtsAreExact(m, b.stmts, vars, Flow(None, env, {}));
    var r := EvalStmts(Exact, b.stmts, Flow(None, env, {}));
    if r.Ok? && r.value.returned.None? && b.tail.Some? {
      BoundedIsExact(m, b.tail.value, AfterStmts(b.stmts, vars), r.value.env);
    }
  }

  // ---------- Sums ----------

  /** An expression of `+` and `-` over literals and variables. */
  predicate IsSum(e: Expr) {
    match e
    case IntLit(_) => true
    case Path(segments) => |segments| == 1
    case Binary(op, lhs, rhs) => (op.Add? || op.Sub?) && IsSum(lhs) && IsSum(rhs)
    case _ => false
  }

  function Leaves(e: Expr): nat {
    match e
    case Binary(_, lhs, rhs) => Leaves(lhs) + Leaves(rhs)
    case _ => 1
  }

  predicate LeavesBelow(e: Expr, vars: Bounds, top: nat) {
    match e
    case IntLit(n) => n < top
    case Path(segments) => |segments| == 1 && segments[0] in vars ==> vars[segments[0]] < top
    case Binary(_, lhs, rhs) => LeavesBelow(lhs, vars, top) && LeavesBelow(rhs, vars, top)
    case _ => true
  }

  lemma {:induction false} SumBound(e: Expr, vars: Bounds, top: nat)
    requires IsSum(e) && LeavesBelow(e, vars, top) && top > 0
    ensures Bound(e, vars) <= Leaves(e) * (top - 1)
  {
    if e.Binary? {
      SumBound(e.lhs, vars, top);
      SumBound(e.rhs, vars, top);
      MulDistributes(Leaves(e.lhs), Leaves(e.rhs), top - 1);
    }
  }

  /** A sum of at most 2^63 terms below 2^64 stays in range. */
  lemma {:induction false} SumsAreBounded(e: Expr, vars: Bounds)
    requires IsSum(e) && LeavesBelow(e, vars, 0x1_0000_0000_0000_0000) && Leaves(e) <= 0x8000_0000_0000_0000
    ensures Bounded(e, vars)
  {
    var top := 0x1_0000_0000_0000_0000;
    SumBound(e, vars, top);
    ScaledLimit(Leaves(e));
    if e.Binary? {
      SumsAreBounded(e.lhs, vars);
      SumsAreBounded(e.rhs, vars);
    }
  }

  lemma ScaledLimit(n: nat)
    requires n <= 0x8000_0000_0000_0000
    ensures n * 0xFFFF_FFFF_FFFF_FFFF < LIMIT
  {
    assert n * 0xFFFF_FFFF_FFFF_FFFF <= 0x8000_0000_0000_0000 * 0xFFFF_FFFF_FFFF_FFFF;
  }

  lemma ProductIsNatural(x: int, y: int)
    requires x >= 0 && y >= 0
    ensures x * y >= 0
  {
  }

  /** The product of two 64-bit values overflows exactly when it reaches 2^127, as the largest values do. */
  lemma ProductOverflows(env: Env, x: int, y: int)
    requires 0 <= x < 0x1_0000_0000_0000_0000 && 0 <= y < 0x1_0000_0000_0000_0000
    requires "x" in env && env["x"] == IntV(x) && "y" in env && env["y"] == IntV(y)
    ensures EvalExpr(Checked, Binary(Mul, Path(["x"]), Path(["y"])), env) == Err(Overflow) <==> x * y >= LIMIT
    ensures 0xFFFF_FFFF_FFFF_FFFF * 0xFFFF_FFFF_FFFF_FFFF >= LIMIT
  {
    ProductIsNatural(x, y);
    assert EvalExpr(Checked, Path(["x"]), env) == Ok(IntV(x));
    assert EvalExpr(Checked, Path(["y"]), env) == Ok(IntV(y));
  }
}
