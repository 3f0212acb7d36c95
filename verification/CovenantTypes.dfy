/**
Types for covenant bodies. A body that checks evaluates to a value of its type, traps, or (in a
checked build) aborts on overflow; it is never refused as ill-typed, unbound or unsupported.
 */
module CovenantTypes {
  import opened Ast
  import opened Covenant
  import CovenantScope

  datatype Ty = IntTy | BoolTy

  type TyEnv = map<string, Ty>

  /** What checking knows at a program point: the names in scope and the assignable ones. */
  datatype Ctx = Ctx(types: TyEnv, mutable: set<string>)

  function TyOf(v: Value): Ty {
    match v case IntV(_) => IntTy case BoolV(_) => BoolTy
  }

  predicate IsArithmetic(op: BinOp) {
    op in {Add, Sub, Mul, Div, Rem, Shl, Shr, BitAnd, BitOr, BitXor}
  }

  predicate IsOrdering(op: BinOp) {
    op in {Lt, Le, Gt, Ge}
  }

  // ---------- Checking ----------

  predicate HasType(g: TyEnv, e: Expr, t: Ty)
    decreases e
  {
    match e
    case IntLit(_) => t == IntTy
    case BoolLit(_) => t == BoolTy
    case Path(segments) => |segments| == 1 && segments[0] in g && g[segments[0]] == t
    case Not(operand) => HasType(g, operand, t)
    case Binary(op, lhs, rhs) =>
      if IsArithmetic(op) then t == IntTy && HasType(g, lhs, IntTy) && HasType(g, rhs, IntTy)
      else if IsOrdering(op) then t == BoolTy && HasType(g, lhs, IntTy) && HasType(g, rhs, IntTy)
      else if IsLogical(op) then t == BoolTy && HasType(g, lhs, BoolTy) && HasType(g, rhs, BoolTy)
      else
        && t == BoolTy
        && ((HasType(g, lhs, IntTy) && HasType(g, rhs, IntTy)) || (HasType(g, lhs, BoolTy) && HasType(g, rhs, BoolTy)))
    case If(cond, thn, els) => HasType(g, cond, BoolTy) && BlockHasType(g, thn, t) && BlockHasType(g, els, t)
    case Cast(operand, ty) => t == IntTy && HasType(g, operand, IntTy) && ty.Prim? && WidthOf(ty.prim).Some?
    case _ => false
  }

  predicate OptionHasType(g: TyEnv, o: Option<Expr>, t: Ty)
    decreases o
  {
    match o case Some(e) => HasType(g, e, t) case None => false
  }

  /** A block has the type of its tail and of every `return` in its statements. */
  predicate BlockHasType(g: TyEnv, b: Block, t: Ty)
    decreases b
  {
    var c := CheckAll(Ctx(g, {}), b.stmts, t);
    c.Some? && if b.tail.Some? then OptionHasType(c.value.types, b.tail, t) else AlwaysReturns(b)
  }

  /**
  The context after a statement, or `None` when it does not check. A branch leaves the names in scope as
  they were.
   */
  function Check(c: Ctx, s: Stmt, t: Ty): Option<Ctx>
    decreases s
  {
    match s
    case Let(mutable, name, init) =>
      if HasType(c.types, init, IntTy) then Some(Bind(c, name, IntTy, mutable))
      else if HasType(c.types, init, BoolTy) then Some(Bind(c, name, BoolTy, mutable))
      else None
    case Assign(target, value) =>
      if target.Path? && |target.segments| == 1 && target.segments[0] in c.mutable && target.segments[0] in c.types
         && HasType(c.types, value, c.types[target.segments[0]])
      then Some(c) else None
    case Return(result) => if OptionHasType(c.types, result, t) then Some(c) else None
    case IfStmt(cond, thn, els) =>
      if HasType(c.types, cond, BoolTy) && BranchChecks(c, thn, t)
         && (match els case Some(b) => BranchChecks(c, b, t) case None => true)
      then Some(c) else None
    case ExprStmt(_) => Some(c)
    case _ => None
  }

  predicate BranchChecks(c: Ctx, b: Block, t: Ty)
    decreases b
  {
    match CheckAll(c, b.stmts, t)
    case Some(after) => Extends(c, after)
    case None => false
  }

  /** Every name in scope keeps its type and, if it was assignable, stays so. */
  predicate Extends(c: Ctx, after: Ctx) {
    (forall x :: x in c.types ==> x in after.types && after.types[x] == c.types[x]) && c.mutable <= after.mutable
  }

  function CheckAll(c: Ctx, stmts: seq<Stmt>, t: Ty): Option<Ctx>
    decreases stmts
  {
    if stmts == [] then Some(c)
    else
      match Check(c, stmts[0], t)
      case Some(c') => CheckAll(c', stmts[1..], t)
      case None => None
  }

  function Bind(c: Ctx, name: string, t: Ty, mutable: bool): Ctx {
    Ctx(c.types[name := t], if mutable then c.mutable + {name} else c.mutable - {name})
  }

  /** Every path through the statements ends in a `return`. */
  predicate AlwaysReturns(b: Block)
    decreases b
  {
    AnyReturns(b.stmts)
  }

  predicate StmtReturns(s: Stmt)
    decreases s
  {
    match s
    case Return(_) => true
    case IfStmt(_, thn, els) => AlwaysReturns(thn) && (match els case Some(b) => AlwaysReturns(b) case None => false)
    case _ => false
  }

  predicate AnyReturns(stmts: seq<Stmt>)
    decreases stmts
  {
    stmts != [] && (StmtReturns(stmts[0]) || AnyReturns(stmts[1..]))
  }

  // ---------- Soundness ----------

  ghost predicate EnvTyped(g: TyEnv, env: Env) {
    forall x :: x in g ==> x in env && TyOf(env[x]) == g[x]
  }

  ghost predicate FlowTyped(c: Ctx, flow: Flow) {
    EnvTyped(c.types, flow.env) && c.mutable <= flow.mutable && c.mutable <= c.types.Keys
  }

  /** A value of the type, a trap, or the abort of a checked build. */
  predicate Sound(r: Outcome<Value>, t: Ty) {
    match r
    case Ok(v) => TyOf(v) == t
    case Err(e) => e.Trap? || e.Overflow?
  }

  /** Where a checked statement (list) may leave the block. */
  ghost predicate SoundFlow(r: Outcome<Flow>, after: Option<Ctx>, t: Ty, mustReturn: bool) {
    match r
    case Err(e) => e.Trap? || e.Overflow?
    case Ok(flow) =>
      if flow.returned.Some? then TyOf(flow.returned.value) == t
      else !mustReturn && after.Some? && FlowTyped(after.value, flow)
  }

  lemma OnValuesSound(m: Arith, op: BinOp, l: Value, r: Value)
    requires !IsLogical(op)
    requires IsArithmetic(op) || IsOrdering(op) ==> l.IntV? && r.IntV?
    requires TyOf(l) == TyOf(r)
    ensures Sound(OnValues(m, op, l, r), if IsArithmetic(op) then IntTy else BoolTy)
  {
  }

  lemma {:induction false} ExprSound(m: Arith, g: TyEnv, e: Expr, t: Ty, env: Env)
    requires HasType(g, e, t) && EnvTyped(g, env)
    ensures Sound(EvalExpr(m, e, env), t)
    decreases e
  {
    match e
    case Not(operand) => ExprSound(m, g, operand, t, env);
    case Binary(op, lhs, rhs) => BinarySound(m, g, e, t, env);
    case If(cond, thn, els) =>
      ExprSound(m, g, cond, BoolTy, env);
      BlockSound(m, g, thn, t, env);
      BlockSound(m, g, els, t, env);
    case Cast(operand, ty) => ExprSound(m, g, operand, IntTy, env);
    case _ =>
  }

  lemma {:induction false} BinarySound(m: Arith, g: TyEnv, e: Expr, t: Ty, env: Env)
    requires e.Binary? && HasType(g, e, t) && EnvTyped(g, env)
    ensures Sound(EvalExpr(m, e, env), t)
    decreases e, 0
  {
    var of := if IsLogical(e.op) then BoolTy
              else if IsArithmetic(e.op) || IsOrdering(e.op)
                  || (HasType(g, e.lhs, IntTy) && HasType(g, e.rhs, IntTy)) then IntTy
              else BoolTy;
    ExprSound(m, g, e.lhs, of, env);
    ExprSound(m, g, e.rhs, of, env);
    var l, r := EvalExpr(m, e.lhs, env), EvalExpr(m, e.rhs, env);
    if l.Ok? && r.Ok? && !IsLogical(e.op) {
      OnValuesSound(m, e.op, l.value, r.value);
    }
  }

  lemma {:induction false} OptionSound(m: Arith, g: TyEnv, o: Option<Expr>, t: Ty, env: Env)
    requires OptionHasType(g, o, t) && EnvTyped(g, env)
    ensures o.Some? && Sound(EvalExpr(m, o.value, env), t)
    decreases o
  {
    if o.Some? {
      ExprSound(m, g, o.value, t, env);
    }
  }

  lemma {:induction false} BlockSound(m: Arith, g: TyEnv, b: Block, t: Ty, env: Env)
    requires BlockHasType(g, b, t) && EnvTyped(g, env)
    ensures Sound(EvalBlock(m, b, env), t)
    decreases b
  {
    var c := Ctx(g, {});
    StmtsSound(m, c, b.stmts, t, Flow(None, env, {}));
    var r := EvalStmts(m, b.stmts, Flow(None, env, {}));
    if r.Ok? && r.value.returned.None? && b.tail.Some? {
      OptionSound(m, CheckAll(c, b.stmts, t).value.types, b.tail, t, r.value.env);
    }
  }

  lemma {:induction false} StmtsSound(m: Arith, c: Ctx, stmts: seq<Stmt>, t: Ty, flow: Flow)
    requires CheckAll(c, stmts, t).Some? && FlowTyped(c, flow) && flow.returned.None?
    ensures SoundFlow(EvalStmts(m, stmts, flow), CheckAll(c, stmts, t), t, AnyReturns(stmts))
    decreases stmts
  {
    if stmts != [] {
      var c' := Check(c, stmts[0], t).value;
      StmtSound(m, c, stmts[0], t, flow);
      var r := EvalStmt(m, stmts[0], flow);
      if r.Ok? && r.value.returned.None? {
        StmtsSound(m, c', stmts[1..], t, r.value);
      }
    }
  }

  lemma {:induction false} StmtSound(m: Arith, c: Ctx, s: Stmt, t: Ty, flow: Flow)
    requires Check(c, s, t).Some? && FlowTyped(c, flow) && flow.returned.None?
    ensures SoundFlow(EvalStmt(m, s, flow), Check(c, s, t), t, StmtReturns(s))
    decreases s
  {
    match s
    case Let(mutable, name, init) =>
      ExprSound(m, c.types, init, if HasType(c.types, init, IntTy) then IntTy else BoolTy, flow.env);
    case Assign(target, value) => ExprSound(m, c.types, value, c.types[target.segments[0]], flow.env);
    case Return(result) => OptionSound(m, c.types, result, t, flow.env);
    case IfStmt(cond, thn, els) =>
      ExprSound(m, c.types, cond, BoolTy, flow.env);
      BranchSound(m, c, thn, t, flow);
      if els.Some? {
        BranchSound(m, c, els.value, t, flow);
      }
    case _ =>
  }

  lemma {:induction false} BranchSound(m: Arith, c: Ctx, b: Block, t: Ty, flow: Flow)
    requires BranchChecks(c, b, t) && FlowTyped(c, flow) && flow.returned.None?
    ensures SoundFlow(EvalStmts(m, b.stmts, flow), Some(c), t, AlwaysReturns(b))
    decreases b
  {
    StmtsSound(m, c, b.stmts, t, flow);
  }

  /** A name that the statements do not bind keeps its type and, if it was assignable, stays so. */
  lemma {:induction false} ContextKeeps(c: Ctx, stmts: seq<Stmt>, t: Ty, x: string)
    requires x in c.types && x !in CovenantScope.AllLetsOf(stmts)
    ensures var r := CheckAll(c, stmts, t);
            r.Some? ==>
              x in r.value.types && r.value.types[x] == c.types[x] && (x in c.mutable ==> x in r.value.mutable)
    decreases stmts
  {
    if stmts != [] && Check(c, stmts[0], t).Some? {
      assert x !in CovenantScope.AllLets(stmts[0]);
      ContextKeeps(Check(c, stmts[0], t).value, stmts[1..], t, x);
    }
  }

  /** A branch that binds no name in scope checks when its statements do. */
  lemma FreshBranchChecks(c: Ctx, b: Block, t: Ty)
    requires CheckAll(c, b.stmts, t).Some? && CovenantScope.AllLetsOf(b.stmts) !! c.types.Keys
             && c.mutable <= c.types.Keys
    ensures BranchChecks(c, b, t)
  {
    forall x | x in c.types
      ensures var r := CheckAll(c, b.stmts, t).value;
              x in r.types && r.types[x] == c.types[x] && (x in c.mutable ==> x in r.mutable)
    {
      ContextKeeps(c, b.stmts, t, x);
    }
  }

  /** A checked body evaluates to a value of its type or traps; it is never ill-typed, unbound or unsupported. */
  lemma TypeSoundness(m: Arith, params: TyEnv, body: Block, t: Ty, env: Env)
    requires BlockHasType(params, body, t) && EnvTyped(params, env)
    ensures var r := EvalBlock(m, body, env);
            r.Err? ==> r.error == Trap || r.error == Overflow
    ensures var r := EvalBlock(m, body, env);
            r.Ok? ==> TyOf(r.value) == t
  {
    BlockSound(m, params, body, t, env);
  }

  /**
  Rebinding at another type in a branch: `{ let x = 1; if true { let x = true; } x + 1 }` is refused as
  ill-typed.
   */
  lemma RebindingBreaksType(m: Arith, env: Env)
    ensures var thn := Block([Let(false, "x", BoolLit(true))], None);
            var body := Block([Let(false, "x", IntLit(1)), IfStmt(BoolLit(true), thn, None)],
                              Some(Binary(Add, Path(["x"]), IntLit(1))));
            EvalBlock(m, body, env) == Err(TypeMismatch)
  {
    var inner, outer := Let(false, "x", BoolLit(true)), Let(false, "x", IntLit(1));
    var branch := IfStmt(BoolLit(true), Block([inner], None), None);
    var none: set<string> := {} - {"x"};
    assert none - {"x"} == none;
    var one, two := Flow(None, env["x" := IntV(1)], none), Flow(None, env["x" := BoolV(true)], none);
    assert [inner][1..] == [] && [outer, branch][1..] == [branch] && [branch][1..] == [];
    assert EvalStmt(m, outer, Flow(None, env, {})) == Ok(one);
    assert env["x" := IntV(1)]["x" := BoolV(true)] == env["x" := BoolV(true)];
    assert EvalStmt(m, inner, one) == Ok(two);
    assert EvalStmts(m, [inner], one) == Ok(two);
    assert EvalStmt(m, branch, one) == Ok(two);
    assert EvalStmts(m, [branch], one) == Ok(two);
    assert EvalStmts(m, [outer, branch], Flow(None, env, {})) == Ok(two);
    assert EvalExpr(m, Path(["x"]), two.env) == Ok(BoolV(true));
    assert EvalExpr(m, Binary(Add, Path(["x"]), IntLit(1)), two.env) == Err(TypeMismatch);
  }
}
