/**
A reference semantics in which a `return` ends the whole body wherever it stands. The evaluator ends only
the block in expression position that holds it; here is when the two agree.
 */
module CovenantReturns {
  import opened Ast
  import opened Covenant

  /** A value, a `return` on its way out of the body, or a failure. */
  datatype Exit<+T> = Val(value: T) | Ret(result: Value) | Fail(error: EvalError) {
    predicate IsFailure() { !Val? }

    function PropagateFailure<U>(): Exit<U>
      requires !Val?
    {
      if Ret? then Ret(result) else Fail(error)
    }

    function Extract(): T
      requires Val?
    {
      value
    }
  }

  function Lift<T>(o: Outcome<T>): Exit<T> {
    match o
    case Ok(v) => Val(v)
    case Err(e) => Fail(e)
  }

  // ---------- The reference ----------

  function RefExpr(m: Arith, e: Expr, env: Env): Exit<Value>
    decreases e
  {
    match e
    case Not(operand) =>
      var v :- RefExpr(m, operand, env);
      (match v case BoolV(b) => Val(BoolV(!b)) case IntV(n) => Val(IntV(-n - 1)))
    case Binary(op, lhs, rhs) =>
      var l :- RefExpr(m, lhs, env);
      if op.And? then
        var a :- Lift(AsBool(l));
        if !a then Val(BoolV(false)) else var r :- RefExpr(m, rhs, env); var b :- Lift(AsBool(r)); Val(BoolV(b))
      else if op.Or? then
        var a :- Lift(AsBool(l));
        if a then Val(BoolV(true)) else var r :- RefExpr(m, rhs, env); var b :- Lift(AsBool(r)); Val(BoolV(b))
      else
        var r :- RefExpr(m, rhs, env);
        Lift(OnValues(m, op, l, r))
    case If(cond, thn, els) =>
      var c :- RefExpr(m, cond, env);
      var b :- Lift(AsBool(c));
      if b then RefBlock(m, thn, env) else RefBlock(m, els, env)
    case Cast(operand, ty) =>
      var v :- RefExpr(m, operand, env);
      var n :- Lift(AsInt(v));
      Lift(CastTo(ty, n))
    case _ => Lift(EvalExpr(m, e, env))
  }

  /** A block in expression position: its `return` goes on outwards. */
  function RefBlock(m: Arith, b: Block, env: Env): Exit<Value>
    decreases b
  {
    var flow :- RefStmts(m, b.stmts, Flow(None, env, {}));
    match flow.returned
    case Some(v) => Ret(v)
    case None =>
      match b.tail
      case Some(e) => RefExpr(m, e, flow.env)
      case None => Fail(TypeMismatch)
  }

  function RefStmt(m: Arith, s: Stmt, flow: Flow): Exit<Flow>
    decreases s
  {
    match s
    case Let(mutable, name, init) =>
      var v :- RefExpr(m, init, flow.env);
      Val(Flow(None, flow.env[name := v], if mutable then flow.mutable + {name} else flow.mutable - {name}))
    case Assign(target, value) =>
      if !(target.Path? && |target.segments| == 1) then Fail(Unsupported)
      else if target.segments[0] !in flow.mutable then Fail(Unsupported)
      else
        var v :- RefExpr(m, value, flow.env);
        Val(flow.(env := flow.env[target.segments[0] := v]))
    case Return(result) =>
      (match result
       case None => Fail(TypeMismatch)
       case Some(e) => var v :- RefExpr(m, e, flow.env); Val(flow.(returned := Some(v))))
    case IfStmt(cond, thn, els) =>
      var c :- RefExpr(m, cond, flow.env);
      var b :- Lift(AsBool(c));
      if b then RefStmts(m, thn.stmts, flow)
      else (match els case Some(block) => RefStmts(m, block.stmts, flow) case None => Val(flow))
    case ExprStmt(_) => Val(flow)
    case _ => Fail(Unsupported)
  }

  function RefStmts(m: Arith, stmts: seq<Stmt>, flow: Flow): Exit<Flow>
    decreases stmts
  {
    if stmts == [] || flow.returned.Some? then Val(flow)
    else
      var next :- RefStmt(m, stmts[0], flow);
      RefStmts(m, stmts[1..], next)
  }

  /** The whole body, at which every `return` arrives. */
  function RefBody(m: Arith, body: Block, env: Env): Outcome<Value> {
    match RefBlock(m, body, env)
    case Val(v) => Ok(v)
    case Ret(v) => Ok(v)
    case Fail(e) => Err(e)
  }

  // ---------- Agreement when no inner `return` is taken ----------

  /** The evaluator gives what the reference gives, unless a `return` is on its way out. */
  ghost predicate Follows<T(!new)>(r: Exit<T>, o: Outcome<T>) {
    !r.Ret? ==> r == Lift(o)
  }

  ghost predicate ExprFollows(m: Arith, e: Expr, env: Env) {
    Follows(RefExpr(m, e, env), EvalExpr(m, e, env))
  }

  ghost predicate BlockFollows(m: Arith, b: Block, env: Env) {
    Follows(RefBlock(m, b, env), EvalBlock(m, b, env))
  }

  ghost predicate StmtFollows(m: Arith, s: Stmt, flow: Flow) {
    Follows(RefStmt(m, s, flow), EvalStmt(m, s, flow))
  }

  ghost predicate StmtsFollow(m: Arith, stmts: seq<Stmt>, flow: Flow) {
    Follows(RefStmts(m, stmts, flow), EvalStmts(m, stmts, flow))
  }

  lemma {:induction false} ExprAgrees(m: Arith, e: Expr, env: Env)
    ensures ExprFollows(m, e, env)
    decreases e
  {
    match e
    case Not(operand) =>
      ExprAgrees(m, operand, env);
      OperandFollows(m, e, env);
    case Binary(_, lhs, rhs) =>
      ExprAgrees(m, lhs, env);
      ExprAgrees(m, rhs, env);
      BinaryFollows(m, e, env);
    case If(cond, thn, els) =>
      ExprAgrees(m, cond, env);
      BlockAgrees(m, thn, env);
      BlockAgrees(m, els, env);
      ChoiceFollows(m, e, env);
    case Cast(operand, _) =>
      ExprAgrees(m, operand, env);
      OperandFollows(m, e, env);
    case _ => LeafStays(m, e, env);
  }

  lemma OperandFollows(m: Arith, e: Expr, env: Env)
    requires (e.Not? || e.Cast?) && ExprFollows(m, e.operand, env)
    ensures ExprFollows(m, e, env)
  {
  }

  lemma BinaryFollows(m: Arith, e: Expr, env: Env)
    requires e.Binary? && ExprFollows(m, e.lhs, env) && ExprFollows(m, e.rhs, env)
    ensures ExprFollows(m, e, env)
  {
  }

  lemma ChoiceFollows(m: Arith, e: Expr, env: Env)
    requires e.If? && ExprFollows(m, e.cond, env) && BlockFollows(m, e.thn, env) && BlockFollows(m, e.els, env)
    ensures ExprFollows(m, e, env)
  {
  }

  lemma {:induction false} BlockAgrees(m: Arith, b: Block, env: Env)
    ensures BlockFollows(m, b, env)
    decreases b
  {
    var start := Flow(None, env, {});
    StmtsAgree(m, b.stmts, start);
    TailAgrees(m, b.tail, RefStmts(m, b.stmts, start));
  }

  lemma {:induction false} TailAgrees(m: Arith, tail: Option<Expr>, r: Exit<Flow>)
    ensures tail.Some? && r.Val? ==> ExprFollows(m, tail.value, r.value.env)
    decreases tail
  {
    if tail.Some? && r.Val? {
      ExprAgrees(m, tail.value, r.value.env);
    }
  }

  lemma {:induction false} StmtAgrees(m: Arith, s: Stmt, flow: Flow)
    ensures StmtFollows(m, s, flow)
    decreases s
  {
    match s
    case Let(_, _, init) => ExprAgrees(m, init, flow.env);
    case Assign(_, value) => ExprAgrees(m, value, flow.env);
    case Return(result) => TailAgrees(m, result, Val(flow));
    case IfStmt(cond, thn, els) =>
      ExprAgrees(m, cond, flow.env);
      BranchAgrees(m, thn, flow);
      ElseAgrees(m, els, flow);
      BranchingFollows(m, s, flow);
    case _ =>
  }

  lemma {:induction false} BranchAgrees(m: Arith, b: Block, flow: Flow)
    ensures StmtsFollow(m, b.stmts, flow)
    decreases b
  {
    StmtsAgree(m, b.stmts, flow);
  }

  lemma {:induction false} ElseAgrees(m: Arith, els: Option<Block>, flow: Flow)
    ensures els.Some? ==> StmtsFollow(m, els.value.stmts, flow)
    decreases els
  {
    if els.Some? {
      BranchAgrees(m, els.value, flow);
    }
  }

  lemma BranchingFollows(m: Arith, s: Stmt, flow: Flow)
    requires s.IfStmt? && ExprFollows(m, s.cond, flow.env) && StmtsFollow(m, s.thn.stmts, flow)
    requires s.els.Some? ==> StmtsFollow(m, s.els.value.stmts, flow)
    ensures StmtFollows(m, s, flow)
  {
  }

  lemma {:induction false} StmtsAgree(m: Arith, stmts: seq<Stmt>, flow: Flow)
    ensures StmtsFollow(m, stmts, flow)
    decreases stmts
  {
    if stmts != [] && flow.returned.None? {
      StmtAgrees(m, stmts[0], flow);
      var next := RefStmt(m, stmts[0], flow);
      if next.Val? {
        StmtsAgree(m, stmts[1..], next.value);
      }
    }
  }

  /** Where a body leaves: a `return` among its own statements, or one that comes out of an expression. */
  ghost predicate TakesInnerReturn(m: Arith, body: Block, env: Env) {
    var r := RefStmts(m, body.stmts, Flow(None, env, {}));
    || r.Ret?
    || (r.Val? && r.value.returned.None? && body.tail.Some? && RefExpr(m, body.tail.value, r.value.env).Ret?)
  }

  /** A body that takes no `return` inside an expression evaluates as the reference says. */
  lemma UntakenReturnsAgree(m: Arith, body: Block, env: Env)
    requires !TakesInnerReturn(m, body, env)
    ensures EvalBlock(m, body, env) == RefBody(m, body, env)
  {
    var start := Flow(None, env, {});
    StmtsAgree(m, body.stmts, start);
    TailAgrees(m, body.tail, RefStmts(m, body.stmts, start));
  }

  // ---------- The syntactic guard ----------

  /** No block in expression position holds a `return`. */
  predicate Quiet(e: Expr)
    decreases e
  {
    match e
    case Not(operand) => Quiet(operand)
    case Binary(_, lhs, rhs) => Quiet(lhs) && Quiet(rhs)
    case If(cond, thn, els) => Quiet(cond) && Silent(thn) && Silent(els)
    case Cast(operand, _) => Quiet(operand)
    case _ => true
  }

  /** A block without any `return`. */
  predicate Silent(b: Block)
    decreases b
  {
    SilentStmts(b.stmts) && match b.tail case Some(e) => Quiet(e) case None => true
  }

  predicate SilentStmt(s: Stmt)
    decreases s
  {
    match s
    case Let(_, _, init) => Quiet(init)
    case Assign(_, value) => Quiet(value)
    case Return(_) => false
    case IfStmt(cond, thn, els) =>
      Quiet(cond) && SilentBranch(thn) && (match els case Some(block) => SilentBranch(block) case None => true)
    case _ => true
  }

  predicate SilentBranch(b: Block)
    decreases b
  {
    SilentStmts(b.stmts)
  }

  predicate SilentStmts(stmts: seq<Stmt>)
    decreases stmts
  {
    stmts == [] || (SilentStmt(stmts[0]) && SilentStmts(stmts[1..]))
  }

  /** A body may return among its own statements and in their branches, not inside an expression. */
  predicate GuardedStmt(s: Stmt)
    decreases s
  {
    match s
    case Return(result) => (match result case Some(e) => Quiet(e) case None => true)
    case IfStmt(cond, thn, els) =>
      Quiet(cond) && GuardedBranch(thn) && (match els case Some(block) => GuardedBranch(block) case None => true)
    case _ => SilentStmt(s)
  }

  predicate GuardedBranch(b: Block)
    decreases b
  {
    GuardedStmts(b.stmts)
  }

  predicate GuardedStmts(stmts: seq<Stmt>)
    decreases stmts
  {
    stmts == [] || (GuardedStmt(stmts[0]) && GuardedStmts(stmts[1..]))
  }

  predicate Guarded(body: Block) {
    GuardedStmts(body.stmts) && match body.tail case Some(e) => Quiet(e) case None => true
  }

  ghost predicate NoExit(m: Arith, e: Expr, env: Env) {
    !RefExpr(m, e, env).Ret?
  }

  ghost predicate BlockNoExit(m: Arith, b: Block, env: Env) {
    !RefBlock(m, b, env).Ret?
  }

  /** Nothing comes out, and nothing is returned that was not before. */
  ghost predicate StmtsStay(m: Arith, stmts: seq<Stmt>, flow: Flow) {
    var r := RefStmts(m, stmts, flow);
    !r.Ret? && (r.Val? && flow.returned.None? ==> r.value.returned.None?)
  }

  ghost predicate StmtStays(m: Arith, s: Stmt, flow: Flow) {
    var r := RefStmt(m, s, flow);
    !r.Ret? && (r.Val? && flow.returned.None? ==> r.value.returned.None?)
  }

  lemma {:induction false} QuietStays(m: Arith, e: Expr, env: Env)
    requires Quiet(e)
    ensures NoExit(m, e, env)
    decreases e
  {
    match e
    case Not(operand) =>
      QuietStays(m, operand, env);
      OperandStays(m, e, env);
    case Binary(_, lhs, rhs) =>
      QuietStays(m, lhs, env);
      QuietStays(m, rhs, env);
      BinaryStays(m, e, env);
    case If(cond, thn, els) =>
      QuietStays(m, cond, env);
      SilentStays(m, thn, env);
      SilentStays(m, els, env);
      ChoiceStays(m, e, env);
    case Cast(operand, _) =>
      QuietStays(m, operand, env);
      OperandStays(m, e, env);
    case _ => LeafStays(m, e, env);
  }

  lemma LeafStays(m: Arith, e: Expr, env: Env)
    requires !e.Not? && !e.Binary? && !e.If? && !e.Cast?
    ensures NoExit(m, e, env) && ExprFollows(m, e, env)
  {
  }

  lemma OperandStays(m: Arith, e: Expr, env: Env)
    requires (e.Not? || e.Cast?) && NoExit(m, e.operand, env)
    ensures NoExit(m, e, env)
  {
  }

  lemma BinaryStays(m: Arith, e: Expr, env: Env)
    requires e.Binary? && NoExit(m, e.lhs, env) && NoExit(m, e.rhs, env)
    ensures NoExit(m, e, env)
  {
  }

  lemma ChoiceStays(m: Arith, e: Expr, env: Env)
    requires e.If? && NoExit(m, e.cond, env) && BlockNoExit(m, e.thn, env) && BlockNoExit(m, e.els, env)
    ensures NoExit(m, e, env)
  {
  }

  lemma {:induction false} SilentStays(m: Arith, b: Block, env: Env)
    requires Silent(b)
    ensures BlockNoExit(m, b, env)
    decreases b
  {
    var start := Flow(None, env, {});
    SilentStmtsStay(m, b.stmts, start);
    QuietTail(m, b.tail, RefStmts(m, b.stmts, start));
  }

  lemma {:induction false} QuietTail(m: Arith, tail: Option<Expr>, r: Exit<Flow>)
    ensures tail.Some? && Quiet(tail.value) && r.Val? ==> NoExit(m, tail.value, r.value.env)
    decreases tail
  {
    if tail.Some? && Quiet(tail.value) && r.Val? {
      QuietStays(m, tail.value, r.value.env);
    }
  }

  lemma {:induction false} SilentStmtStays(m: Arith, s: Stmt, flow: Flow)
    requires SilentStmt(s)
    ensures StmtStays(m, s, flow)
    decreases s
  {
    match s
    case Let(_, _, init) => QuietStays(m, init, flow.env);
    case Assign(_, value) => QuietStays(m, value, flow.env);
    case IfStmt(cond, thn, els) =>
      QuietStays(m, cond, flow.env);
      SilentBranchStays(m, thn, flow);
      SilentElseStays(m, els, flow);
      BranchingStays(m, s, flow);
    case _ =>
  }

  lemma BranchingStays(m: Arith, s: Stmt, flow: Flow)
    requires s.IfStmt? && NoExit(m, s.cond, flow.env) && StmtsStay(m, s.thn.stmts, flow)
    requires s.els.Some? ==> StmtsStay(m, s.els.value.stmts, flow)
    ensures StmtStays(m, s, flow)
  {
  }

  lemma {:induction false} SilentBranchStays(m: Arith, b: Block, flow: Flow)
    requires SilentBranch(b)
    ensures StmtsStay(m, b.stmts, flow)
    decreases b
  {
    SilentStmtsStay(m, b.stmts, flow);
  }

  lemma {:induction false} SilentElseStays(m: Arith, els: Option<Block>, flow: Flow)
    ensures els.Some? && SilentBranch(els.value) ==> StmtsStay(m, els.value.stmts, flow)
    decreases els
  {
    if els.Some? && SilentBranch(els.value) {
      SilentBranchStays(m, els.value, flow);
    }
  }

  lemma {:induction false} SilentStmtsStay(m: Arith, stmts: seq<Stmt>, flow: Flow)
    requires SilentStmts(stmts)
    ensures StmtsStay(m, stmts, flow)
    decreases stmts
  {
    if stmts != [] && flow.returned.None? {
      SilentStmtStays(m, stmts[0], flow);
      var next := RefStmt(m, stmts[0], flow);
      if next.Val? {
        SilentStmtsStay(m, stmts[1..], next.value);
      }
    }
  }

  ghost predicate StmtsNoExit(m: Arith, stmts: seq<Stmt>, flow: Flow) {
    !RefStmts(m, stmts, flow).Ret?
  }

  lemma {:induction false} GuardedStmtNoExit(m: Arith, s: Stmt, flow: Flow)
    requires GuardedStmt(s)
    ensures !RefStmt(m, s, flow).Ret?
    decreases s
  {
    match s
    case Return(result) => QuietTail(m, result, Val(flow));
    case IfStmt(cond, thn, els) =>
      QuietStays(m, cond, flow.env);
      GuardedBranchNoExit(m, thn, flow);
      GuardedElseNoExit(m, els, flow);
      BranchingNoExit(m, s, flow);
    case _ => SilentStmtStays(m, s, flow);
  }

  lemma BranchingNoExit(m: Arith, s: Stmt, flow: Flow)
    requires s.IfStmt? && NoExit(m, s.cond, flow.env) && StmtsNoExit(m, s.thn.stmts, flow)
    requires s.els.Some? ==> StmtsNoExit(m, s.els.value.stmts, flow)
    ensures !RefStmt(m, s, flow).Ret?
  {
  }

  lemma {:induction false} GuardedBranchNoExit(m: Arith, b: Block, flow: Flow)
    requires GuardedBranch(b)
    ensures StmtsNoExit(m, b.stmts, flow)
    decreases b
  {
    GuardedStmtsNoExit(m, b.stmts, flow);
  }

  lemma {:induction false} GuardedElseNoExit(m: Arith, els: Option<Block>, flow: Flow)
    ensures els.Some? && GuardedBranch(els.value) ==> StmtsNoExit(m, els.value.stmts, flow)
    decreases els
  {
    if els.Some? && GuardedBranch(els.value) {
      GuardedBranchNoExit(m, els.value, flow);
    }
  }

  lemma {:induction false} GuardedStmtsNoExit(m: Arith, stmts: seq<Stmt>, flow: Flow)
    requires GuardedStmts(stmts)
    ensures StmtsNoExit(m, stmts, flow)
    decreases stmts
  {
    if stmts != [] && flow.returned.None? {
      GuardedStmtNoExit(m, stmts[0], flow);
      var next := RefStmt(m, stmts[0], flow);
      if next.Val? {
        GuardedStmtsNoExit(m, stmts[1..], next.value);
      }
    }
  }

  /** With no `return` in a block in expression position, every body evaluates as the reference says. */
  lemma GuardedBodiesAgree(m: Arith, body: Block, env: Env)
    requires Guarded(body)
    ensures EvalBlock(m, body, env) == RefBody(m, body, env)
  {
    var start := Flow(None, env, {});
    GuardedStmtsNoExit(m, body.stmts, start);
    QuietTail(m, body.tail, RefStmts(m, body.stmts, start));
    UntakenReturnsAgree(m, body, env);
  }

  // ---------- The converse ----------

  /** A body that binds the value of `e` and then has the value `n`. */
  function Probe(e: Expr, n: nat): Block {
    Block([Let(false, "y", e)], Some(IntLit(n)))
  }

  lemma ProbeRuns(m: Arith, e: Expr, n: nat, env: Env)
    ensures RefExpr(m, e, env).Ret? ==> RefBody(m, Probe(e, n), env) == Ok(RefExpr(m, e, env).result)
    ensures EvalBlock(m, Probe(e, n), env).Ok? ==> EvalBlock(m, Probe(e, n), env) == EvalExpr(m, IntLit(n), env)
    ensures TakesInnerReturn(m, Probe(e, n), env) <==> RefExpr(m, e, env).Ret?
  {
    var s, start := Let(false, "y", e), Flow(None, env, {});
    assert [s][1..] == [];
    var r := RefStmt(m, s, start);
    if r.Val? {
      assert RefStmts(m, [], r.value) == Val(r.value);
    }
    assert r.Ret? ==> RefStmts(m, [s], start) == Ret(r.result);
    var o := EvalStmt(m, s, start);
    if o.Ok? {
      assert EvalStmts(m, [], o.value) == Ok(o.value);
    }
  }

  /**
  A `return` that is taken inside an expression is always observable: an expression may stand in every body
  of this form, with the reference's result, exactly when its evaluation takes no such `return`.
   */
  lemma SafeIffNoReturnTaken(m: Arith, e: Expr, env: Env)
    ensures (forall n: nat :: EvalBlock(m, Probe(e, n), env) == RefBody(m, Probe(e, n), env))
            <==> !RefExpr(m, e, env).Ret?
  {
    if RefExpr(m, e, env).Ret? {
      var n := if RefExpr(m, e, env).result == IntV(0) then 1 else 0;
      ProbeRuns(m, e, n, env);
      assert EvalExpr(m, IntLit(n), env) == Ok(IntV(n));
      assert EvalBlock(m, Probe(e, n), env) != RefBody(m, Probe(e, n), env);
    } else {
      forall n: nat
        ensures EvalBlock(m, Probe(e, n), env) == RefBody(m, Probe(e, n), env)
      {
        ProbeRuns(m, e, n, env);
        UntakenReturnsAgree(m, Probe(e, n), env);
      }
    }
  }
}
