/**
Lexical scoping of covenant bodies. The evaluator threads one environment through both branches of
a statement-`if`, so a name bound there outlives its branch. The reference semantics here keeps a
stack of frames instead; the two agree exactly on what is observed as long as no branch-bound name
is live after its branch.
 */
module CovenantScope {
  import opened Ast
  import opened Covenant

  // ---------- The lexically scoped reference ----------

  datatype Binding = Binding(value: Value, mutable: bool)

  type Frame = map<string, Binding>

  /** The visible binding of a name; frames are innermost first. */
  function Lookup(scopes: seq<Frame>, x: string): Option<Binding> {
    if scopes == [] then None
    else if x in scopes[0] then Some(scopes[0][x])
    else Lookup(scopes[1..], x)
  }

  function Visible(scopes: seq<Frame>): (env: Env)
    ensures forall x :: x in env <==> Lookup(scopes, x).Some?
    ensures forall x :: x in env ==> env[x] == Lookup(scopes, x).value.value
  {
    if scopes == [] then map[]
    else Visible(scopes[1..]) + (map x | x in scopes[0] :: scopes[0][x].value)
  }

  /** Assignment changes the innermost binding of the name. */
  function Update(scopes: seq<Frame>, x: string, v: Value): (r: seq<Frame>)
    requires Lookup(scopes, x).Some?
    ensures |r| == |scopes|
    ensures forall i :: 0 <= i < |r| ==> r[i].Keys == scopes[i].Keys
    ensures forall y :: Lookup(r, y) == if y == x then Some(Lookup(scopes, x).value.(value := v)) else Lookup(scopes, y)
  {
    if x in scopes[0] then [scopes[0][x := scopes[0][x].(value := v)]] + scopes[1..]
    else
      var rest := Update(scopes[1..], x, v);
      assert ([scopes[0]] + rest)[1..] == rest;
      [scopes[0]] + rest
  }

  datatype LexFlow = LexFlow(returned: Option<Value>, scopes: seq<Frame>)

  function LexExpr(m: Arith, e: Expr, env: Env): Outcome<Value>
    decreases e
  {
    match e
    case Not(operand) =>
      var v :- LexExpr(m, operand, env);
      (match v case BoolV(b) => Ok(BoolV(!b)) case IntV(n) => Ok(IntV(-n - 1)))
    case Binary(op, lhs, rhs) =>
      var l :- LexExpr(m, lhs, env);
      if IsLogical(op) then
        var a :- AsBool(l);
        if a == op.Or? then Ok(BoolV(a)) else var r :- LexExpr(m, rhs, env); var b :- AsBool(r); Ok(BoolV(b))
      else
        var r :- LexExpr(m, rhs, env);
        OnValues(m, op, l, r)
    case If(cond, thn, els) =>
      var c :- LexExpr(m, cond, env);
      var b :- AsBool(c);
      if b then LexBlock(m, thn, env) else LexBlock(m, els, env)
    case Cast(operand, ty) =>
      var v :- LexExpr(m, operand, env);
      var n :- AsInt(v);
      CastTo(ty, n)
    case _ => EvalExpr(m, e, env)
  }

  function LexBlock(m: Arith, b: Block, env: Env): Outcome<Value>
    decreases b
  {
    var flow :- LexStmts(m, b.stmts, LexFlow(None, [map x | x in env :: Binding(env[x], false)]));
    match flow.returned
    case Some(v) => Ok(v)
    case None =>
      match b.tail
      case Some(e) => LexExpr(m, e, Visible(flow.scopes))
      case None => Err(TypeMismatch)
  }

  /** A branch runs in a frame of its own, which is dropped at its end. */
  function LexStmt(m: Arith, s: Stmt, flow: LexFlow): Outcome<LexFlow>
    decreases s
  {
    match s
    case Let(mutable, name, init) =>
      var v :- LexExpr(m, init, Visible(flow.scopes));
      if flow.scopes == [] then Err(Unsupported)
      else Ok(flow.(scopes := [flow.scopes[0][name := Binding(v, mutable)]] + flow.scopes[1..]))
    case Assign(target, value) =>
      if !(target.Path? && |target.segments| == 1) then Err(Unsupported)
      else
        var bound := Lookup(flow.scopes, target.segments[0]);
        if bound.None? || !bound.value.mutable then Err(Unsupported)
        else
          var v :- LexExpr(m, value, Visible(flow.scopes));
          Ok(flow.(scopes := Update(flow.scopes, target.segments[0], v)))
    case Return(result) =>
      (match result
       case None => Err(TypeMismatch)
       case Some(e) => var v :- LexExpr(m, e, Visible(flow.scopes)); Ok(flow.(returned := Some(v))))
    case IfStmt(cond, thn, els) =>
      var c :- LexExpr(m, cond, Visible(flow.scopes));
      var b :- AsBool(c);
      if b then LexBranch(m, thn, flow)
      else (match els case Some(block) => LexBranch(m, block, flow) case None => Ok(flow))
    case ExprStmt(_) => Ok(flow)
    case _ => Err(Unsupported)
  }

  function LexBranch(m: Arith, b: Block, flow: LexFlow): Outcome<LexFlow>
    decreases b
  {
    var inner :- LexStmts(m, b.stmts, flow.(scopes := [map[]] + flow.scopes));
    Ok(if inner.scopes == [] then inner else inner.(scopes := inner.scopes[1..]))
  }

  function LexStmts(m: Arith, stmts: seq<Stmt>, flow: LexFlow): Outcome<LexFlow>
    decreases stmts
  {
    if stmts == [] || flow.returned.Some? then Ok(flow)
    else
      var next :- LexStmt(m, stmts[0], flow);
      LexStmts(m, stmts[1..], next)
  }

  // ---------- Liveness ----------

  /** The names whose bindings an expression can observe. */
  function Uses(e: Expr): set<string>
    decreases e
  {
    match e
    case Path(segments) => if |segments| == 1 then {segments[0]} else {}
    case Not(operand) => Uses(operand)
    case Binary(_, lhs, rhs) => Uses(lhs) + Uses(rhs)
    case If(cond, thn, els) => Uses(cond) + UsesBlock(thn) + UsesBlock(els)
    case Cast(operand, _) => Uses(operand)
    case _ => {}
  }

  function UsesOption(o: Option<Expr>): set<string>
    decreases o
  {
    match o case Some(e) => Uses(e) case None => {}
  }

  function UsesBlock(b: Block): set<string>
    decreases b
  {
    Live(b.stmts, UsesOption(b.tail))
  }

  /** The names live before a statement, given those live after it. */
  function LiveStmt(s: Stmt, after: set<string>): set<string>
    decreases s
  {
    match s
    case Let(_, name, init) => Uses(init) + (after - {name})
    case Assign(target, value) => Uses(target) + Uses(value) + after
    case Return(result) => UsesOption(result)
    case IfStmt(cond, thn, els) =>
      Uses(cond) + LiveBranch(thn, after) + (match els case Some(b) => LiveBranch(b, after) case None => after)
    case _ => after
  }

  function LiveBranch(b: Block, after: set<string>): set<string>
    decreases b
  {
    Live(b.stmts, after)
  }

  function Live(stmts: seq<Stmt>, after: set<string>): set<string>
    decreases stmts
  {
    if stmts == [] then after else LiveStmt(stmts[0], Live(stmts[1..], after))
  }

  /** The names a statement list binds directly, not inside nested branches. */
  function Lets(stmts: seq<Stmt>): set<string> {
    if stmts == [] then {}
    else (if stmts[0].Let? then {stmts[0].name} else {}) + Lets(stmts[1..])
  }

  /** No name bound in a branch is live after it, here and in every nested block. */
  predicate Scoped(e: Expr)
    decreases e
  {
    match e
    case Not(operand) => Scoped(operand)
    case Binary(_, lhs, rhs) => Scoped(lhs) && Scoped(rhs)
    case If(cond, thn, els) => Scoped(cond) && ScopedBlock(thn) && ScopedBlock(els)
    case Cast(operand, _) => Scoped(operand)
    case _ => true
  }

  predicate ScopedOption(o: Option<Expr>)
    decreases o
  {
    match o case Some(e) => Scoped(e) case None => true
  }

  predicate ScopedBlock(b: Block)
    decreases b
  {
    ScopedStmts(b.stmts, UsesOption(b.tail)) && ScopedOption(b.tail)
  }

  predicate ScopedStmt(s: Stmt, after: set<string>)
    decreases s
  {
    match s
    case Let(_, _, init) => Scoped(init)
    case Assign(_, value) => Scoped(value)
    case Return(result) => ScopedOption(result)
    case IfStmt(cond, thn, els) =>
      Scoped(cond) && ScopedBranch(thn, after) && (match els case Some(b) => ScopedBranch(b, after) case None => true)
    case _ => true
  }

  predicate ScopedBranch(b: Block, after: set<string>)
    decreases b
  {
    Lets(b.stmts) !! after && ScopedStmts(b.stmts, after)
  }

  predicate ScopedStmts(stmts: seq<Stmt>, after: set<string>)
    decreases stmts
  {
    stmts == [] || (ScopedStmt(stmts[0], Live(stmts[1..], after)) && ScopedStmts(stmts[1..], after))
  }

  // ---------- The simulation ----------

  ghost predicate Agree(names: set<string>, a: Env, b: Env) {
    forall x :: x in names ==> (x in a <==> x in b) && (x in a ==> a[x] == b[x])
  }

  /** The frames and the threaded state say the same about one name. */
  ghost predicate SameName(x: string, flow: Flow, lex: LexFlow) {
    var b := Lookup(lex.scopes, x);
    && (x in flow.env <==> b.Some?)
    && (x in flow.env ==> flow.env[x] == b.value.value)
    && (x in flow.mutable <==> b.Some? && b.value.mutable)
  }

  ghost predicate Related(live: set<string>, flow: Flow, lex: LexFlow) {
    forall x :: x in live ==> SameName(x, flow, lex)
  }

  lemma RelatedAgree(live: set<string>, flow: Flow, lex: LexFlow)
    requires Related(live, flow, lex)
    ensures Agree(live, flow.env, Visible(lex.scopes))
  {
    assert forall x :: x in live ==> SameName(x, flow, lex);
  }

  /** The frames below the innermost bind what they bound before; the innermost may bind `added` too. */
  ghost predicate FramesKept(before: seq<Frame>, after: seq<Frame>, added: set<string>) {
    && |after| == |before| > 0
    && after[0].Keys <= before[0].Keys + added
    && forall i :: 1 <= i < |before| ==> after[i].Keys == before[i].Keys
  }

  /** The two semantics finish a statement or a list alike. */
  ghost predicate SameFinish(live: set<string>, r: Outcome<Flow>, l: Outcome<LexFlow>, before: seq<Frame>,
                             added: set<string>) {
    match (r, l)
    case (Err(e), Err(f)) => e == f
    case (Ok(flow), Ok(lex)) =>
      && flow.returned == lex.returned
      && FramesKept(before, lex.scopes, added)
      && (flow.returned.None? ==> Related(live, flow, lex))
    case _ => false
  }

  ghost predicate SameExpr(m: Arith, e: Expr, a: Env, b: Env) {
    EvalExpr(m, e, a) == LexExpr(m, e, b)
  }

  ghost predicate SameBlock(m: Arith, b: Block, env: Env, env': Env) {
    EvalBlock(m, b, env) == LexBlock(m, b, env')
  }

  /** An expression gives the same value or the same error under both semantics. */
  lemma {:induction false} ExprSame(m: Arith, e: Expr, a: Env, b: Env)
    requires Scoped(e) && Agree(Uses(e), a, b)
    ensures SameExpr(m, e, a, b)
    decreases e
  {
    match e
    case Not(operand) =>
      ExprSame(m, operand, a, b);
      UnarySame(m, e, operand, a, b);
    case Binary(op, lhs, rhs) =>
      ExprSame(m, lhs, a, b);
      ExprSame(m, rhs, a, b);
      BinarySame(m, e, a, b);
    case If(cond, thn, els) =>
      ExprSame(m, cond, a, b);
      BlockSame(m, thn, a, b);
      BlockSame(m, els, a, b);
      ChoiceSame(m, e, a, b);
    case Cast(operand, _) =>
      ExprSame(m, operand, a, b);
      UnarySame(m, e, operand, a, b);
    case _ => LeafSame(m, e, a, b);
  }

  lemma UnarySame(m: Arith, e: Expr, operand: Expr, a: Env, b: Env)
    requires (e.Not? || e.Cast?) && operand == e.operand && SameExpr(m, operand, a, b)
    ensures SameExpr(m, e, a, b)
  {
  }

  lemma ChoiceSame(m: Arith, e: Expr, a: Env, b: Env)
    requires e.If? && SameExpr(m, e.cond, a, b) && SameBlock(m, e.thn, a, b) && SameBlock(m, e.els, a, b)
    ensures SameExpr(m, e, a, b)
  {
  }

  lemma LeafSame(m: Arith, e: Expr, a: Env, b: Env)
    requires !e.Not? && !e.Binary? && !e.If? && !e.Cast? && Agree(Uses(e), a, b)
    ensures SameExpr(m, e, a, b)
  {
    if e.Path? && |e.segments| == 1 {
      assert e.segments[0] in Uses(e);
    }
  }

  lemma BinarySame(m: Arith, e: Expr, a: Env, b: Env)
    requires e.Binary? && SameExpr(m, e.lhs, a, b) && SameExpr(m, e.rhs, a, b)
    ensures SameExpr(m, e, a, b)
  {
  }

  /** A block gives the same value or the same error under both semantics. */
  lemma {:induction false} BlockSame(m: Arith, b: Block, env: Env, env': Env)
    requires ScopedBlock(b) && Agree(UsesBlock(b), env, env')
    ensures SameBlock(m, b, env, env')
    decreases b
  {
    var flow := Flow(None, env, {});
    var lex := LexFlow(None, [map x | x in env' :: Binding(env'[x], false)]);
    StartRelated(UsesBlock(b), env, env');
    StmtsSame(m, b.stmts, UsesOption(b.tail), flow, lex);
    var r, l := EvalStmts(m, b.stmts, flow), LexStmts(m, b.stmts, lex);
    if r.Ok? && r.value.returned.None? && b.tail.Some? {
      RelatedAgree(UsesOption(b.tail), r.value, l.value);
      OptionSame(m, b.tail, r.value.env, Visible(l.value.scopes));
    }
    BlockFinish(m, b, env, env', lex);
  }

  lemma {:induction false} OptionSame(m: Arith, o: Option<Expr>, a: Env, b: Env)
    requires ScopedOption(o) && Agree(UsesOption(o), a, b) && o.Some?
    ensures SameExpr(m, o.value, a, b)
    decreases o
  {
    if o.Some? {
      ExprSame(m, o.value, a, b);
    }
  }

  /** A block starts with one frame of immutable bindings. */
  lemma StartRelated(live: set<string>, env: Env, env': Env)
    requires Agree(live, env, env')
    ensures Ready(live, Flow(None, env, {}), LexFlow(None, [map x | x in env' :: Binding(env'[x], false)]))
  {
    var frame := map x | x in env' :: Binding(env'[x], false);
    forall x | x in live
      ensures SameName(x, Flow(None, env, {}), LexFlow(None, [frame]))
    {
      assert Lookup([frame], x) == if x in frame then Some(frame[x]) else Lookup([frame][1..], x);
    }
  }

  /** A block's value from how its statements finish. */
  lemma BlockFinish(m: Arith, b: Block, env: Env, env': Env, lex: LexFlow)
    requires lex == LexFlow(None, [map x | x in env' :: Binding(env'[x], false)])
    requires var r, l := EvalStmts(m, b.stmts, Flow(None, env, {})), LexStmts(m, b.stmts, lex);
             && SameFinish(UsesOption(b.tail), r, l, lex.scopes, Lets(b.stmts))
             && (r.Ok? && r.value.returned.None? && b.tail.Some? ==>
                   SameExpr(m, b.tail.value, r.value.env, Visible(l.value.scopes)))
    ensures SameBlock(m, b, env, env')
  {
  }

  ghost predicate Ready(live: set<string>, flow: Flow, lex: LexFlow) {
    flow.returned.None? && lex.returned.None? && lex.scopes != [] && Related(live, flow, lex)
  }

  lemma {:induction false} StmtsSame(m: Arith, stmts: seq<Stmt>, after: set<string>, flow: Flow, lex: LexFlow)
    requires ScopedStmts(stmts, after) && Ready(Live(stmts, after), flow, lex)
    ensures SameFinish(after, EvalStmts(m, stmts, flow), LexStmts(m, stmts, lex), lex.scopes, Lets(stmts))
    decreases stmts
  {
    if stmts != [] {
      var mid := Live(stmts[1..], after);
      StmtSame(m, stmts[0], mid, flow, lex);
      var r, l := EvalStmt(m, stmts[0], flow), LexStmt(m, stmts[0], lex);
      if r.Ok? && r.value.returned.None? {
        StmtsSame(m, stmts[1..], after, r.value, l.value);
      }
      ConsFinish(m, stmts, mid, after, flow, lex);
    }
  }

  function OwnLet(s: Stmt): set<string> {
    if s.Let? then {s.name} else {}
  }

  /** A list finishes alike when its head and, unless the head returns, its rest do. */
  lemma ConsFinish(m: Arith, stmts: seq<Stmt>, mid: set<string>, after: set<string>, flow: Flow, lex: LexFlow)
    requires stmts != [] && Ready(Live(stmts, after), flow, lex)
    requires var r, l := EvalStmt(m, stmts[0], flow), LexStmt(m, stmts[0], lex);
             && SameFinish(mid, r, l, lex.scopes, OwnLet(stmts[0]))
             && (r.Ok? && r.value.returned.None? ==>
                   SameFinish(after, EvalStmts(m, stmts[1..], r.value), LexStmts(m, stmts[1..], l.value),
                              l.value.scopes, Lets(stmts[1..])))
    ensures SameFinish(after, EvalStmts(m, stmts, flow), LexStmts(m, stmts, lex), lex.scopes, Lets(stmts))
  {
    var r, l := EvalStmt(m, stmts[0], flow), LexStmt(m, stmts[0], lex);
    assert Lets(stmts) == OwnLet(stmts[0]) + Lets(stmts[1..]);
    if r.Ok? {
      assert EvalStmts(m, stmts, flow) == EvalStmts(m, stmts[1..], r.value);
      assert LexStmts(m, stmts, lex) == LexStmts(m, stmts[1..], l.value);
      if r.value.returned.Some? {
        assert EvalStmts(m, stmts[1..], r.value) == r && LexStmts(m, stmts[1..], l.value) == l;
      } else {
        var l' := LexStmts(m, stmts[1..], l.value);
        if l'.Ok? {
          FramesKeptTwice(lex.scopes, l.value.scopes, l'.value.scopes, OwnLet(stmts[0]), Lets(stmts[1..]));
        }
      }
    }
  }

  lemma FramesKeptTwice(a: seq<Frame>, b: seq<Frame>, c: seq<Frame>, x: set<string>, y: set<string>)
    requires FramesKept(a, b, x) && FramesKept(b, c, y)
    ensures FramesKept(a, c, x + y)
  {
  }

  lemma {:induction false} StmtSame(m: Arith, s: Stmt, after: set<string>, flow: Flow, lex: LexFlow)
    requires ScopedStmt(s, after) && Ready(LiveStmt(s, after), flow, lex)
    ensures SameFinish(after, EvalStmt(m, s, flow), LexStmt(m, s, lex), lex.scopes, OwnLet(s))
    decreases s
  {
    var env' := Visible(lex.scopes);
    RelatedAgree(LiveStmt(s, after), flow, lex);
    match s
    case Let(mutable, name, init) =>
      ExprSame(m, init, flow.env, env');
      LetSame(m, s, after, flow, lex);
    case Assign(target, value) =>
      ExprSame(m, value, flow.env, env');
      AssignSame(m, s, after, flow, lex);
    case Return(result) =>
      if result.Some? {
        OptionSame(m, result, flow.env, env');
      }
      ReturnSame(m, s, after, flow, lex);
    case IfStmt(cond, thn, els) =>
      ExprSame(m, cond, flow.env, env');
      BranchSame(m, thn, after, flow, lex);
      if els.Some? {
        BranchSame(m, els.value, after, flow, lex);
      }
      IfSame(m, s, after, flow, lex);
    case _ => OtherSame(m, s, after, flow, lex);
  }

  lemma IfSame(m: Arith, s: Stmt, after: set<string>, flow: Flow, lex: LexFlow)
    requires s.IfStmt? && lex.scopes != []
    requires SameExpr(m, s.cond, flow.env, Visible(lex.scopes))
    requires SameFinish(after, EvalStmts(m, s.thn.stmts, flow), LexBranch(m, s.thn, lex), lex.scopes, {})
    requires if s.els.Some?
             then SameFinish(after, EvalStmts(m, s.els.value.stmts, flow), LexBranch(m, s.els.value, lex),
                 lex.scopes, {})
             else SameFinish(after, Ok(flow), Ok(lex), lex.scopes, {})
    ensures SameFinish(after, EvalStmt(m, s, flow), LexStmt(m, s, lex), lex.scopes, OwnLet(s))
  {
  }

  lemma OtherSame(m: Arith, s: Stmt, after: set<string>, flow: Flow, lex: LexFlow)
    requires !s.Let? && !s.Assign? && !s.Return? && !s.IfStmt? && Ready(after, flow, lex)
    ensures SameFinish(after, EvalStmt(m, s, flow), LexStmt(m, s, lex), lex.scopes, OwnLet(s))
  {
  }

  lemma LetSame(m: Arith, s: Stmt, after: set<string>, flow: Flow, lex: LexFlow)
    requires s.Let? && Ready(after - {s.name}, flow, lex)
    requires SameExpr(m, s.init, flow.env, Visible(lex.scopes))
    ensures SameFinish(after, EvalStmt(m, s, flow), LexStmt(m, s, lex), lex.scopes, OwnLet(s))
  {
    var v := EvalExpr(m, s.init, flow.env);
    if v.Ok? {
      LetLookup(lex.scopes, s.name, Binding(v.value, s.mutable));
      var r, l := EvalStmt(m, s, flow).value, LexStmt(m, s, lex).value;
      forall x | x in after
        ensures SameName(x, r, l)
      {
        if x != s.name {
          assert x in after - {s.name};
          assert SameName(x, flow, lex);
        }
      }
    }
  }

  lemma ReturnSame(m: Arith, s: Stmt, after: set<string>, flow: Flow, lex: LexFlow)
    requires s.Return? && flow.returned.None? && lex.returned.None? && lex.scopes != []
    requires s.result.Some? ==>
               SameExpr(m, s.result.value, flow.env, Visible(lex.scopes))
    ensures SameFinish(after, EvalStmt(m, s, flow), LexStmt(m, s, lex), lex.scopes, OwnLet(s))
  {
  }

  lemma AssignSame(m: Arith, s: Stmt, after: set<string>, flow: Flow, lex: LexFlow)
    requires s.Assign? && Ready(Uses(s.target) + after, flow, lex)
    requires SameExpr(m, s.value, flow.env, Visible(lex.scopes))
    ensures SameFinish(after, EvalStmt(m, s, flow), LexStmt(m, s, lex), lex.scopes, OwnLet(s))
  {
    if s.target.Path? && |s.target.segments| == 1 {
      var x := s.target.segments[0];
      assert Uses(s.target) == {x};
      assert SameName(x, flow, lex);
    }
  }

  lemma LetLookup(scopes: seq<Frame>, name: string, b: Binding)
    requires scopes != []
    ensures var r := [scopes[0][name := b]] + scopes[1..];
            forall y :: Lookup(r, y) == if y == name then Some(b) else Lookup(scopes, y)
  {
    var r := [scopes[0][name := b]] + scopes[1..];
    assert r[1..] == scopes[1..];
  }

  lemma {:induction false} BranchSame(m: Arith, b: Block, after: set<string>, flow: Flow, lex: LexFlow)
    requires ScopedBranch(b, after) && Ready(LiveBranch(b, after), flow, lex)
    ensures SameFinish(after, EvalStmts(m, b.stmts, flow), LexBranch(m, b, lex), lex.scopes, {})
    decreases b
  {
    var inner := lex.(scopes := [map[]] + lex.scopes);
    PushKeeps(lex.scopes);
    StmtsSame(m, b.stmts, after, flow, inner);
    assert Ready(Live(b.stmts, after), flow, inner);
    PopFinish(m, b, after, flow, lex);
  }

  lemma PushKeeps(scopes: seq<Frame>)
    ensures forall x :: Lookup([map[]] + scopes, x) == Lookup(scopes, x)
  {
    assert ([map[]] + scopes)[1..] == scopes;
  }

  /** Dropping the branch's frame loses only names it bound itself. */
  lemma PopFinish(m: Arith, b: Block, after: set<string>, flow: Flow, lex: LexFlow)
    requires Lets(b.stmts) !! after && lex.scopes != []
    requires var inner := lex.(scopes := [map[]] + lex.scopes);
             SameFinish(after, EvalStmts(m, b.stmts, flow), LexStmts(m, b.stmts, inner), inner.scopes, Lets(b.stmts))
    ensures SameFinish(after, EvalStmts(m, b.stmts, flow), LexBranch(m, b, lex), lex.scopes, {})
  {
    var inner := lex.(scopes := [map[]] + lex.scopes);
    var l := LexStmts(m, b.stmts, inner);
    if l.Ok? {
      var popped := l.value.scopes[1..];
      assert FramesKept(lex.scopes, popped, {});
      forall x | x in after
        ensures Lookup(popped, x) == Lookup(l.value.scopes, x)
      {
        assert x !in l.value.scopes[0];
      }
    }
  }

  /** The whole body: with no branch-bound name live after its branch, threading is lexical scoping. */
  lemma ThreadingIsLexical(m: Arith, body: Block, env: Env)
    requires ScopedBlock(body)
    ensures EvalBlock(m, body, env) == LexBlock(m, body, env)
  {
    BlockSame(m, body, env, env);
  }

  // ---------- What no statement changes ----------

  /** Every name a statement binds, nested branches included. */
  function AllLets(s: Stmt): set<string>
    decreases s
  {
    match s
    case Let(_, name, _) => {name}
    case IfStmt(_, thn, els) => BlockLets(thn) + (match els case Some(b) => BlockLets(b) case None => {})
    case _ => {}
  }

  function BlockLets(b: Block): set<string>
    decreases b
  {
    AllLetsOf(b.stmts)
  }

  function AllLetsOf(stmts: seq<Stmt>): set<string>
    decreases stmts
  {
    if stmts == [] then {} else AllLets(stmts[0]) + AllLetsOf(stmts[1..])
  }

  /** A parameter or non-`mut` binding keeps its value and stays immutable unless a `let` binds its name. */
  lemma {:induction false} ImmutableIsKept(m: Arith, stmts: seq<Stmt>, flow: Flow, x: string)
    requires x !in flow.mutable && x !in AllLetsOf(stmts) && x in flow.env
    ensures var r := EvalStmts(m, stmts, flow);
            r.Ok? ==> x !in r.value.mutable && x in r.value.env && r.value.env[x] == flow.env[x]
    decreases stmts
  {
    if stmts != [] && flow.returned.None? {
      ImmutableIsKeptBy(m, stmts[0], flow, x);
      var next := EvalStmt(m, stmts[0], flow);
      if next.Ok? {
        ImmutableIsKept(m, stmts[1..], next.value, x);
      }
    }
  }

  lemma {:induction false} ImmutableIsKeptBy(m: Arith, s: Stmt, flow: Flow, x: string)
    requires x !in flow.mutable && x !in AllLets(s) && x in flow.env
    ensures var r := EvalStmt(m, s, flow);
            r.Ok? ==> x !in r.value.mutable && x in r.value.env && r.value.env[x] == flow.env[x]
    decreases s
  {
    if s.IfStmt? {
      ImmutableInBlock(m, s.thn, flow, x);
      if s.els.Some? {
        ImmutableInBlock(m, s.els.value, flow, x);
      }
    }
  }

  lemma {:induction false} ImmutableInBlock(m: Arith, b: Block, flow: Flow, x: string)
    requires x !in flow.mutable && x in flow.env
    ensures var r := EvalStmts(m, b.stmts, flow);
            x !in BlockLets(b) && r.Ok? ==> x !in r.value.mutable && x in r.value.env && r.value.env[x] == flow.env[x]
    decreases b
  {
    if x !in BlockLets(b) {
      ImmutableIsKept(m, b.stmts, flow, x);
    }
  }

  /** How `{ if true { let x = 1; } x }` runs on frames: the branch leaves no trace. */
  lemma LexicalBranch(m: Arith, s: Stmt, scopes: seq<Frame>)
    requires s == Let(false, "x", IntLit(1)) && scopes != []
    ensures LexStmts(m, [IfStmt(BoolLit(true), Block([s], None), None)], LexFlow(None, scopes))
            == Ok(LexFlow(None, scopes))
  {
    var branch := IfStmt(BoolLit(true), Block([s], None), None);
    var flow, pushed := LexFlow(None, scopes), LexFlow(None, [map[]] + scopes);
    var bound := LexStmt(m, s, pushed);
    assert bound.Ok? && bound.value.scopes[1..] == scopes;
    assert [s][1..] == [] && [branch][1..] == [];
    assert LexStmts(m, [s], pushed) == bound;
    assert LexStmt(m, branch, flow) == LexBranch(m, branch.thn, flow) == Ok(flow);
  }

  /** A leak: `{ if true { let x = 1; } x }` has the value 1, where lexically `x` is unbound. */
  lemma BranchBindingLeaks(m: Arith, env: Env)
    requires "x" !in env
    ensures var inner := Block([Let(false, "x", IntLit(1))], None);
            var body := Block([IfStmt(BoolLit(true), inner, None)], Some(Path(["x"])));
            EvalBlock(m, body, env) == Ok(IntV(1)) && LexBlock(m, body, env) == Err(Unbound("x"))
  {
    var s := Let(false, "x", IntLit(1));
    var inner := Block([s], None);
    var branch := IfStmt(BoolLit(true), inner, None);
    var start, lexStart := Flow(None, env, {}), LexFlow(None, [map x | x in env :: Binding(env[x], false)]);
    var end := Flow(None, env["x" := IntV(1)], {} - {"x"});
    assert [s][1..] == [] && [branch][1..] == [];
    assert EvalStmt(m, s, start) == Ok(end);
    assert EvalStmts(m, [s], start) == Ok(end);
    assert EvalStmt(m, branch, start) == EvalStmts(m, inner.stmts, start);
    assert EvalStmts(m, [branch], start) == Ok(end);
    LexicalBranch(m, s, lexStart.scopes);
    assert Lookup(lexStart.scopes, "x").None?;
  }

  /**
  `(if true { return 1; } else { 0 }) + 1` is 2: a `return` inside an expression-`if` only gives that `if`
  its value.
   */
  lemma ReturnStaysInside(m: Arith, env: Env)
    ensures var choice := If(BoolLit(true), Block([Return(Some(IntLit(1)))], None), Block([], Some(IntLit(0))));
            EvalBlock(m, Block([], Some(Binary(Add, choice, IntLit(1)))), env) == Ok(IntV(2))
  {
    var stmts := [Return(Some(IntLit(1)))];
    var thn := Block(stmts, None);
    var choice := If(BoolLit(true), thn, Block([], Some(IntLit(0))));
    assert EvalStmt(m, stmts[0], Flow(None, env, {})) == Ok(Flow(Some(IntV(1)), env, {}));
    assert EvalBlock(m, thn, env) == Ok(IntV(1));
    assert EvalExpr(m, choice, env) == Ok(IntV(1));
    assert EvalExpr(m, Binary(Add, choice, IntLit(1)), env) == Ok(IntV(2));
  }
}
