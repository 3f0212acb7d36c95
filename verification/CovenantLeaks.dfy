/**
When a name that a branch binds changes what follows the branch. The threaded evaluator keeps such a name;
the lexically scoped reference drops it. Here the condition is exact: one branch is right in front of every
continuation exactly when it leaves each name a continuation can see as it was before its own first `let`.
 */
module CovenantLeaks {
  import opened Ast
  import opened Covenant
  import opened CovenantScope

  /** The position of the first `let` of `x` in the list itself; its length if there is none. */
  function FirstLet(stmts: seq<Stmt>, x: string): (k: nat)
    ensures k <= |stmts| && x !in Lets(stmts[..k])
    ensures k < |stmts| ==> stmts[k].Let? && stmts[k].name == x
    ensures k == |stmts| <==> x !in Lets(stmts)
  {
    if stmts == [] || (stmts[0].Let? && stmts[0].name == x) then 0
    else
      var k := FirstLet(stmts[1..], x);
      assert stmts[..k + 1][1..] == stmts[1..][..k];
      k + 1
  }

  // ---------- Lists in two parts ----------

  lemma {:induction false} EvalSplit(m: Arith, a: seq<Stmt>, b: seq<Stmt>, flow: Flow)
    ensures EvalStmts(m, a + b, flow)
         == match EvalStmts(m, a, flow) case Ok(mid) => EvalStmts(m, b, mid) case Err(e) => Err(e)
  {
    if a == [] {
      assert a + b == b;
    } else {
      assert (a + b)[1..] == a[1..] + b;
      var next := EvalStmt(m, a[0], flow);
      if next.Ok? {
        EvalSplit(m, a[1..], b, next.value);
      }
    }
  }

  lemma {:induction false} LexSplit(m: Arith, a: seq<Stmt>, b: seq<Stmt>, lex: LexFlow)
    ensures LexStmts(m, a + b, lex)
         == match LexStmts(m, a, lex) case Ok(mid) => LexStmts(m, b, mid) case Err(e) => Err(e)
  {
    if a == [] {
      assert a + b == b;
    } else {
      assert (a + b)[1..] == a[1..] + b;
      var next := LexStmt(m, a[0], lex);
      if next.Ok? {
        LexSplit(m, a[1..], b, next.value);
      }
    }
  }

  lemma {:induction false} LiveSplit(a: seq<Stmt>, b: seq<Stmt>, after: set<string>)
    ensures Live(a + b, after) == Live(a, Live(b, after))
  {
    if a == [] {
      assert a + b == b;
    } else {
      assert (a + b)[1..] == a[1..] + b;
      LiveSplit(a[1..], b, after);
    }
  }

  lemma {:induction false} LiveStmtGrows(s: Stmt, a: set<string>, b: set<string>, more: set<string>)
    requires b <= a + more
    ensures LiveStmt(s, b) <= LiveStmt(s, a) + more
    decreases s
  {
    if s.IfStmt? {
      LiveBlockGrows(s.thn, a, b, more);
      if s.els.Some? {
        LiveBlockGrows(s.els.value, a, b, more);
      }
    }
  }

  lemma {:induction false} LiveBlockGrows(blk: Block, a: set<string>, b: set<string>, more: set<string>)
    requires b <= a + more
    ensures LiveBranch(blk, b) <= LiveBranch(blk, a) + more
    decreases blk
  {
    LiveGrows(blk.stmts, a, b, more);
  }

  /** Names live after a list make no others live before it. */
  lemma {:induction false} LiveGrows(stmts: seq<Stmt>, a: set<string>, b: set<string>, more: set<string>)
    requires b <= a + more
    ensures Live(stmts, b) <= Live(stmts, a) + more
    decreases stmts
  {
    if stmts != [] {
      LiveGrows(stmts[1..], a, b, more);
      LiveStmtGrows(stmts[0], Live(stmts[1..], a), Live(stmts[1..], b), more);
    }
  }

  // ---------- What lies below a frame that binds the name ----------

  ghost predicate BindsAt(scopes: seq<Frame>, d: nat, x: string) {
    d < |scopes| && x in scopes[d]
  }

  /** Frame `d` still binds `x`, and the frames below it say of `x` what they said. */
  ghost predicate BelowKept(before: seq<Frame>, after: seq<Frame>, d: nat, x: string) {
    |after| == |before| && BindsAt(after, d, x) && Lookup(after[d + 1..], x) == Lookup(before[d + 1..], x)
  }

  lemma {:induction false} UpdateKeepsBelow(scopes: seq<Frame>, d: nat, x: string, y: string, v: Value)
    requires BindsAt(scopes, d, x) && Lookup(scopes, y).Some?
    ensures BelowKept(scopes, Update(scopes, y, v), d, x)
    decreases d
  {
    var r := Update(scopes, y, v);
    if y in scopes[0] {
      assert r[d + 1..] == scopes[d + 1..];
    } else {
      var rest := Update(scopes[1..], y, v);
      assert r[1..] == rest;
      if d > 0 {
        UpdateKeepsBelow(scopes[1..], d - 1, x, y, v);
        assert r[d + 1..] == rest[d..] && scopes[d + 1..] == scopes[1..][d..];
      }
    }
  }

  lemma LetKeepsBelow(m: Arith, s: Stmt, lex: LexFlow, d: nat, x: string)
    requires s.Let? && BindsAt(lex.scopes, d, x)
    ensures var r := LexStmt(m, s, lex); r.Ok? ==> BelowKept(lex.scopes, r.value.scopes, d, x)
  {
    var r := LexStmt(m, s, lex);
    if r.Ok? {
      assert r.value.scopes[d + 1..] == lex.scopes[d + 1..];
    }
  }

  lemma AssignKeepsBelow(m: Arith, s: Stmt, lex: LexFlow, d: nat, x: string)
    requires s.Assign? && BindsAt(lex.scopes, d, x)
    ensures var r := LexStmt(m, s, lex); r.Ok? ==> BelowKept(lex.scopes, r.value.scopes, d, x)
  {
    if LexStmt(m, s, lex).Ok? {
      UpdateKeepsBelow(lex.scopes, d, x, s.target.segments[0], LexExpr(m, s.value, Visible(lex.scopes)).value);
    }
  }

  lemma {:induction false} StmtsKeepBelow(m: Arith, stmts: seq<Stmt>, lex: LexFlow, d: nat, x: string)
    requires BindsAt(lex.scopes, d, x)
    ensures var r := LexStmts(m, stmts, lex); r.Ok? ==> BelowKept(lex.scopes, r.value.scopes, d, x)
    decreases stmts
  {
    if stmts != [] && lex.returned.None? {
      StmtKeepsBelow(m, stmts[0], lex, d, x);
      var next := LexStmt(m, stmts[0], lex);
      if next.Ok? {
        StmtsKeepBelow(m, stmts[1..], next.value, d, x);
      }
    }
  }

  lemma {:induction false} StmtKeepsBelow(m: Arith, s: Stmt, lex: LexFlow, d: nat, x: string)
    requires BindsAt(lex.scopes, d, x)
    ensures var r := LexStmt(m, s, lex); r.Ok? ==> BelowKept(lex.scopes, r.value.scopes, d, x)
    decreases s
  {
    match s
    case Let(_, _, _) => LetKeepsBelow(m, s, lex, d, x);
    case Assign(_, _) => AssignKeepsBelow(m, s, lex, d, x);
    case IfStmt(_, thn, els) =>
      BranchKeepsBelow(m, thn, lex, d, x);
      if els.Some? {
        BranchKeepsBelow(m, els.value, lex, d, x);
      }
    case _ =>
  }

  lemma {:induction false} BranchKeepsBelow(m: Arith, b: Block, lex: LexFlow, d: nat, x: string)
    requires BindsAt(lex.scopes, d, x)
    ensures var r := LexBranch(m, b, lex); r.Ok? ==> BelowKept(lex.scopes, r.value.scopes, d, x)
    decreases b
  {
    var pushed := lex.(scopes := [map[]] + lex.scopes);
    StmtsKeepBelow(m, b.stmts, pushed, d + 1, x);
    var r := LexStmts(m, b.stmts, pushed);
    if r.Ok? {
      assert r.value.scopes[1..][d + 1..] == r.value.scopes[d + 2..];
      assert pushed.scopes[d + 2..] == lex.scopes[d + 1..];
    }
  }

  // ---------- One branch, one name ----------

  /** Both states bind the name to the same value with the same mutability, or neither binds it. */
  ghost predicate SameAt(x: string, a: Flow, b: Flow) {
    && (x in a.env <==> x in b.env)
    && (x in a.env ==> a.env[x] == b.env[x])
    && (x in a.mutable <==> x in b.mutable)
  }

  /** The run ends with `x` as it was in front of the list's first `let` of it. */
  ghost predicate LeavesAlone(m: Arith, stmts: seq<Stmt>, x: string, flow: Flow) {
    var before, end := EvalStmts(m, stmts[..FirstLet(stmts, x)], flow), EvalStmts(m, stmts, flow);
    before.Ok? && end.Ok? && SameAt(x, before.value, end.value)
  }

  /**
  Only the list's own `let`s may outlive it: no name bound in a nested branch is live after that branch, also
  when a live name counts as live up to its own first `let`.
   */
  ghost predicate NestedScoped(stmts: seq<Stmt>, live: set<string>) {
    ScopedStmts(stmts, live) && forall x :: x in live ==> PrefixScoped(stmts, live, x)
  }

  ghost predicate PrefixScoped(stmts: seq<Stmt>, live: set<string>, x: string) {
    var k := FirstLet(stmts, x);
    ScopedStmts(stmts[..k], Live(stmts[k..], live) + {x})
  }

  /** The list runs to its end. */
  ghost predicate Finishes(m: Arith, stmts: seq<Stmt>, flow: Flow) {
    var r := EvalStmts(m, stmts, flow);
    r.Ok? && r.value.returned.None?
  }

  /** The frames inside the branch when it reaches its first `let` of `x`. */
  lemma AtFirstLet(m: Arith, stmts: seq<Stmt>, live: set<string>, x: string, flow: Flow, inner: LexFlow)
    requires x in live && PrefixScoped(stmts, live, x)
    requires Ready(Live(stmts, live) + live, flow, inner) && Finishes(m, stmts, flow)
    requires x !in inner.scopes[0]
    ensures var k := FirstLet(stmts, x);
            && Finishes(m, stmts[..k], flow) && LexStmts(m, stmts[..k], inner).Ok?
            && var a, l := EvalStmts(m, stmts[..k], flow).value, LexStmts(m, stmts[..k], inner).value;
               SameName(x, a, l) && |l.scopes| == |inner.scopes| && x !in l.scopes[0] && l.returned.None?
  {
    var k := FirstLet(stmts, x);
    var p, q := stmts[..k], stmts[k..];
    assert p + q == stmts;
    LiveSplit(p, q, live);
    LiveGrows(p, Live(q, live), Live(q, live) + {x}, {x});
    EvalSplit(m, p, q, flow);
    var after := Live(q, live) + {x};
    assert Related(Live(p, after), flow, inner);
    StmtsSame(m, p, after, flow, inner);
  }

  /** The branch hands on what the reference hands on exactly when it leaves the name alone. */
  lemma NameKeptIff(m: Arith, b: Block, live: set<string>, x: string, flow: Flow, lex: LexFlow)
    requires x in live && NestedScoped(b.stmts, live)
    requires Ready(Live(b.stmts, live) + live, flow, lex) && Finishes(m, b.stmts, flow)
    requires LexBranch(m, b, lex).Ok?
    ensures SameName(x, EvalStmts(m, b.stmts, flow).value, LexBranch(m, b, lex).value)
            <==> LeavesAlone(m, b.stmts, x, flow)
  {
    var k := FirstLet(b.stmts, x);
    var p, q := b.stmts[..k], b.stmts[k..];
    var inner := lex.(scopes := [map[]] + lex.scopes);
    assert p + q == b.stmts;
    PushKeeps(lex.scopes);
    assert PrefixScoped(b.stmts, live, x);
    AtFirstLet(m, b.stmts, live, x, flow, inner);
    LexSplit(m, p, q, inner);
    var mid, end := LexStmts(m, p, inner).value, LexStmts(m, b.stmts, inner).value;
    assert Lookup(mid.scopes, x) == Lookup(mid.scopes[1..], x);
    if k < |b.stmts| {
      LetThenKept(m, q, x, mid);
    } else {
      assert p == b.stmts;
    }
    assert Lookup(end.scopes[1..], x) == Lookup(mid.scopes[1..], x);
  }

  /** A list that starts with a `let` of `x` does not touch the `x` below its frame. */
  lemma LetThenKept(m: Arith, stmts: seq<Stmt>, x: string, lex: LexFlow)
    requires stmts != [] && stmts[0].Let? && stmts[0].name == x && lex.scopes != [] && lex.returned.None?
    ensures var r := LexStmts(m, stmts, lex);
            r.Ok? ==> r.value.scopes != [] && Lookup(r.value.scopes[1..], x) == Lookup(lex.scopes[1..], x)
  {
    var next := LexStmt(m, stmts[0], lex);
    if next.Ok? {
      assert next.value.scopes[1..] == lex.scopes[1..];
      StmtsKeepBelow(m, stmts[1..], next.value, 0, x);
    }
  }

  // ---------- The branch in its body ----------

  function Start(env: Env): Flow {
    Flow(None, env, {})
  }

  function LexStart(env: Env): LexFlow {
    LexFlow(None, [map x | x in env :: Binding(env[x], false)])
  }

  /** The branch that runs; a missing `else` is an empty one. */
  function Taken(m: Arith, s: Stmt, env: Env): Block
    requires s.IfStmt?
  {
    if EvalExpr(m, s.cond, env) == Ok(BoolV(true)) then s.thn
    else match s.els case Some(b) => b case None => Block([], None)
  }

  /** The statements `pre` run to their end and the condition of the `if` after them has a truth value. */
  ghost predicate Arrives(m: Arith, pre: seq<Stmt>, s: Stmt, env: Env) {
    && s.IfStmt? && Finishes(m, pre, Start(env))
    && var c := EvalExpr(m, s.cond, EvalStmts(m, pre, Start(env)).value.env); c.Ok? && c.value.BoolV?
  }

  function Here(m: Arith, pre: seq<Stmt>, env: Env): Flow
    requires EvalStmts(m, pre, Start(env)).Ok?
  {
    EvalStmts(m, pre, Start(env)).value
  }

  /** What the code in front of the branch must not have leaked itself, with `live` live after the branch. */
  ghost predicate ScopedBefore(pre: seq<Stmt>, cond: Expr, b: Block, live: set<string>) {
    Scoped(cond) && ScopedStmts(pre, Uses(cond) + Live(b.stmts, live) + live)
  }

  lemma AtBranch(m: Arith, pre: seq<Stmt>, s: Stmt, live: set<string>, env: Env) returns (lex: LexFlow)
    requires Arrives(m, pre, s, env)
    requires ScopedBefore(pre, s.cond, Taken(m, s, Here(m, pre, env).env), live)
    ensures var flow := Here(m, pre, env);
            var b := Taken(m, s, flow.env);
            && Ready(Live(b.stmts, live) + live, flow, lex)
            && EvalStmts(m, pre + [s], Start(env)) == EvalStmts(m, b.stmts, flow)
            && LexStmts(m, pre + [s], LexStart(env)) == LexBranch(m, b, lex)
  {
    var flow := Here(m, pre, env);
    var b := Taken(m, s, flow.env);
    var after := Uses(s.cond) + Live(b.stmts, live) + live;
    StartRelated(Live(pre, after), env, env);
    StmtsSame(m, pre, after, Start(env), LexStart(env));
    lex := LexStmts(m, pre, LexStart(env)).value;
    LexSplit(m, pre, [s], LexStart(env));
    EvalSplit(m, pre, [s], Start(env));
    RelatedAgree(after, flow, lex);
    ExprSame(m, s.cond, flow.env, Visible(lex.scopes));
    assert SameExpr(m, s.cond, flow.env, Visible(lex.scopes));
    OneStmt(m, s, flow, lex);
    EmptyBranch(m, lex);
  }

  lemma OneStmt(m: Arith, s: Stmt, flow: Flow, lex: LexFlow)
    requires flow.returned.None? && lex.returned.None?
    ensures EvalStmts(m, [s], flow) == EvalStmt(m, s, flow) && LexStmts(m, [s], lex) == LexStmt(m, s, lex)
  {
    assert [s][1..] == [];
    var r, l := EvalStmt(m, s, flow), LexStmt(m, s, lex);
    if r.Ok? {
      assert EvalStmts(m, [], r.value) == r;
    }
    if l.Ok? {
      assert LexStmts(m, [], l.value) == l;
    }
  }

  lemma EmptyBranch(m: Arith, lex: LexFlow)
    ensures LexBranch(m, Block([], None), lex) == Ok(lex)
  {
    assert ([map[]] + lex.scopes)[1..] == lex.scopes;
  }

  /** The reference runs the branch to its end too. */
  lemma BranchFinishes(m: Arith, b: Block, live: set<string>, flow: Flow, lex: LexFlow)
    requires ScopedStmts(b.stmts, live) && Ready(Live(b.stmts, live), flow, lex) && Finishes(m, b.stmts, flow)
    ensures LexBranch(m, b, lex).Ok?
    ensures var l := LexBranch(m, b, lex).value;
            l.returned.None? && FramesKept(lex.scopes, l.scopes, {})
  {
    var inner := lex.(scopes := [map[]] + lex.scopes);
    PushKeeps(lex.scopes);
    assert Ready(Live(b.stmts, live), flow, inner);
    StmtsSame(m, b.stmts, live, flow, inner);
  }

  /** Every continuation that can see only `live` has the same result under both semantics. */
  ghost predicate SafeAfter(m: Arith, stmts: seq<Stmt>, live: set<string>, env: Env) {
    forall rest, tail ::
      ScopedStmts(rest, UsesOption(tail)) && ScopedOption(tail) && Live(rest, UsesOption(tail)) <= live ==>
        SameBlock(m, Block(stmts + rest, tail), env, env)
  }

  lemma RelatedContinues(m: Arith, stmts: seq<Stmt>, env: Env, flow: Flow, lex: LexFlow, rest: seq<Stmt>,
                         tail: Option<Expr>)
    requires EvalStmts(m, stmts, Start(env)) == Ok(flow) && LexStmts(m, stmts, LexStart(env)) == Ok(lex)
    requires ScopedStmts(rest, UsesOption(tail)) && ScopedOption(tail)
    requires Ready(Live(rest, UsesOption(tail)), flow, lex)
    ensures SameBlock(m, Block(stmts + rest, tail), env, env)
  {
    EvalSplit(m, stmts, rest, Start(env));
    LexSplit(m, stmts, rest, LexStart(env));
    StmtsSame(m, rest, UsesOption(tail), flow, lex);
    var r, l := EvalStmts(m, rest, flow), LexStmts(m, rest, lex);
    if r.Ok? && r.value.returned.None? && tail.Some? {
      RelatedAgree(UsesOption(tail), r.value, l.value);
      OptionSame(m, tail, r.value.env, Visible(l.value.scopes));
    }
  }

  /** Reading the name shows whether both bind it, and to what. */
  lemma ReadTells(m: Arith, stmts: seq<Stmt>, env: Env, flow: Flow, lex: LexFlow, x: string)
    requires EvalStmts(m, stmts, Start(env)) == Ok(flow) && LexStmts(m, stmts, LexStart(env)) == Ok(lex)
    requires flow.returned.None? && lex.returned.None?
    ensures SameBlock(m, Block(stmts, Some(Path([x]))), env, env)
            <==> (x in flow.env <==> Lookup(lex.scopes, x).Some?)
                 && (x in flow.env ==> flow.env[x] == Lookup(lex.scopes, x).value.value)
  {
    var e := Path([x]);
    assert EvalExpr(m, e, flow.env) == if x in flow.env then Ok(flow.env[x]) else Err(Unbound(x));
    var seen := Visible(lex.scopes);
    assert LexExpr(m, e, seen) == if x in seen then Ok(seen[x]) else Err(Unbound(x));
    assert EvalBlock(m, Block(stmts, Some(e)), env) == EvalExpr(m, e, flow.env);
    assert LexBlock(m, Block(stmts, Some(e)), env) == LexExpr(m, e, seen);
  }

  function Probe(x: string): Stmt {
    Assign(Path([x]), BoolLit(true))
  }

  /** Assigning to the name shows whether both hold it to be mutable. */
  lemma AssignTells(m: Arith, stmts: seq<Stmt>, env: Env, flow: Flow, lex: LexFlow, x: string)
    requires EvalStmts(m, stmts, Start(env)) == Ok(flow) && LexStmts(m, stmts, LexStart(env)) == Ok(lex)
    requires flow.returned.None? && lex.returned.None?
    ensures SameBlock(m, Block(stmts + [Probe(x)], Some(BoolLit(true))), env, env)
            <==> (x in flow.mutable <==> Lookup(lex.scopes, x).Some? && Lookup(lex.scopes, x).value.mutable)
  {
    EvalSplit(m, stmts, [Probe(x)], Start(env));
    LexSplit(m, stmts, [Probe(x)], LexStart(env));
    OneStmt(m, Probe(x), flow, lex);
    assert forall env' :: EvalExpr(m, BoolLit(true), env') == LexExpr(m, BoolLit(true), env') == Ok(BoolV(true));
    var body := Block(stmts + [Probe(x)], Some(BoolLit(true)));
    assert EvalBlock(m, body, env) == if x in flow.mutable then Ok(BoolV(true)) else Err(Unsupported);
    var bound := Lookup(lex.scopes, x);
    assert LexBlock(m, body, env)
        == if bound.Some? && bound.value.mutable then Ok(BoolV(true)) else Err(Unsupported);
  }

  /**
  The exact condition. The branch that runs is right in front of every continuation that sees only `live`
  exactly when, for each name of `live`, it ends with that name as it was before its own first `let` of it.
   */
  lemma LeakIff(m: Arith, pre: seq<Stmt>, s: Stmt, live: set<string>, env: Env)
    requires Arrives(m, pre, s, env)
    requires ScopedBefore(pre, s.cond, Taken(m, s, Here(m, pre, env).env), live)
    requires NestedScoped(Taken(m, s, Here(m, pre, env).env).stmts, live)
    requires Finishes(m, Taken(m, s, Here(m, pre, env).env).stmts, Here(m, pre, env))
    ensures SafeAfter(m, pre + [s], live, env)
            <==> forall x :: x in live ==>
                   LeavesAlone(m, Taken(m, s, Here(m, pre, env).env).stmts, x, Here(m, pre, env))
  {
    var flow := Here(m, pre, env);
    var b := Taken(m, s, flow.env);
    var lex := AtBranch(m, pre, s, live, env);
    BranchFinishes(m, b, live, flow, lex);
    var end, lexEnd := EvalStmts(m, b.stmts, flow).value, LexBranch(m, b, lex).value;
    forall x | x in live
      ensures SameName(x, end, lexEnd) <==> LeavesAlone(m, b.stmts, x, flow)
    {
      NameKeptIff(m, b, live, x, flow, lex);
    }
    if forall x :: x in live ==> LeavesAlone(m, b.stmts, x, flow) {
      forall rest, tail | ScopedStmts(rest, UsesOption(tail)) && ScopedOption(tail)
                          && Live(rest, UsesOption(tail)) <= live
        ensures SameBlock(m, Block(pre + [s] + rest, tail), env, env)
      {
        RelatedContinues(m, pre + [s], env, end, lexEnd, rest, tail);
      }
    } else {
      var x :| x in live && !LeavesAlone(m, b.stmts, x, flow);
      assert pre + [s] + [] == pre + [s];
      ReadTells(m, pre + [s], env, end, lexEnd, x);
      AssignTells(m, pre + [s], env, end, lexEnd, x);
      ProbesAreScoped(x, live);
    }
  }

  lemma ProbesAreScoped(x: string, live: set<string>)
    requires x in live
    ensures ScopedStmts([], UsesOption(Some(Path([x])))) && ScopedOption(Some(Path([x])))
    ensures Live([], UsesOption(Some(Path([x])))) <= live
    ensures ScopedStmts([Probe(x)], UsesOption(Some(BoolLit(true)))) && ScopedOption(Some(BoolLit(true)))
    ensures Live([Probe(x)], UsesOption(Some(BoolLit(true)))) <= live
  {
    var after := UsesOption(Some(BoolLit(true)));
    assert [Probe(x)][1..] == [] && Live([], after) == after == {};
    assert ScopedStmt(Probe(x), after) && ScopedStmts([], after);
    assert LiveStmt(Probe(x), after) == {x};
  }

  // ---------- A name that is not visible before the branch ----------

  lemma {:induction false} KeysStay(m: Arith, stmts: seq<Stmt>, flow: Flow, x: string)
    ensures var r := EvalStmts(m, stmts, flow);
            r.Ok? && r.value.returned.None? && (x in flow.env || x in Lets(stmts)) ==> x in r.value.env
    decreases stmts
  {
    if stmts != [] && flow.returned.None? {
      var next := EvalStmt(m, stmts[0], flow);
      if next.Ok? {
        KeyStays(m, stmts[0], flow, x);
        KeysStay(m, stmts[1..], next.value, x);
      }
    }
  }

  lemma {:induction false} KeyStays(m: Arith, s: Stmt, flow: Flow, x: string)
    ensures var r := EvalStmt(m, s, flow); r.Ok? && r.value.returned.None? && x in flow.env ==> x in r.value.env
    decreases s
  {
    if s.IfStmt? {
      KeysStayInBlock(m, s.thn, flow, x);
      if s.els.Some? {
        KeysStayInBlock(m, s.els.value, flow, x);
      }
    }
  }

  lemma {:induction false} KeysStayInBlock(m: Arith, b: Block, flow: Flow, x: string)
    ensures var r := EvalStmts(m, b.stmts, flow);
            r.Ok? && r.value.returned.None? && x in flow.env ==> x in r.value.env
    decreases b
  {
    KeysStay(m, b.stmts, flow, x);
  }

  lemma {:induction false} SameKeysSameAbsence(a: seq<Frame>, b: seq<Frame>, x: string)
    requires |a| == |b| && forall i :: 0 <= i < |a| ==> (x in a[i] <==> x in b[i])
    ensures Lookup(a, x).None? <==> Lookup(b, x).None?
  {
    if a != [] && x !in a[0] {
      SameKeysSameAbsence(a[1..], b[1..], x);
    }
  }

  /**
  A name that is not bound in front of the branch can be read after it, where lexically it is unbound, exactly
  when the branch that runs has a `let` of it.
   */
  lemma UnboundLeakIff(m: Arith, pre: seq<Stmt>, s: Stmt, x: string, env: Env)
    requires Arrives(m, pre, s, env) && x !in Here(m, pre, env).env
    requires ScopedBefore(pre, s.cond, Taken(m, s, Here(m, pre, env).env), {x})
    requires ScopedStmts(Taken(m, s, Here(m, pre, env).env).stmts, {x})
    requires Finishes(m, Taken(m, s, Here(m, pre, env).env).stmts, Here(m, pre, env))
    ensures var body := Block(pre + [s], Some(Path([x])));
            EvalBlock(m, body, env) == LexBlock(m, body, env)
            <==> x !in Lets(Taken(m, s, Here(m, pre, env).env).stmts)
  {
    var flow := Here(m, pre, env);
    var b := Taken(m, s, flow.env);
    var lex := AtBranch(m, pre, s, {x}, env);
    BranchFinishes(m, b, {x}, flow, lex);
    var end, lexEnd := EvalStmts(m, b.stmts, flow).value, LexBranch(m, b, lex).value;
    ReadTells(m, pre + [s], env, end, lexEnd, x);
    assert SameName(x, flow, lex);
    SameKeysSameAbsence(lex.scopes, lexEnd.scopes, x);
    if x in Lets(b.stmts) {
      KeysStay(m, b.stmts, flow, x);
    } else {
      BranchSame(m, b, {x}, flow, lex);
      assert SameName(x, end, lexEnd);
    }
  }
}
