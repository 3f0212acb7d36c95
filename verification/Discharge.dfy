/**
The two discharge routes of a `@bvN` clause and what their verdicts mean. The solver is a parameter:
all that is assumed of it is that `unsat` refutes and that a printed model satisfies its query.
 */
module Discharge {
  import opened Ast
  import opened Bits
  import opened Covenant
  import opened CovenantScope
  import opened Smt
  import opened BitVector
  import opened NoWrap
  import opened BvModel
  import opened Occurrences
  import ModelText

  // ---------- Budget profiles ----------

  predicate IsConstant(e: Expr) {
    match e
    case IntLit(_) => true
    case BoolLit(_) => true
    case Binary(_, lhs, rhs) => IsConstant(lhs) && IsConstant(rhs)
    case Not(operand) => IsConstant(operand)
    case _ => false
  }

  /** A multiplication with no constant operand, the expensive case at 64 bits. */
  predicate ContainsVariableMultiply(e: Expr) {
    match e
    case Binary(op, lhs, rhs) =>
      || (op.Mul? && !IsConstant(lhs) && !IsConstant(rhs))
      || ContainsVariableMultiply(lhs) || ContainsVariableMultiply(rhs)
    case Not(operand) => ContainsVariableMultiply(operand)
    case _ => false
  }

  datatype Profile = Profile(name: string, rlimit: nat, timeout: nat)

  function ProfileFor(w: nat, req: Option<Expr>, clause: Expr): Profile {
    if w == 64 && ((req.Some? && ContainsVariableMultiply(req.value)) || ContainsVariableMultiply(clause))
    then Profile("bv64-multiplier", 2000000, 5)
    else Profile("bv-default", 0, 10)
  }

  /** The expression as the lowering sees it. */
  function EraseCasts(e: Expr): Expr {
    match e
    case Binary(op, lhs, rhs) => Binary(op, EraseCasts(lhs), EraseCasts(rhs))
    case Not(operand) => Not(EraseCasts(operand))
    case Cast(operand, _) => EraseCasts(operand)
    case _ => e
  }

  /** A multiplication both of whose operands hold a variable. */
  function Multiplier(): Expr -> bool {
    (x: Expr) => x.Binary? && x.op.Mul? && Uses(x.lhs) != {} && Uses(x.rhs) != {}
  }

  lemma {:induction false} ConstantMeans(e: Expr, w: nat)
    requires RenderTerm(e, w).Some?
    ensures IsConstant(EraseCasts(e)) <==> Uses(e) == {}
    decreases e
  {
    match e
    case Binary(_, lhs, rhs) =>
      ConstantMeans(lhs, w);
      ConstantMeans(rhs, w);
    case Not(operand) => ConstantMeans(operand, w);
    case Cast(operand, _) => ConstantMeans(operand, w);
    case Path(segments) => assert segments[0] in Uses(e);
    case _ =>
  }

  lemma HasInBinary(e: Expr)
    requires e.Binary?
    ensures Has(Multiplier(), e) <==> Multiplier()(e) || Has(Multiplier(), e.lhs) || Has(Multiplier(), e.rhs)
  {
    HasCases(Multiplier(), e);
    assert Parts(e) == [e.lhs, e.rhs];
  }

  lemma HasInOperand(e: Expr)
    requires e.Not? || e.Cast?
    ensures Has(Multiplier(), e) <==> Has(Multiplier(), e.operand)
  {
    HasCases(Multiplier(), e);
    assert Parts(e) == [e.operand];
  }

  /** In a clause that renders the scan finds every such multiplication, if casts are erased first. */
  lemma {:induction false} ScanMeans(e: Expr, w: nat)
    requires Renders(e, w)
    ensures ContainsVariableMultiply(EraseCasts(e)) <==> Has(Multiplier(), e)
    decreases e
  {
    OperandsRender(e, w);
    match e
    case Binary(op, lhs, rhs) =>
      ScanMeans(lhs, w);
      ScanMeans(rhs, w);
      HasInBinary(e);
      if op.Mul? {
        ConstantMeans(lhs, w);
        ConstantMeans(rhs, w);
      }
    case Not(operand) =>
      ScanMeans(operand, w);
      HasInOperand(e);
    case Cast(operand, _) =>
      ScanMeans(operand, w);
      HasInOperand(e);
    case _ => HasCases(Multiplier(), e);
  }

  /** The scan itself stops at a cast: of `(x * y) as u64` it sees nothing. */
  lemma CastHidesMultiplier(w: nat)
    ensures var e := Cast(Binary(Mul, Path(["x"]), Path(["y"])), Prim(U64));
            Has(Multiplier(), e) && !ContainsVariableMultiply(e)
  {
    var product := Binary(Mul, Path(["x"]), Path(["y"]));
    var e := Cast(product, Prim(U64));
    assert ContainsVariableMultiply(product) && EraseCasts(e) == product;
    assert RenderTerm(Path(["x"]), w).Some? && RenderTerm(Path(["y"]), w).Some? && RenderTerm(product, w).Some?;
    ScanMeans(e, w);
  }

  // ---------- Queries ----------

  datatype Outcome = Proved | Counterexample(bits: seq<BitPattern>) | Timeout(profile: string) | Skipped

  /** The rendered precondition; `None` is an unrenderable one, which is never dropped. */
  function RenderReq(req: Option<Expr>, w: nat): Option<seq<Prop>> {
    match req
    case None => Some([])
    case Some(r) => (match RenderProp(r, w) case Some(p) => Some([p]) case None => None)
  }

  /** Asserts the precondition and the negated clause. */
  function ValidityQuery(vars: seq<string>, req: Option<Expr>, clause: Expr, w: nat): Option<Query> {
    match (RenderProp(clause, w), RenderReq(req, w))
    case (Some(c), Some(r)) => Some(Query(vars, w, ProfileFor(w, req, clause).rlimit, r + [Neg(c)]))
    case _ => None
  }

  function Disjunction(conds: seq<Prop>): Prop {
    if |conds| == 1 then conds[0] else AnyOf(conds)
  }

  /** Asserts the precondition and the overflow disjunction. */
  function NowrapQuery(vars: seq<string>, req: Option<Expr>, clause: Expr, w: nat, conds: seq<Prop>): Option<Query> {
    match RenderReq(req, w)
    case Some(r) => Some(Query(vars, w, ProfileFor(w, req, clause).rlimit, r + [Disjunction(conds)]))
    case None => None
  }

  method Verdict(answer: Answer, vars: seq<string>, w: nat, profile: Profile) returns (r: Outcome)
    ensures answer.Unsat? <==> r.Proved?
    ensures answer.Sat? <==> r.Counterexample?
    ensures answer.Undecided? <==> r == Timeout(profile.name)
    ensures answer.NoResult? <==> r == Skipped
    ensures answer.Sat? ==>
              && |r.bits| == |vars|
              && forall i :: 0 <= i < |vars| ==> r.bits[i] == PatternFor(Collect(answer.model, 0, map[]), vars[i], w)
  {
    match answer
    case Unsat => r := Proved;
    case Sat(model) =>
      var bits := ParseBvModel(model, vars, w);
      r := Counterexample(bits);
    case Undecided => r := Timeout(profile.name);
    case NoResult => r := Skipped;
  }

  /** What a route returns for the query it built. */
  ghost predicate Answers(solver: Solver, q: Query, r: Outcome, profile: Profile) {
    match solver(q)
    case Unsat => r == Proved
    case Sat(model) =>
      && r.Counterexample? && |r.bits| == |q.vars|
      && forall i :: 0 <= i < |q.vars| ==> r.bits[i] == PatternFor(Collect(model, 0, map[]), q.vars[i], q.width)
    case Undecided => r == Timeout(profile.name)
    case NoResult => r == Skipped
  }

  /** The validity route's result. */
  ghost predicate BvResult(solver: Solver, vars: seq<string>, req: Option<Expr>, clause: Expr, w: nat, r: Outcome) {
    match ValidityQuery(vars, req, clause, w)
    case Some(q) => Answers(solver, q, r, ProfileFor(w, req, clause))
    case None => r == Skipped
  }

  /** The no-overflow route's result; a clause without overflow tests is proved without a query. */
  ghost predicate NowrapResult(solver: Solver, vars: seq<string>, req: Option<Expr>, clause: Expr, w: nat, r: Outcome) {
    match CollectOverflow(clause, w)
    case None => r == Skipped
    case Some(conds) =>
      if conds == [] then r == Proved
      else
        match NowrapQuery(vars, req, clause, w, conds)
        case Some(q) => Answers(solver, q, r, ProfileFor(w, req, clause))
        case None => r == Skipped
  }

  method DischargeBv(solver: Solver, vars: seq<string>, req: Option<Expr>, clause: Expr, w: nat) returns (r: Outcome)
    ensures BvResult(solver, vars, req, clause, w, r)
    ensures req.Some? && RenderProp(req.value, w).None? ==> r == Skipped
    ensures RenderProp(clause, w).None? ==> r == Skipped
  {
    var query := ValidityQuery(vars, req, clause, w);
    match query
    case Some(q) => r := Verdict(solver(q), vars, w, ProfileFor(w, req, clause));
    case None => r := Skipped;
  }

  method DischargeNowrap(solver: Solver, vars: seq<string>, req: Option<Expr>, clause: Expr, w: nat)
    returns (r: Outcome)
    ensures NowrapResult(solver, vars, req, clause, w, r)
    ensures var conds := CollectOverflow(clause, w);
            && (conds.None? ==> r == Skipped)
            && (conds == Some([]) ==> r == Proved)
            && (conds.Some? && conds.value != [] && req.Some? && RenderProp(req.value, w).None? ==> r == Skipped)
  {
    var collected := CollectOverflow(clause, w);
    if collected.None? {
      return Skipped;
    }
    if collected.value == [] {
      return Proved;
    }
    var query := NowrapQuery(vars, req, clause, w, collected.value);
    match query
    case Some(q) => r := Verdict(solver(q), vars, w, ProfileFor(w, req, clause));
    case None => r := Skipped;
  }

  // ---------- What `Proved` means ----------

  /** The validity query was refuted. */
  ghost predicate BvProved(solver: Solver, vars: seq<string>, req: Option<Expr>, clause: Expr, w: nat) {
    var q := ValidityQuery(vars, req, clause, w);
    q.Some? && solver(q.value) == Unsat
  }

  /** There was no overflow test, or their disjunction was refuted. */
  ghost predicate NowrapProved(solver: Solver, vars: seq<string>, req: Option<Expr>, clause: Expr, w: nat) {
    var conds := CollectOverflow(clause, w);
    && conds.Some?
    && (conds.value == [] ||
        (var q := NowrapQuery(vars, req, clause, w, conds.value); q.Some? && solver(q.value) == Unsat))
  }

  /** What the two routes return as proved is refuted. */
  lemma ProvedMeansRefuted(solver: Solver, vars: seq<string>, req: Option<Expr>, clause: Expr, w: nat, r: Outcome)
    ensures BvResult(solver, vars, req, clause, w, r) ==> (r.Proved? <==> BvProved(solver, vars, req, clause, w))
    ensures NowrapResult(solver, vars, req, clause, w, r) ==>
              (r.Proved? <==> NowrapProved(solver, vars, req, clause, w))
  {
  }

  /** The environment gives every declared variable a `w`-bit value and meets the precondition at that width. */
  ghost predicate Admissible(vars: seq<string>, req: Option<Expr>, w: nat, env: Env) {
    && (forall v :: v in vars ==> v in env && env[v].IntV? && InWidth(env[v].n, w))
    && (req.Some? ==>
          RenderProp(req.value, w).Some? && PropValue(RenderProp(req.value, w).value, w, Machine(env, w)))
  }

  lemma AdmissibleSatisfies(vars: seq<string>, req: Option<Expr>, w: nat, env: Env, rlimit: nat, rs: seq<Prop>,
                            goal: Prop)
    requires Admissible(vars, req, w, env) && RenderReq(req, w) == Some(rs)
    requires PropValue(goal, w, Machine(env, w))
    ensures Satisfies(Machine(env, w), Query(vars, w, rlimit, rs + [goal]))
  {
    var q := Query(vars, w, rlimit, rs + [goal]);
    forall v | v in q.vars
      ensures 0 <= Read(Machine(env, w), v) < Pow2(w)
    {
      assert v in env;
    }
    forall p | p in q.asserts
      ensures PropValue(p, w, Machine(env, w))
    {
      if p != goal {
        assert p in rs;
      }
    }
  }

  lemma DisjunctionValue(conds: seq<Prop>, w: nat, a: Assignment)
    requires conds != []
    ensures PropValue(Disjunction(conds), w, a) <==> SomeTrue(conds, w, a)
  {
    if |conds| == 1 {
      assert conds[0] in conds;
      assert forall c :: c in conds ==> c == conds[0];
    }
  }

  lemma RefutedClauseHolds(solver: Solver, vars: seq<string>, req: Option<Expr>, clause: Expr, w: nat, env: Env)
    requires Refutes(solver) && BvProved(solver, vars, req, clause, w) && Admissible(vars, req, w, env)
    ensures PropValue(RenderProp(clause, w).value, w, Machine(env, w))
  {
    var c, rs := RenderProp(clause, w).value, RenderReq(req, w).value;
    var q := ValidityQuery(vars, req, clause, w).value;
    if !PropValue(c, w, Machine(env, w)) {
      AdmissibleSatisfies(vars, req, w, env, q.rlimit, rs, Neg(c));
    }
  }

  lemma RefutedNowrapIsQuiet(solver: Solver, vars: seq<string>, req: Option<Expr>, clause: Expr, w: nat, env: Env)
    requires Refutes(solver) && NowrapProved(solver, vars, req, clause, w) && Admissible(vars, req, w, env)
    ensures !Overflows(clause, w, env)
  {
    var conds := CollectOverflow(clause, w).value;
    if conds != [] && SomeTrue(conds, w, Machine(env, w)) {
      var q := NowrapQuery(vars, req, clause, w, conds).value;
      DisjunctionValue(conds, w, Machine(env, w));
      AdmissibleSatisfies(vars, req, w, env, q.rlimit, RenderReq(req, w).value, Disjunction(conds));
    }
  }

  // ---------- Names ----------

  lemma {:induction false} TermUses(e: Expr, w: nat)
    requires RenderTerm(e, w).Some?
    ensures Uses(e) == TermNames(RenderTerm(e, w).value)
    decreases e
  {
    match e
    case Binary(_, lhs, rhs) =>
      TermUses(lhs, w);
      TermUses(rhs, w);
    case Cast(operand, _) => TermUses(operand, w);
    case Not(operand) => TermUses(operand, w);
    case _ =>
  }

  lemma {:induction false} PropUses(e: Expr, w: nat)
    requires RenderProp(e, w).Some?
    ensures Uses(e) == PropNames(RenderProp(e, w).value)
    decreases e
  {
    match e
    case Binary(op, lhs, rhs) =>
      if RelOf(op).Some? {
        TermUses(lhs, w);
        TermUses(rhs, w);
      } else {
        PropUses(lhs, w);
        PropUses(rhs, w);
      }
    case Not(operand) => PropUses(operand, w);
    case _ =>
  }

  /** A refuted query declares every variable of its clause. */
  lemma ClauseIsDeclared(solver: Solver, vars: seq<string>, req: Option<Expr>, clause: Expr, w: nat, x: string)
    requires Refutes(solver) && BvProved(solver, vars, req, clause, w) && x in Uses(clause)
    ensures x in vars
  {
    PropUses(clause, w);
    var q := ValidityQuery(vars, req, clause, w).value;
    var goal := q.asserts[|q.asserts| - 1];
    assert goal in q.asserts && x in PropNames(goal);
  }

  /**
  Transfer for every clause that renders: proved by both routes it is true over the unbounded integers, and in
  every build, at every admissible environment where what the overflow tests do not look at is safe.
   */
  lemma SafeTransfer(m: Arith, solver: Solver, vars: seq<string>, req: Option<Expr>, clause: Expr, w: nat, env: Env)
    requires Refutes(solver) && IsTagWidth(w)
    requires BvProved(solver, vars, req, clause, w) && NowrapProved(solver, vars, req, clause, w)
    requires Admissible(vars, req, w, env) && SafeProp(clause, w, env)
    ensures EvalExpr(m, clause, env) == Ok(BoolV(true))
  {
    forall x | x in Uses(clause)
      ensures x in env && env[x].IntV? && InWidth(env[x].n, w)
    {
      ClauseIsDeclared(solver, vars, req, clause, w, x);
    }
    RefutedNowrapIsQuiet(solver, vars, req, clause, w, env);
    SafePropIsExact(m, clause, w, env);
    RefutedClauseHolds(solver, vars, req, clause, w, env);
  }

  /**
  Transfer: when both routes return `Proved` for a clause, it is true over the unbounded integers, and in
  every build, at every assignment of `w`-bit values that meets the precondition at width `w`.
   */
  lemma Transfer(m: Arith, solver: Solver, vars: seq<string>, req: Option<Expr>, clause: Expr, w: nat,
                 bv: Outcome, nowrap: Outcome, env: Env)
    requires Refutes(solver) && IsTagWidth(w) && IsExactProp(clause, w)
    requires BvResult(solver, vars, req, clause, w, bv) && bv.Proved?
    requires NowrapResult(solver, vars, req, clause, w, nowrap) && nowrap.Proved?
    requires Admissible(vars, req, w, env)
    ensures EvalExpr(m, clause, env) == Ok(BoolV(true))
  {
    ProvedMeansRefuted(solver, vars, req, clause, w, bv);
    ProvedMeansRefuted(solver, vars, req, clause, w, nowrap);
    ExactPropIsSafe(clause, w, env);
    SafeTransfer(m, solver, vars, req, clause, w, env);
  }

  // ---------- What `Counterexample` means ----------

  /** The assignment that a printed model describes, zero where it says nothing. */
  ghost function Described(bs: seq<ModelText.Binding>): Assignment {
    map v | v in ModelText.Bound(bs, map[]) :: ModelText.Bound(bs, map[])[v] as int
  }

  /** `sat` comes with a printed model that satisfies the query. */
  ghost predicate Witnesses(solver: Solver, q: Query) {
    solver(q).Sat? ==>
      exists bs, sep, gap ::
        && solver(q).model == ModelText.PrintModel(bs, q.width, sep, gap)
        && ModelText.Layout(sep, gap) && (sep != [] ==> sep[0] != 'd')
        && ModelText.Printable(bs, q.width) && Satisfies(Described(bs), q)
  }

  ghost predicate DescribedBy(bits: seq<BitPattern>, vars: seq<string>, a: Assignment) {
    |bits| == |vars| && forall i :: 0 <= i < |vars| ==> bits[i].name == vars[i] && bits[i].value == Read(a, vars[i])
  }

  /** The reported patterns are a satisfying assignment of the query. */
  lemma CounterexampleSatisfies(solver: Solver, q: Query, r: Outcome, p: Profile)
    requires Answers(solver, q, r, p) && r.Counterexample? && Witnesses(solver, q) && ModelText.HexWidth(q.width)
    ensures exists a :: Satisfies(a, q) && DescribedBy(r.bits, q.vars, a)
  {
    var bs, sep, gap :|
      && solver(q).model == ModelText.PrintModel(bs, q.width, sep, gap)
      && ModelText.Layout(sep, gap) && (sep != [] ==> sep[0] != 'd')
      && ModelText.Printable(bs, q.width) && Satisfies(Described(bs), q);
    var a := Described(bs);
    forall i | 0 <= i < |q.vars|
      ensures r.bits[i].name == q.vars[i] && r.bits[i].value == Read(a, q.vars[i])
    {
      ModelText.ModelRoundTrip(bs, q.width, sep, gap, q.vars[i]);
    }
    assert DescribedBy(r.bits, q.vars, a);
  }

  /** The assignment gives every declared variable a `w`-bit value and meets the precondition, which renders. */
  ghost predicate MeetsReq(vars: seq<string>, req: Option<Expr>, w: nat, a: Assignment) {
    && (forall v :: v in vars ==> 0 <= Read(a, v) < Pow2(w))
    && (req.Some? ==> RenderProp(req.value, w).Some? && PropValue(RenderProp(req.value, w).value, w, a))
  }

  /** A counterexample of the validity route meets the precondition and falsifies the clause at width `w`. */
  lemma BvCounterexampleIsReal(solver: Solver, vars: seq<string>, req: Option<Expr>, clause: Expr, w: nat, r: Outcome)
    requires BvResult(solver, vars, req, clause, w, r) && r.Counterexample? && ModelText.HexWidth(w)
    requires forall q :: Witnesses(solver, q)
    ensures RenderProp(clause, w).Some?
    ensures exists a ::
              && DescribedBy(r.bits, vars, a) && MeetsReq(vars, req, w, a)
              && !PropValue(RenderProp(clause, w).value, w, a)
  {
    var q := ValidityQuery(vars, req, clause, w).value;
    CounterexampleSatisfies(solver, q, r, ProfileFor(w, req, clause));
    var a :| Satisfies(a, q) && DescribedBy(r.bits, q.vars, a);
    AssertedReq(vars, req, w, q, Neg(RenderProp(clause, w).value), a);
  }

  /** A counterexample of the no-overflow route meets the precondition and makes a collected condition true. */
  lemma NowrapCounterexampleMeetsReq(solver: Solver, vars: seq<string>, req: Option<Expr>, clause: Expr, w: nat,
                                     r: Outcome)
    requires NowrapResult(solver, vars, req, clause, w, r) && r.Counterexample? && ModelText.HexWidth(w)
    requires forall q :: Witnesses(solver, q)
    ensures CollectOverflow(clause, w).Some?
    ensures exists a ::
              && DescribedBy(r.bits, vars, a) && MeetsReq(vars, req, w, a)
              && SomeTrue(CollectOverflow(clause, w).value, w, a)
  {
    var conds := CollectOverflow(clause, w).value;
    var q := NowrapQuery(vars, req, clause, w, conds).value;
    CounterexampleSatisfies(solver, q, r, ProfileFor(w, req, clause));
    var a :| Satisfies(a, q) && DescribedBy(r.bits, q.vars, a);
    AssertedReq(vars, req, w, q, Disjunction(conds), a);
    DisjunctionValue(conds, w, a);
  }

  /** What a satisfying assignment of a query of this shape says of its precondition and its goal. */
  lemma AssertedReq(vars: seq<string>, req: Option<Expr>, w: nat, q: Query, goal: Prop, a: Assignment)
    requires RenderReq(req, w).Some? && q.vars == vars && q.width == w
    requires q.asserts == RenderReq(req, w).value + [goal] && Satisfies(a, q)
    ensures MeetsReq(vars, req, w, a) && PropValue(goal, w, a)
  {
    assert goal in q.asserts;
    if req.Some? && RenderProp(req.value, w).Some? {
      assert RenderReq(req, w).value == [RenderProp(req.value, w).value];
      assert RenderProp(req.value, w).value in q.asserts;
    }
  }

  // ---------- When a clause is proved ----------

  ghost predicate AgreeOn(names: set<string>, a: Assignment, b: Assignment) {
    forall x :: x in names ==> Read(a, x) == Read(b, x)
  }

  lemma {:induction false} TermSame(t: Term, w: nat, a: Assignment, b: Assignment)
    requires AgreeOn(TermNames(t), a, b)
    ensures TermValue(t, w, a) == TermValue(t, w, b)
  {
    match t
    case Const(_, _) =>
    case Var(x) => assert x in TermNames(t);
    case App(_, l, r) =>
      TermSame(l, w, a, b);
      TermSame(r, w, a, b);
    case BvNot(u) => TermSame(u, w, a, b);
    case ZeroExtend(_, u) => TermSame(u, w, a, b);
    case Extract(_, _, u) => TermSame(u, w, a, b);
  }

  lemma {:induction false} PropSame(p: Prop, w: nat, a: Assignment, b: Assignment)
    requires AgreeOn(PropNames(p), a, b)
    ensures PropValue(p, w, a) == PropValue(p, w, b)
  {
    match p
    case Truth(_) =>
    case Compare(_, l, r) =>
      TermSame(l, w, a, b);
      TermSame(r, w, a, b);
    case Neg(q) => PropSame(q, w, a, b);
    case Conj(q, r) =>
      PropSame(q, w, a, b);
      PropSame(r, w, a, b);
    case Disj(q, r) =>
      PropSame(q, w, a, b);
      PropSame(r, w, a, b);
    case AnyOf(ps) =>
      forall q | q in ps
        ensures PropValue(q, w, a) == PropValue(q, w, b)
      {
        assert forall x :: x in PropNames(q) ==> x in PropNames(p);
        PropSame(q, w, a, b);
      }
  }

  /** The environment that gives each declared variable its assigned value. */
  function EnvOf(vars: seq<string>, a: Assignment): Env {
    map v | v in vars :: IntV(Read(a, v))
  }

  /** A satisfying assignment is, read as an environment, the same assignment on the declared names. */
  lemma SatisfyingEnv(a: Assignment, q: Query, names: set<string>)
    requires Satisfies(a, q) && forall x :: x in names ==> x in q.vars
    ensures AgreeOn(names, a, Machine(EnvOf(q.vars, a), q.width))
  {
    forall x | x in names
      ensures Read(a, x) == Read(Machine(EnvOf(q.vars, a), q.width), x)
    {
      ModSmall(Read(a, x), Pow2(q.width));
    }
  }

  /** A query of this shape has a satisfying assignment exactly when an admissible environment makes its goal true. */
  lemma SatisfiableIff(vars: seq<string>, req: Option<Expr>, w: nat, rlimit: nat, rs: seq<Prop>, goal: Prop)
    requires RenderReq(req, w) == Some(rs) && Declared(Query(vars, w, rlimit, rs + [goal]))
    ensures (exists a :: Satisfies(a, Query(vars, w, rlimit, rs + [goal])))
            <==> exists env :: Admissible(vars, req, w, env) && PropValue(goal, w, Machine(env, w))
  {
    var q := Query(vars, w, rlimit, rs + [goal]);
    forall a | Satisfies(a, q)
      ensures Admissible(vars, req, w, EnvOf(vars, a)) && PropValue(goal, w, Machine(EnvOf(vars, a), w))
    {
      AssignmentIsAdmissible(a, vars, req, w, rlimit, rs, goal);
    }
    forall env | Admissible(vars, req, w, env) && PropValue(goal, w, Machine(env, w))
      ensures Satisfies(Machine(env, w), q)
    {
      AdmissibleSatisfies(vars, req, w, env, rlimit, rs, goal);
    }
  }

  lemma AssignmentIsAdmissible(a: Assignment, vars: seq<string>, req: Option<Expr>, w: nat, rlimit: nat,
                               rs: seq<Prop>, goal: Prop)
    requires RenderReq(req, w) == Some(rs) && Declared(Query(vars, w, rlimit, rs + [goal]))
    requires Satisfies(a, Query(vars, w, rlimit, rs + [goal]))
    ensures Admissible(vars, req, w, EnvOf(vars, a)) && PropValue(goal, w, Machine(EnvOf(vars, a), w))
  {
    var q := Query(vars, w, rlimit, rs + [goal]);
    var env := EnvOf(vars, a);
    assert goal in q.asserts;
    SatisfyingEnv(a, q, PropNames(goal));
    PropSame(goal, w, a, Machine(env, w));
    if req.Some? {
      var p := rs[0];
      assert p in q.asserts;
      SatisfyingEnv(a, q, PropNames(p));
      PropSame(p, w, a, Machine(env, w));
    }
  }

  /** Both queries of the clause mention only declared variables. */
  ghost predicate WellDeclared(vars: seq<string>, req: Option<Expr>, clause: Expr, w: nat) {
    && RenderReq(req, w).Some?
    && (forall p :: p in RenderReq(req, w).value ==> forall x :: x in PropNames(p) ==> x in vars)
    && forall x :: x in Uses(clause) ==> x in vars
  }

  lemma WellDeclaredQuery(vars: seq<string>, req: Option<Expr>, clause: Expr, w: nat, rlimit: nat, goal: Prop)
    requires WellDeclared(vars, req, clause, w) && PropNames(goal) <= Uses(clause)
    ensures Declared(Query(vars, w, rlimit, RenderReq(req, w).value + [goal]))
  {
  }

  /**
  With a solver that decides its queries, a clause is proved exactly when it is true at width `w` at every
  admissible environment.
   */
  lemma BvProvedIff(solver: Solver, vars: seq<string>, req: Option<Expr>, clause: Expr, w: nat)
    requires Decides(solver) && RenderProp(clause, w).Some? && WellDeclared(vars, req, clause, w)
    ensures BvProved(solver, vars, req, clause, w)
            <==> forall env :: Admissible(vars, req, w, env) ==>
                  PropValue(RenderProp(clause, w).value, w, Machine(env, w))
  {
    PropUses(clause, w);
    var c, rs := RenderProp(clause, w).value, RenderReq(req, w).value;
    var q := ValidityQuery(vars, req, clause, w).value;
    WellDeclaredQuery(vars, req, clause, w, q.rlimit, Neg(c));
    SatisfiableIff(vars, req, w, q.rlimit, rs, Neg(c));
    if env :| Admissible(vars, req, w, env) && !PropValue(c, w, Machine(env, w)) {
      assert PropValue(Neg(c), w, Machine(env, w));
    }
  }

  lemma TestNames(op: BinOp, l: Term, r: Term, w: nat)
    ensures PropNames(OverflowTest(op, l, r, w)) <= TermNames(l) + TermNames(r)
  {
    var product := App(BvMul, ZeroExtend(w, l), ZeroExtend(w, r));
    assert TermNames(product) == TermNames(l) + TermNames(r);
  }

  lemma OwnConditionNames(e: Expr, w: nat, p: Prop)
    requires e.Binary?
    ensures var own := OverflowCondition(e.op, e.lhs, e.rhs, w);
            own.Some? && p in own.value ==> PropNames(p) <= Uses(e)
  {
    var own := OverflowCondition(e.op, e.lhs, e.rhs, w);
    if own.Some? && p in own.value {
      TermUses(e.lhs, w);
      TermUses(e.rhs, w);
      TestNames(e.op, RenderTerm(e.lhs, w).value, RenderTerm(e.rhs, w).value, w);
    }
  }

  lemma {:induction false} ConditionNames(e: Expr, w: nat, p: Prop)
    requires CollectOverflow(e, w).Some? && p in CollectOverflow(e, w).value
    ensures PropNames(p) <= Uses(e)
    decreases e
  {
    match e
    case Binary(op, lhs, rhs) =>
      OwnConditionNames(e, w, p);
      if p in CollectOverflow(lhs, w).value {
        ConditionNames(lhs, w, p);
      } else if p in CollectOverflow(rhs, w).value {
        ConditionNames(rhs, w, p);
      }
    case Not(operand) => ConditionNames(operand, w, p);
    case Cast(operand, _) => ConditionNames(operand, w, p);
    case _ =>
  }

  lemma DisjunctionNames(e: Expr, w: nat)
    requires CollectOverflow(e, w).Some? && CollectOverflow(e, w).value != []
    ensures PropNames(Disjunction(CollectOverflow(e, w).value)) <= Uses(e)
  {
    var conds := CollectOverflow(e, w).value;
    forall p | p in conds
      ensures PropNames(p) <= Uses(e)
    {
      ConditionNames(e, w, p);
    }
    assert conds[0] in conds;
  }

  /** The no-overflow obligation is proved exactly when no admissible environment makes a condition true. */
  lemma NowrapProvedIff(solver: Solver, vars: seq<string>, req: Option<Expr>, clause: Expr, w: nat)
    requires Decides(solver) && RenderProp(clause, w).Some? && WellDeclared(vars, req, clause, w)
    ensures NowrapProved(solver, vars, req, clause, w)
            <==> forall env :: Admissible(vars, req, w, env) ==> !Overflows(clause, w, env)
  {
    PropRenders(clause, w);
    var conds, rs := CollectOverflow(clause, w).value, RenderReq(req, w).value;
    if conds != [] {
      var goal := Disjunction(conds);
      var q := NowrapQuery(vars, req, clause, w, conds).value;
      DisjunctionNames(clause, w);
      WellDeclaredQuery(vars, req, clause, w, q.rlimit, goal);
      SatisfiableIff(vars, req, w, q.rlimit, rs, goal);
      forall env
        ensures PropValue(goal, w, Machine(env, w)) <==> Overflows(clause, w, env)
      {
        DisjunctionValue(conds, w, Machine(env, w));
      }
    }
  }

  /**
  Every clause that renders: both routes prove it exactly when, at every admissible environment, it is true at
  width `w` and no `+`, `-` or `*` in it wraps.
   */
  lemma MachineProvedIff(solver: Solver, vars: seq<string>, req: Option<Expr>, clause: Expr, w: nat)
    requires Decides(solver) && IsTagWidth(w) && RenderProp(clause, w).Some? && WellDeclared(vars, req, clause, w)
    ensures BvProved(solver, vars, req, clause, w) && NowrapProved(solver, vars, req, clause, w)
            <==> forall env :: Admissible(vars, req, w, env) ==>
                  && PropValue(RenderProp(clause, w).value, w, Machine(env, w))
                  && !SomeStepLeaves(clause, w, env)
  {
    BvProvedIff(solver, vars, req, clause, w);
    NowrapProvedIff(solver, vars, req, clause, w);
    forall env
      ensures Overflows(clause, w, env) <==> SomeStepLeaves(clause, w, env)
    {
      OverflowsMeans(clause, w, env);
    }
  }

  /** Over the unbounded integers: every term of the clause stays within the width and the clause is true. */
  ghost predicate HoldsExactly(clause: Expr, w: nat, env: Env) {
    !SomeLeaves(ClauseTerms(clause), w, env) && EvalExpr(Exact, clause, env) == Ok(BoolV(true))
  }

  /**
  Both routes prove a clause exactly when, at every admissible environment, its exact integer terms all
  stay within the width and it is true over the integers.
   */
  lemma BothProvedIff(solver: Solver, vars: seq<string>, req: Option<Expr>, clause: Expr, w: nat)
    requires Decides(solver) && IsTagWidth(w) && IsExactProp(clause, w) && WellDeclared(vars, req, clause, w)
    ensures BvProved(solver, vars, req, clause, w) && NowrapProved(solver, vars, req, clause, w)
            <==> forall env :: Admissible(vars, req, w, env) ==> HoldsExactly(clause, w, env)
  {
    ExactPropIsSafe(clause, w, map[]);
    BvProvedIff(solver, vars, req, clause, w);
    NowrapProvedIff(solver, vars, req, clause, w);
    forall env | Admissible(vars, req, w, env)
      ensures !Overflows(clause, w, env) && PropValue(RenderProp(clause, w).value, w, Machine(env, w))
              <==> HoldsExactly(clause, w, env)
    {
      ClauseOverflowIff(clause, w, env);
      ExactPropIsSafe(clause, w, env);
      if !Overflows(clause, w, env) {
        SafePropIsExact(Exact, clause, w, env);
      }
    }
  }

  /** A reported overflow witness meets the precondition and drives some exact term out of the width. */
  lemma NowrapCounterexampleIsReal(solver: Solver, vars: seq<string>, req: Option<Expr>, clause: Expr, w: nat,
                                   q: Query, r: Outcome, p: Profile)
    requires IsTagWidth(w) && IsExactProp(clause, w) && WellDeclared(vars, req, clause, w)
    requires CollectOverflow(clause, w).Some? && CollectOverflow(clause, w).value != []
    requires NowrapQuery(vars, req, clause, w, CollectOverflow(clause, w).value) == Some(q)
    requires Answers(solver, q, r, p) && r.Counterexample? && Witnesses(solver, q)
    ensures exists a ::
              && DescribedBy(r.bits, vars, a) && Admissible(vars, req, w, EnvOf(vars, a))
              && SomeLeaves(ClauseTerms(clause), w, EnvOf(vars, a))
  {
    CounterexampleSatisfies(solver, q, r, p);
    var a :| Satisfies(a, q) && DescribedBy(r.bits, q.vars, a);
    var conds := CollectOverflow(clause, w).value;
    var env := EnvOf(vars, a);
    DisjunctionNames(clause, w);
    WellDeclaredQuery(vars, req, clause, w, q.rlimit, Disjunction(conds));
    AssignmentIsAdmissible(a, vars, req, w, q.rlimit, RenderReq(req, w).value, Disjunction(conds));
    DisjunctionValue(conds, w, Machine(env, w));
    ClauseOverflowIff(clause, w, env);
  }

  // ---------- Where the two routes prove too much ----------

  lemma ValidIsProved(solver: Solver, vars: seq<string>, clause: Expr, w: nat, c: Prop)
    requires Decides(solver) && RenderProp(clause, w) == Some(c) && forall x :: x in PropNames(c) ==> x in vars
    requires forall a :: (forall v :: v in vars ==> 0 <= Read(a, v) < Pow2(w)) ==> PropValue(c, w, a)
    ensures BvProved(solver, vars, None, clause, w)
  {
    var q := ValidityQuery(vars, None, clause, w).value;
    forall a | forall p :: p in q.asserts ==> PropValue(p, w, a)
      ensures !Satisfies(a, q)
    {
      assert Neg(c) in q.asserts && !PropValue(c, w, a);
      assert q.vars == vars && q.width == w;
    }
  }

  lemma ByteWidth()
    ensures Pow2(8) == 256
  {
    Pow2Values();
  }

  lemma NothingCollected(op: BinOp, lhs: Expr, rhs: Expr, w: nat)
    requires op in {Shl, Div, Le, Ge}
    requires CollectOverflow(lhs, w) == Some([]) && CollectOverflow(rhs, w) == Some([])
    ensures CollectOverflow(Binary(op, lhs, rhs), w) == Some([])
  {
    var none: seq<Prop> := [];
    assert none + none + none == none;
  }

  function ShiftClause(): Expr {
    Binary(Le, Binary(Shl, Path(["x"]), IntLit(7)), IntLit(255))
  }

  function ShiftProp(): Prop {
    Compare(Ule, App(BvShl, Var("x"), Const(7, 8)), Const(255, 8))
  }

  lemma ShiftRendering()
    ensures RenderProp(ShiftClause(), 8) == Some(ShiftProp()) && CollectOverflow(ShiftClause(), 8) == Some([])
  {
    ByteWidth();
    NothingCollected(Shl, Path(["x"]), IntLit(7), 8);
    NothingCollected(Le, ShiftClause().lhs, IntLit(255), 8);
  }

  lemma ShiftFits(a: Assignment)
    ensures PropValue(ShiftProp(), 8, a)
  {
    ByteWidth();
  }

  lemma ShiftValue()
    ensures EvalExpr(Exact, ShiftClause(), map["x" := IntV(2)]) == Ok(BoolV(false))
  {
    assert Pow2(7) == 2 * Pow2(6);
    ByteWidth();
  }

  /** `x << 7 <= 255` is proved at width 8, no-overflow obligation included, and is false over the integers at 2. */
  lemma ShiftEscapesNowrap(solver: Solver)
    requires Decides(solver)
    ensures BvProved(solver, ["x"], None, ShiftClause(), 8) && NowrapProved(solver, ["x"], None, ShiftClause(), 8)
    ensures EvalExpr(Exact, ShiftClause(), map["x" := IntV(2)]) == Ok(BoolV(false))
  {
    ShiftRendering();
    forall a
      ensures PropValue(ShiftProp(), 8, a)
    {
      ShiftFits(a);
    }
    ValidIsProved(solver, ["x"], ShiftClause(), 8, ShiftProp());
    ShiftValue();
  }

  function LiteralClause(): Expr {
    Binary(Ge, Path(["x"]), IntLit(256))
  }

  lemma LiteralRendering()
    ensures RenderProp(LiteralClause(), 8) == Some(Compare(Uge, Var("x"), Const(0, 8)))
    ensures CollectOverflow(LiteralClause(), 8) == Some([])
  {
    ByteWidth();
    NothingCollected(Ge, Path(["x"]), IntLit(256), 8);
  }

  /** `x >= 256` is proved at width 8 because its literal is reduced to 0, and is false over the integers everywhere. */
  lemma LiteralEscapesWidth(solver: Solver, n: nat)
    requires Decides(solver) && n < 256
    ensures BvProved(solver, ["x"], None, LiteralClause(), 8) && NowrapProved(solver, ["x"], None, LiteralClause(), 8)
    ensures EvalExpr(Exact, LiteralClause(), map["x" := IntV(n)]) == Ok(BoolV(false))
  {
    LiteralRendering();
    ValidIsProved(solver, ["x"], LiteralClause(), 8, Compare(Uge, Var("x"), Const(0, 8)));
  }

  function DivisionClause(): Expr {
    Binary(Le, Binary(Div, Path(["x"]), Path(["y"])), IntLit(255))
  }

  function DivisionProp(): Prop {
    Compare(Ule, App(BvUdiv, Var("x"), Var("y")), Const(255, 8))
  }

  lemma DivisionRendering()
    ensures RenderProp(DivisionClause(), 8) == Some(DivisionProp()) && CollectOverflow(DivisionClause(), 8) == Some([])
  {
    ByteWidth();
    NothingCollected(Div, Path(["x"]), Path(["y"]), 8);
    NothingCollected(Le, DivisionClause().lhs, IntLit(255), 8);
  }

  lemma DivisionFits(a: Assignment)
    requires 0 <= Read(a, "x") < 256 && 0 <= Read(a, "y") < 256
    ensures PropValue(DivisionProp(), 8, a)
  {
    ByteWidth();
    AppliedInWidth(BvUdiv, Read(a, "x"), Read(a, "y"), 8);
  }

  lemma DivisionTraps(m: Arith, n: int)
    ensures EvalExpr(m, DivisionClause(), map["x" := IntV(n), "y" := IntV(0)]) == Err(Trap)
  {
    var env := map["x" := IntV(n), "y" := IntV(0)];
    assert EvalExpr(m, Path(["x"]), env) == Ok(IntV(n)) && EvalExpr(m, Path(["y"]), env) == Ok(IntV(0));
    EvalOnInts(m, DivisionClause().lhs, env, n, 0);
  }

  /** `x / y <= 255` is proved at width 8, where a quotient by 0 is all ones, and traps at every `x` when `y` is 0. */
  lemma DivisionEscapes(m: Arith, solver: Solver, n: nat)
    requires Decides(solver)
    ensures BvProved(solver, ["x", "y"], None, DivisionClause(), 8)
    ensures NowrapProved(solver, ["x", "y"], None, DivisionClause(), 8)
    ensures EvalExpr(m, DivisionClause(), map["x" := IntV(n), "y" := IntV(0)]) == Err(Trap)
  {
    DivisionRendering();
    ByteWidth();
    forall a | forall v :: v in ["x", "y"] ==> 0 <= Read(a, v) < Pow2(8)
      ensures PropValue(DivisionProp(), 8, a)
    {
      assert "x" in ["x", "y"] && "y" in ["x", "y"];
      DivisionFits(a);
    }
    ValidIsProved(solver, ["x", "y"], DivisionClause(), 8, DivisionProp());
    DivisionTraps(m, n);
  }
}
