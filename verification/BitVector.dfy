/**
The lowering of forge/src/bitvector.rs from expressions to QF_BV, the no-overflow side conditions,
and the two discharge routes, related to the covenant evaluator's reading of the same expressions.
 */
module BitVector {
  import opened Ast
  import opened Bits
  import opened Covenant
  import opened CovenantScope
  import opened Smt

  // ---------- The lowering ----------

  function TermOpOf(op: BinOp): Option<TermOp> {
    match op
    case Add => Some(BvAdd)
    case Sub => Some(BvSub)
    case Mul => Some(BvMul)
    case Div => Some(BvUdiv)
    case Rem => Some(BvUrem)
    case Shl => Some(BvShl)
    case Shr => Some(BvLshr)
    case BitAnd => Some(BvAnd)
    case BitOr => Some(BvOr)
    case BitXor => Some(BvXor)
    case _ => None
  }

  /** `None` is the source's out-of-fragment error. Casts are erased and literals reduced to the width. */
  function RenderTerm(e: Expr, w: nat): Option<Term> {
    match e
    case IntLit(value) => Some(Const(value % Pow2(w), w))
    case Path(segments) => if |segments| == 1 then Some(Var(segments[0])) else None
    case Binary(op, lhs, rhs) =>
      (match (TermOpOf(op), RenderTerm(lhs, w), RenderTerm(rhs, w))
       case (Some(sym), Some(l), Some(r)) => Some(App(sym, l, r))
       case _ => None)
    case Not(operand) => (match RenderTerm(operand, w) case Some(t) => Some(BvNot(t)) case None => None)
    case Cast(operand, _) => RenderTerm(operand, w)
    case _ => None
  }

  function RelOf(op: BinOp): Option<Rel> {
    match op
    case Eq => Some(Equal)
    case Ne => Some(Equal)
    case Lt => Some(Ult)
    case Le => Some(Ule)
    case Gt => Some(Ugt)
    case Ge => Some(Uge)
    case _ => None
  }

  function RenderProp(e: Expr, w: nat): Option<Prop> {
    match e
    case BoolLit(b) => Some(Truth(b))
    case Binary(op, lhs, rhs) =>
      if RelOf(op).Some? then
        match (RenderTerm(lhs, w), RenderTerm(rhs, w))
        case (Some(l), Some(r)) =>
          var cmp := Compare(RelOf(op).value, l, r);
          Some(if op.Ne? then Neg(cmp) else cmp)
        case _ => None
      else if IsLogical(op) then
        match (RenderProp(lhs, w), RenderProp(rhs, w))
        case (Some(p), Some(q)) => Some(if op.And? then Conj(p, q) else Disj(p, q))
        case _ => None
      else None
    case Not(operand) => (match RenderProp(operand, w) case Some(p) => Some(Neg(p)) case None => None)
    case _ => None
  }

  /** The integer variables of an environment as `w`-bit values. */
  function Machine(env: Env, w: nat): Assignment {
    map x | x in env && env[x].IntV? :: env[x].n % Pow2(w)
  }

  /** The tag widths are 8, 16, 32 and 64. */
  predicate IsTagWidth(w: nat) {
    w in {8, 16, 32, 64}
  }

  lemma RenderedWidth(e: Expr, w: nat)
    ensures RenderTerm(e, w).Some? ==> WidthIn(RenderTerm(e, w).value, w) == w
  {
  }

  // ---------- Machine values are the evaluator's values modulo 2^w ----------

  /** Operators whose low bits depend only on the low bits of their operands. */
  predicate IsRingOp(op: BinOp) {
    op in {Add, Sub, Mul, BitAnd, BitOr, BitXor}
  }

  /** Terms of such operators, `!`, `<<` by a literal the evaluator accepts, and casts that keep `w` bits. */
  predicate IsRingTerm(e: Expr, w: nat) {
    match e
    case IntLit(_) => true
    case Path(segments) => |segments| == 1
    case Binary(op, lhs, rhs) =>
      IsRingTerm(lhs, w) && if op.Shl? then rhs.IntLit? && rhs.value < 128 else IsRingOp(op) && IsRingTerm(rhs, w)
    case Not(operand) => IsRingTerm(operand, w)
    case Cast(operand, ty) => KeepsWidth(ty, w) && IsRingTerm(operand, w)
    case _ => false
  }

  predicate KeepsWidth(ty: Type, w: nat) {
    ty.Prim? && WidthOf(ty.prim).Some? && WidthOf(ty.prim).value >= w
  }

  ghost predicate IntsBound(names: set<string>, env: Env) {
    forall x :: x in names ==> x in env && env[x].IntV?
  }

  lemma WrapMod(n: int, w: nat)
    requires w <= 128
    ensures Wrap(n) % Pow2(w) == n % Pow2(w)
  {
    Pow2Values();
    Pow2Sum(128 - w, w);
    var k := (n + LIMIT) / (2 * LIMIT);
    var p, q := Pow2(128 - w), Pow2(w);
    assert n + LIMIT == k * (2 * LIMIT) + (n + LIMIT) % (2 * LIMIT);
    assert Wrap(n) == n - k * (p * q);
    MulAssoc(-k, p, q);
    ModShift(n, -k * p, q);
  }

  /** `!n` is `-n - 1`, whose residue is the complement of the residue of `n`. */
  lemma NotMod(n: int, m: int)
    requires m > 0
    ensures (-n - 1) % m == m - 1 - n % m
  {
    var q := n / m;
    assert n == q * m + n % m;
    assert (-q - 1) * m == -(q * m) - m;
    ModIs(-n - 1, m - 1 - n % m, -q - 1, m);
  }

  lemma ShlMod(a: int, k: nat, w: nat)
    ensures (a * Pow2(k)) % Pow2(w) == if k < w then ((a % Pow2(w)) * Pow2(k)) % Pow2(w) else 0
  {
    var m := Pow2(w);
    if k < w {
      ModMul(a, Pow2(k), m);
      Pow2Monotone(k + 1, w);
      ModSmall(Pow2(k), m);
    } else {
      Pow2Sum(k - w, w);
      MulAssoc(a, Pow2(k - w), m);
      ModIs(a * Pow2(k), 0, a * Pow2(k - w), m);
    }
  }

  /** One ring operator, from residues to residue. */
  lemma RingOpMod(m: Arith, op: BinOp, a: int, b: int, w: nat)
    requires IsRingOp(op) && w <= 64
    ensures var r := OnInts(m, op, a, b);
            && (r.Err? ==> m == Checked && r.error == Overflow)
            && (r.Ok? ==> r.value.IntV?
                          && r.value.n % Pow2(w) == Apply(TermOpOf(op).value, a % Pow2(w), b % Pow2(w), w))
  {
    var p := Pow2(w);
    match op
    case Add => ModAdd(a, b, p); WrapMod(a + b, w);
    case Sub => ModSub(a, b, p); WrapMod(a - b, w);
    case Mul => ModMul(a, b, p); WrapMod(a * b, w);
    case BitAnd => BitwiseMod(AndBit, a, b, w);
    case BitOr => BitwiseMod(OrBit, a, b, w);
    case BitXor => BitwiseMod(XorBit, a, b, w);
  }

  lemma SmallShift(k: nat, w: nat)
    requires k < 128 && IsTagWidth(w)
    ensures k % Pow2(w) == k
  {
    Pow2Values();
  }

  lemma ShlOpMod(m: Arith, a: int, k: nat, w: nat)
    requires k < 128 && IsTagWidth(w)
    ensures var r := OnInts(m, Shl, a, k);
            r.Ok? && r.value.IntV? && r.value.n % Pow2(w) == Apply(BvShl, a % Pow2(w), k % Pow2(w), w)
  {
    SmallShift(k, w);
    ShlMod(a, k, w);
    WrapMod(a * Pow2(k), w);
  }

  /** `x` is the outcome's integer reduced to `w` bits; only a checked build can fail, by its overflow abort. */
  ghost predicate Tracks(m: Arith, r: Outcome<Value>, x: int, w: nat) {
    match r
    case Ok(v) => v.IntV? && x == v.n % Pow2(w)
    case Err(e) => m == Checked && e == Overflow
  }

  /** The machine value of a rendered term tracks the evaluator. */
  ghost predicate Lowers(m: Arith, e: Expr, w: nat, env: Env) {
    var t := RenderTerm(e, w);
    t.Some? && Tracks(m, EvalExpr(m, e, env), TermValue(t.value, w, Machine(env, w)), w)
  }

  /** The outcome of a strict operator from the outcomes of its operands. */
  function Combine(m: Arith, op: BinOp, l: Outcome<Value>, r: Outcome<Value>): Outcome<Value> {
    var a :- l;
    var b :- r;
    OnValues(m, op, a, b)
  }

  lemma EvalCombines(m: Arith, e: Expr, env: Env)
    requires e.Binary? && !IsLogical(e.op)
    ensures EvalExpr(m, e, env) == Combine(m, e.op, EvalExpr(m, e.lhs, env), EvalExpr(m, e.rhs, env))
  {
  }

  lemma RingOpTracks(m: Arith, op: BinOp, l: Outcome<Value>, r: Outcome<Value>, x: int, y: int, w: nat)
    requires IsRingOp(op) && w <= 64 && Tracks(m, l, x, w) && Tracks(m, r, y, w)
    ensures Tracks(m, Combine(m, op, l, r), Apply(TermOpOf(op).value, x, y, w), w)
  {
    if l.Ok? && r.Ok? {
      RingOpMod(m, op, l.value.n, r.value.n, w);
    }
  }

  lemma ShlTracks(m: Arith, l: Outcome<Value>, x: int, k: nat, w: nat)
    requires k < 128 && IsTagWidth(w) && Tracks(m, l, x, w)
    ensures Tracks(m, Combine(m, Shl, l, Ok(IntV(k))), Apply(BvShl, x, k % Pow2(w), w), w)
  {
    if l.Ok? {
      ShlOpMod(m, l.value.n, k, w);
    }
  }

  lemma RingParts(e: Expr, w: nat, env: Env)
    requires e.Binary? && IsRingTerm(e, w) && IntsBound(Uses(e), env)
    ensures IsRingTerm(e.lhs, w) && IntsBound(Uses(e.lhs), env)
    ensures !e.op.Shl? ==> IsRingTerm(e.rhs, w) && IntsBound(Uses(e.rhs), env)
  {
  }

  lemma {:induction false} RingTermLowers(m: Arith, e: Expr, w: nat, env: Env)
    requires IsTagWidth(w) && IsRingTerm(e, w) && IntsBound(Uses(e), env)
    ensures Lowers(m, e, w, env)
    decreases e
  {
    match e
    case IntLit(n) => LiteralLowers(m, n, w, env);
    case Path(segments) => VariableLowers(m, e, w, env);
    case Binary(op, lhs, rhs) =>
      RingParts(e, w, env);
      RingTermLowers(m, lhs, w, env);
      if op.Shl? {
        ShlLowers(m, e, w, env);
      } else {
        RingTermLowers(m, rhs, w, env);
        RingLowers(m, e, w, env);
      }
    case Not(operand) =>
      RingTermLowers(m, operand, w, env);
      NotLowers(m, e, w, env);
    case Cast(operand, ty) =>
      RingTermLowers(m, operand, w, env);
      CastLowers(m, e, w, env);
  }

  lemma LiteralLowers(m: Arith, n: nat, w: nat, env: Env)
    requires w <= 128
    ensures Lowers(m, IntLit(n), w, env)
  {
    WrapMod(n, w);
  }

  lemma VariableLowers(m: Arith, e: Expr, w: nat, env: Env)
    requires e.Path? && IsRingTerm(e, w) && IntsBound(Uses(e), env)
    ensures Lowers(m, e, w, env)
  {
    assert e.segments[0] in Uses(e);
  }

  lemma RingLowers(m: Arith, e: Expr, w: nat, env: Env)
    requires w <= 64 && e.Binary? && IsRingOp(e.op) && Lowers(m, e.lhs, w, env) && Lowers(m, e.rhs, w, env)
    ensures Lowers(m, e, w, env)
  {
    var a := Machine(env, w);
    var x, y := TermValue(RenderTerm(e.lhs, w).value, w, a), TermValue(RenderTerm(e.rhs, w).value, w, a);
    EvalCombines(m, e, env);
    RenderedApply(e, w, a);
    RingOpTracks(m, e.op, EvalExpr(m, e.lhs, env), EvalExpr(m, e.rhs, env), x, y, w);
  }

  lemma ShlLowers(m: Arith, e: Expr, w: nat, env: Env)
    requires IsTagWidth(w) && e.Binary? && e.op.Shl? && e.rhs.IntLit? && e.rhs.value < 128
    requires Lowers(m, e.lhs, w, env)
    ensures Lowers(m, e, w, env)
  {
    var a, k := Machine(env, w), e.rhs.value;
    EvalCombines(m, e, env);
    RenderedApply(e, w, a);
    assert EvalExpr(m, e.rhs, env) == Ok(IntV(k));
    ShlTracks(m, EvalExpr(m, e.lhs, env), TermValue(RenderTerm(e.lhs, w).value, w, a), k, w);
  }

  lemma RenderedApply(e: Expr, w: nat, a: Assignment)
    requires e.Binary? && TermOpOf(e.op).Some? && RenderTerm(e.lhs, w).Some? && RenderTerm(e.rhs, w).Some?
    ensures RenderTerm(e, w) == Some(App(TermOpOf(e.op).value, RenderTerm(e.lhs, w).value, RenderTerm(e.rhs, w).value))
    ensures TermValue(RenderTerm(e, w).value, w, a)
         == Apply(TermOpOf(e.op).value, TermValue(RenderTerm(e.lhs, w).value, w, a),
             TermValue(RenderTerm(e.rhs, w).value, w, a), w)
  {
    RenderedWidth(e.lhs, w);
  }

  lemma NotLowers(m: Arith, e: Expr, w: nat, env: Env)
    requires e.Not? && Lowers(m, e.operand, w, env)
    ensures Lowers(m, e, w, env)
  {
    RenderedWidth(e.operand, w);
    var v := EvalExpr(m, e.operand, env);
    if v.Ok? {
      NotMod(v.value.n, Pow2(w));
    }
  }

  lemma CastLowers(m: Arith, e: Expr, w: nat, env: Env)
    requires e.Cast? && KeepsWidth(e.ty, w) && Lowers(m, e.operand, w, env)
    ensures Lowers(m, e, w, env)
  {
    var v := EvalExpr(m, e.operand, env);
    if v.Ok? {
      ModPow2(v.value.n, w, WidthOf(e.ty.prim).value);
    }
  }

  lemma CastIs(m: Arith, e: Expr, ty: Type, env: Env, n: int)
    requires EvalExpr(m, e, env) == Ok(IntV(n))
    ensures EvalExpr(m, Cast(e, ty), env) == CastTo(ty, n)
  {
  }

  /** The same through the cast rule: casting the evaluated term to the tag's type gives the machine value. */
  lemma CastGivesMachineValue(m: Arith, e: Expr, p: PrimType, w: nat, env: Env)
    requires m != Checked && WidthOf(p) == Some(w) && IsRingTerm(e, w) && IntsBound(Uses(e), env)
    ensures RenderTerm(e, w).Some?
    ensures EvalExpr(m, Cast(e, Prim(p)), env) == Ok(IntV(TermValue(RenderTerm(e, w).value, w, Machine(env, w))))
  {
    RingTermLowers(m, e, w, env);
    CastIs(m, e, Prim(p), env, EvalExpr(m, e, env).value.n);
  }

  /** A cast may be erased exactly when its type keeps all `w` bits. */
  lemma CastErasureIff(m: Arith, p: PrimType, w: nat)
    requires IsTagWidth(w) && WidthOf(p).Some?
    ensures (forall n :: 0 <= n < Pow2(w) ==> Lowers(m, Cast(Path(["x"]), Prim(p)), w, map["x" := IntV(n)]))
            <==> WidthOf(p).value >= w
  {
    var e := Cast(Path(["x"]), Prim(p));
    var k := WidthOf(p).value;
    if k >= w {
      forall n | 0 <= n < Pow2(w)
        ensures Lowers(m, e, w, map["x" := IntV(n)])
      {
        WideCastKeeps(m, p, w, n);
      }
    } else {
      NarrowCastLoses(m, p, k, w, Pow2(k), map["x" := IntV(Pow2(k))]);
    }
  }

  lemma WideCastKeeps(m: Arith, p: PrimType, w: nat, n: int)
    requires IsTagWidth(w) && KeepsWidth(Prim(p), w)
    ensures Lowers(m, Cast(Path(["x"]), Prim(p)), w, map["x" := IntV(n)])
  {
    var e := Cast(Path(["x"]), Prim(p));
    assert Uses(Path(["x"])) == {"x"};
    assert IntsBound(Uses(e), map["x" := IntV(n)]);
    RingTermLowers(m, e, w, map["x" := IntV(n)]);
  }

  lemma MultipleVanishes(m: Arith, p: PrimType, k: nat, n: int, env: Env)
    requires WidthOf(p) == Some(k) && n == Pow2(k) && "x" in env && env["x"] == IntV(n)
    ensures EvalExpr(m, Cast(Path(["x"]), Prim(p)), env) == Ok(IntV(0))
  {
    assert EvalExpr(m, Path(["x"]), env) == Ok(IntV(n));
    CastIs(m, Path(["x"]), Prim(p), env, n);
    ModIs(n, 0, 1, n);
  }

  lemma ErasedCastReads(p: PrimType, w: nat, n: int, env: Env)
    requires 0 <= n < Pow2(w) && "x" in env && env["x"] == IntV(n)
    ensures RenderTerm(Cast(Path(["x"]), Prim(p)), w) == Some(Var("x"))
    ensures TermValue(Var("x"), w, Machine(env, w)) == n
  {
    ModSmall(n, Pow2(w));
  }

  lemma NarrowCastLoses(m: Arith, p: PrimType, k: nat, w: nat, n: int, env: Env)
    requires WidthOf(p) == Some(k) && k < w && n == Pow2(k) && "x" in env && env["x"] == IntV(n)
    ensures 0 < n < Pow2(w) && !Lowers(m, Cast(Path(["x"]), Prim(p)), w, env)
  {
    Pow2Monotone(k + 1, w);
    MultipleVanishes(m, p, k, n, env);
    ErasedCastReads(p, w, n, env);
    ModSmall(0, Pow2(w));
  }
}
