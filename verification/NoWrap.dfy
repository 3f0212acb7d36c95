/**
The no-overflow side conditions of a `@bvN(nowrap)` clause: what their disjunction means, and why a
clause proved at machine width together with its side conditions holds over the unbounded integers.
 */
module NoWrap {
  import opened Ast
  import opened Bits
  import opened Covenant
  import opened CovenantScope
  import opened Smt
  import opened BitVector

  // ---------- Collecting the conditions ----------

  /** The overflow test of one operator: none, or one for `+`, `-` and `*`. `None` is an unrenderable operand. */
  function OverflowCondition(op: BinOp, lhs: Expr, rhs: Expr, w: nat): Option<seq<Prop>> {
    if !(op.Add? || op.Sub? || op.Mul?) then Some([])
    else
      match (RenderTerm(lhs, w), RenderTerm(rhs, w))
      case (Some(l), Some(r)) => Some([OverflowTest(op, l, r, w)])
      case _ => None
  }

  function OverflowTest(op: BinOp, l: Term, r: Term, w: nat): Prop {
    if op.Add? then Compare(Ult, App(BvAdd, l, r), l)
    else if op.Sub? then Compare(Ult, l, r)
    else
      var product := App(BvMul, ZeroExtend(w, l), ZeroExtend(w, r));
      Neg(Compare(Equal, Extract(if w > 0 then 2 * w - 1 else 0, w, product), Const(0, w)))
  }

  /** The operator itself first, then its operands. */
  function CollectOverflow(e: Expr, w: nat): Option<seq<Prop>> {
    match e
    case Binary(op, lhs, rhs) =>
      (match (OverflowCondition(op, lhs, rhs, w), CollectOverflow(lhs, w), CollectOverflow(rhs, w))
       case (Some(own), Some(l), Some(r)) => Some(own + l + r)
       case _ => None)
    case Not(operand) => CollectOverflow(operand, w)
    case Cast(operand, _) => CollectOverflow(operand, w)
    case _ => Some([])
  }

  ghost predicate SomeTrue(conds: seq<Prop>, w: nat, a: Assignment) {
    exists c :: c in conds && PropValue(c, w, a)
  }

  /** Some collected condition of `e` is true at the environment. */
  ghost predicate Overflows(e: Expr, w: nat, env: Env) {
    CollectOverflow(e, w).Some? && SomeTrue(CollectOverflow(e, w).value, w, Machine(env, w))
  }

  // ---------- The fragment ----------

  /**
  Terms whose operators either cannot leave the width or carry an overflow test: literals below
  2^w, variables, `+ - *`, `/ %` by a nonzero literal, `>>` by a literal below 128, `& | ^`, and
  casts that keep `w` bits.
   */
  predicate IsExactTerm(e: Expr, w: nat) {
    match e
    case IntLit(n) => n < Pow2(w)
    case Path(segments) => |segments| == 1
    case Binary(op, lhs, rhs) =>
      && IsExactTerm(lhs, w) && IsExactTerm(rhs, w)
      && (IsRingOp(op) || ((op.Div? || op.Rem?) && rhs.IntLit? && rhs.value > 0)
          || (op.Shr? && rhs.IntLit? && rhs.value < 128))
    case Cast(operand, ty) => KeepsWidth(ty, w) && IsExactTerm(operand, w)
    case _ => false
  }

  predicate IsExactProp(e: Expr, w: nat) {
    match e
    case BoolLit(_) => true
    case Binary(op, lhs, rhs) =>
      if RelOf(op).Some? then IsExactTerm(lhs, w) && IsExactTerm(rhs, w)
      else IsLogical(op) && IsExactProp(lhs, w) && IsExactProp(rhs, w)
    case Not(operand) => IsExactProp(operand, w)
    case _ => false
  }

  /**
  Operands on which an operator that carries no overflow test means the same on both sides: a divisor that is
  not zero, a shift by less than 128, and to the left one whose exact result fits.
   */
  predicate SafeOp(op: BinOp, x: int, y: int, w: nat) {
    match op
    case Div => y != 0
    case Rem => y != 0
    case Shr => 0 <= y < 128
    case Shl => 0 <= y < 128 && x * Pow2(y) < Pow2(w)
    case _ => true
  }

  /** The integer an expression denotes, if it does. */
  function ExactInt(e: Expr, env: Env): Option<int> {
    match EvalExpr(Exact, e, env)
    case Ok(IntV(n)) => Some(n)
    case _ => None
  }

  predicate SafeOperands(op: BinOp, l: Option<int>, r: Option<int>, w: nat) {
    l.Some? && r.Some? ==> SafeOp(op, l.value, r.value, w)
  }

  /** The type keeps `w` bits, or it keeps this value. */
  predicate SafeCast(ty: Type, n: Option<int>, w: nat) {
    && ty.Prim? && WidthOf(ty.prim).Some?
    && (WidthOf(ty.prim).value >= w || (n.Some? ==> n.value < Pow2(WidthOf(ty.prim).value)))
  }

  /**
  What the overflow tests do not look at, in terms of exact integers: no literal of 2^w or more, no complement,
  no operator on unsafe operands and no cast that loses a bit.
   */
  predicate SafeTerm(e: Expr, w: nat, env: Env) {
    match e
    case IntLit(n) => n < Pow2(w)
    case Path(_) => true
    case Binary(op, lhs, rhs) =>
      && SafeTerm(lhs, w, env) && SafeTerm(rhs, w, env)
      && SafeOperands(op, ExactInt(lhs, env), ExactInt(rhs, env), w)
    case Cast(operand, ty) => SafeTerm(operand, w, env) && SafeCast(ty, ExactInt(operand, env), w)
    case _ => false
  }

  /** The same for a clause; what a connective does not evaluate may be unsafe, as in `y == 0 || x / y < z`. */
  predicate SafeProp(e: Expr, w: nat, env: Env) {
    match e
    case Binary(op, lhs, rhs) =>
      if RelOf(op).Some? then SafeTerm(lhs, w, env) && SafeTerm(rhs, w, env)
      else
        && SafeProp(lhs, w, env)
        && (EvalExpr(Exact, lhs, env) == Ok(BoolV(op.And?)) ==> SafeProp(rhs, w, env))
    case Not(operand) => SafeProp(operand, w, env)
    case _ => true
  }

  predicate InWidth(n: int, w: nat) {
    0 <= n < Pow2(w)
  }

  ghost predicate InRangeOn(names: set<string>, env: Env, w: nat) {
    forall x :: x in names ==> x in env && env[x].IntV? && InWidth(env[x].n, w)
  }

  // ---------- One operator ----------

  lemma WidthBelowLimit(w: nat)
    requires IsTagWidth(w)
    ensures Pow2(w) < LIMIT && 128 <= Pow2(w)
  {
    Pow2Values();
  }

  /** The exact result of a wrap-prone operator. */
  function ExactResult(op: BinOp, x: int, y: int): int {
    if op.Add? then x + y else if op.Sub? then x - y else x * y
  }

  lemma SumCarries(x: int, y: int, m: int)
    requires 0 <= x < m && 0 <= y < m
    ensures (x + y) % m < x <==> x + y >= m
  {
    if x + y >= m {
      ModIs(x + y, x + y - m, 1, m);
    }
  }

  lemma ProductBounds(x: int, y: int, m: int)
    requires 0 <= x < m && 0 <= y < m
    ensures 0 <= x * y < m * m
  {
    if y > 0 {
      assert x * y <= x * m;
    }
    assert x * m <= (m - 1) * m;
  }

  lemma QuotientBelow(p: int, m: int)
    requires m > 0 && 0 <= p < m * m
    ensures 0 <= p / m < m
    ensures p / m == 0 <==> p < m
  {
    var q := p / m;
    assert p == q * m + p % m;
    Multiples(q, m);
    Multiples(q - m, m);
    assert (q - m) * m == q * m - m * m;
  }

  /** The doubled-width test of a product. */
  lemma ProductTest(l: Term, r: Term, w: nat, a: Assignment)
    requires w > 0 && WidthIn(l, w) == w
    requires InWidth(TermValue(l, w, a), w) && InWidth(TermValue(r, w, a), w)
    ensures PropValue(OverflowTest(Mul, l, r, w), w, a) <==> TermValue(l, w, a) * TermValue(r, w, a) >= Pow2(w)
  {
    var x, y, m := TermValue(l, w, a), TermValue(r, w, a), Pow2(w);
    Pow2Sum(w, w);
    ProductBounds(x, y, m);
    var product := App(BvMul, ZeroExtend(w, l), ZeroExtend(w, r));
    assert WidthIn(product, w) == w + w;
    ModSmall(x * y, Pow2(w + w));
    assert TermValue(product, w, a) == x * y;
    QuotientBelow(x * y, m);
    ModSmall(x * y / m, m);
    var high := Extract(2 * w - 1, w, product);
    assert WidthIn(high, w) == w;
    assert TermValue(high, w, a) == x * y / m;
  }

  /** An overflow test is true exactly when the exact result leaves the width. */
  lemma TestMeaning(op: BinOp, l: Term, r: Term, w: nat, a: Assignment)
    requires op.Add? || op.Sub? || op.Mul?
    requires w > 0 && WidthIn(l, w) == w
    requires InWidth(TermValue(l, w, a), w) && InWidth(TermValue(r, w, a), w)
    ensures PropValue(OverflowTest(op, l, r, w), w, a)
            <==> !InWidth(ExactResult(op, TermValue(l, w, a), TermValue(r, w, a)), w)
  {
    var x, y := TermValue(l, w, a), TermValue(r, w, a);
    if op.Mul? {
      ProductTest(l, r, w, a);
      ProductBounds(x, y, Pow2(w));
    } else if op.Add? {
      SumCarries(x, y, Pow2(w));
    }
  }

  lemma ShiftPast(x: int, k: nat, w: nat)
    requires InWidth(x, w)
    ensures InWidth(x / Pow2(k), w) && (k >= w ==> x / Pow2(k) == 0)
  {
    PositiveDiv(x, Pow2(k));
    if k >= w {
      Pow2Monotone(w, k);
      DivIs(x, x, 0, Pow2(k));
    }
  }

  /** `v` is the operator's result on both sides, and it fits. */
  ghost predicate SameResult(m: Arith, op: BinOp, x: int, y: int, w: nat, v: int) {
    && TermOpOf(op).Some? && Apply(TermOpOf(op).value, x, y, w) == v
    && OnInts(m, op, x, y) == Ok(IntV(v)) && InWidth(v, w)
  }

  lemma QuotientExact(m: Arith, x: int, y: int, w: nat)
    requires InWidth(x, w) && y > 0
    ensures SameResult(m, Div, x, y, w, x / y) && SameResult(m, Rem, x, y, w, x % y)
  {
    PositiveDiv(x, y);
    RemIsMod(x, y);
  }

  lemma ShiftedOut(x: int, k: nat, w: nat)
    requires x >= 0 && k >= w && x * Pow2(k) < Pow2(w)
    ensures x == 0 && x * Pow2(k) == 0
  {
    Pow2Monotone(w, k);
    if x > 0 {
      MulGrows(Pow2(k), x);
    }
  }

  /** A left shift whose exact result fits means the same on both sides, in every build. */
  lemma ShiftLeftExact(m: Arith, x: int, k: nat, w: nat)
    requires IsTagWidth(w) && InWidth(x, w) && k < 128 && InWidth(x * Pow2(k), w)
    ensures SameResult(m, Shl, x, k, w, x * Pow2(k))
  {
    WidthBelowLimit(w);
    ShiftMachine(x, k, w, x * Pow2(k));
    ShiftValue(m, x, k, x * Pow2(k));
  }

  lemma ShiftMachine(x: int, k: nat, w: nat, v: int)
    requires InWidth(x, w) && v == x * Pow2(k) && InWidth(v, w)
    ensures Apply(BvShl, x, k, w) == v
  {
    if k >= w {
      ShiftedOut(x, k, w);
    } else {
      ModSmall(v, Pow2(w));
    }
  }

  lemma ShiftValue(m: Arith, x: int, k: nat, v: int)
    requires k < 128 && v == x * Pow2(k) && 0 <= v < LIMIT
    ensures OnInts(m, Shl, x, k) == Ok(IntV(v))
  {
  }

  lemma ShiftExact(m: Arith, x: int, y: int, w: nat)
    requires InWidth(x, w) && 0 <= y < 128
    ensures SameResult(m, Shr, x, y, w, x / Pow2(y))
  {
    ShiftPast(x, y, w);
  }

  lemma BitsExact(m: Arith, x: int, y: int, w: nat)
    requires InWidth(x, w) && InWidth(y, w)
    ensures SameResult(m, BitAnd, x, y, w, Bitwise(AndBit, x, y))
    ensures SameResult(m, BitOr, x, y, w, Bitwise(OrBit, x, y))
    ensures SameResult(m, BitXor, x, y, w, Bitwise(XorBit, x, y))
  {
    BitwiseRange(AndBit, x, y, w);
    BitwiseRange(OrBit, x, y, w);
    BitwiseRange(XorBit, x, y, w);
  }

  /** An operator without a test, on safe operands, stays in the width and means the same on both sides. */
  lemma UntestedExact(m: Arith, op: BinOp, x: int, y: int, w: nat)
    requires IsTagWidth(w) && InWidth(x, w) && InWidth(y, w) && SafeOp(op, x, y, w)
    requires op in {Div, Rem, Shl, Shr, BitAnd, BitOr, BitXor}
    ensures SameResult(m, op, x, y, w, Apply(TermOpOf(op).value, x, y, w))
  {
    match op
    case Div => QuotientExact(m, x, y, w);
    case Rem => QuotientExact(m, x, y, w);
    case Shr => ShiftExact(m, x, y, w);
    case Shl =>
      ShiftIsNatural(x, y);
      ShiftLeftExact(m, x, y, w);
    case _ => BitsExact(m, x, y, w);
  }

  lemma ShiftIsNatural(x: int, k: int)
    requires x >= 0 && k >= 0
    ensures x * Pow2(k) >= 0
  {
  }

  lemma RemIsMod(x: int, y: int)
    requires x >= 0 && y > 0
    ensures TruncRem(x, y) == x % y && 0 <= x % y <= x
  {
    PositiveDiv(x, y);
    assert x == y * (x / y) + x % y;
    if x / y > 0 {
      MulGrows(x / y, y);
    }
  }

  /** A wrap-prone operator whose exact result fits means the same on both sides, in every build. */
  lemma FittingExact(m: Arith, op: BinOp, x: int, y: int, w: nat)
    requires IsTagWidth(w) && (op.Add? || op.Sub? || op.Mul?)
    requires InWidth(ExactResult(op, x, y), w)
    ensures OnInts(m, op, x, y) == Ok(IntV(ExactResult(op, x, y)))
    ensures Apply(TermOpOf(op).value, x, y, w) == ExactResult(op, x, y)
  {
    WidthBelowLimit(w);
    ModSmall(ExactResult(op, x, y), Pow2(w));
  }

  // ---------- Terms ----------

  /** The evaluator and the machine give `e` the same value, and it fits. */
  ghost predicate ExactHere(m: Arith, e: Expr, w: nat, env: Env) {
    var t := RenderTerm(e, w);
    && t.Some?
    && InWidth(TermValue(t.value, w, Machine(env, w)), w)
    && EvalExpr(m, e, env) == Ok(IntV(TermValue(t.value, w, Machine(env, w))))
  }

  /** The exact value of `e` leaves the width. */
  ghost predicate LeavesWidth(e: Expr, w: nat, env: Env) {
    var r := EvalExpr(Exact, e, env);
    r.Ok? && r.value.IntV? && !InWidth(r.value.n, w)
  }

  /** The machine value of a term. */
  function MachineValue(e: Expr, w: nat, env: Env): int
    requires RenderTerm(e, w).Some?
  {
    TermValue(RenderTerm(e, w).value, w, Machine(env, w))
  }

  lemma TermRenders(e: Expr, w: nat)
    ensures RenderTerm(e, w).Some? ==> CollectOverflow(e, w).Some?
  {
  }

  /** In the fragment nothing is left to the values. */
  lemma {:induction false} ExactIsSafe(e: Expr, w: nat, env: Env)
    requires IsExactTerm(e, w)
    ensures RenderTerm(e, w).Some? && CollectOverflow(e, w).Some? && SafeTerm(e, w, env)
    decreases e
  {
    TermRenders(e, w);
    match e
    case Binary(_, lhs, rhs) =>
      ExactIsSafe(lhs, w, env);
      ExactIsSafe(rhs, w, env);
    case Cast(operand, _) => ExactIsSafe(operand, w, env);
    case _ =>
  }

  lemma {:induction false} ExactPropIsSafe(e: Expr, w: nat, env: Env)
    requires IsExactProp(e, w)
    ensures RenderProp(e, w).Some? && CollectOverflow(e, w).Some? && SafeProp(e, w, env)
    decreases e
  {
    match e
    case Binary(op, lhs, rhs) =>
      if RelOf(op).Some? {
        ExactIsSafe(lhs, w, env);
        ExactIsSafe(rhs, w, env);
      } else {
        ExactPropIsSafe(lhs, w, env);
        ExactPropIsSafe(rhs, w, env);
      }
    case Not(operand) => ExactPropIsSafe(operand, w, env);
    case _ =>
  }

  /** The operands' conditions are among the operator's. */
  lemma QuietParts(e: Expr, w: nat, env: Env)
    requires e.Binary? && CollectOverflow(e, w).Some?
    ensures CollectOverflow(e.lhs, w).Some? && CollectOverflow(e.rhs, w).Some?
    ensures Overflows(e, w, env) <==> Overflows(e.lhs, w, env) || Overflows(e.rhs, w, env) || OwnTest(e, w, env)
  {
  }

  /** The operator's own test is true. */
  ghost predicate OwnTest(e: Expr, w: nat, env: Env) {
    && e.Binary?
    && var own := OverflowCondition(e.op, e.lhs, e.rhs, w);
       own.Some? && SomeTrue(own.value, w, Machine(env, w))
  }

  /**
  One operator on exact operands that are safe for it: it is exact too, or its own test is true and its exact
  value leaves the width.
   */
  lemma OperatorStep(m: Arith, e: Expr, w: nat, env: Env)
    requires IsTagWidth(w) && e.Binary? && RenderTerm(e, w).Some?
    requires ExactHere(m, e.lhs, w, env) && ExactHere(m, e.rhs, w, env)
    requires SafeOp(e.op, MachineValue(e.lhs, w, env), MachineValue(e.rhs, w, env), w)
    ensures if OwnTest(e, w, env) then m == Exact ==> LeavesWidth(e, w, env) else ExactHere(m, e, w, env)
  {
    var a := Machine(env, w);
    var l, r := RenderTerm(e.lhs, w).value, RenderTerm(e.rhs, w).value;
    var x, y := TermValue(l, w, a), TermValue(r, w, a);
    RenderedWidth(e.lhs, w);
    RenderedApply(e, w, a);
    EvalOnInts(m, e, env, x, y);
    if e.op in {Add, Sub, Mul} {
      TestMeaning(e.op, l, r, w, a);
      OwnTestIs(e, w, env, OverflowTest(e.op, l, r, w));
      if !OwnTest(e, w, env) {
        FittingExact(m, e.op, x, y, w);
      }
    } else {
      UntestedExact(m, e.op, x, y, w);
    }
  }

  lemma OwnTestIs(e: Expr, w: nat, env: Env, test: Prop)
    requires e.Binary? && OverflowCondition(e.op, e.lhs, e.rhs, w) == Some([test])
    ensures OwnTest(e, w, env) <==> PropValue(test, w, Machine(env, w))
  {
    assert test in [test];
  }

  lemma EvalOnInts(m: Arith, e: Expr, env: Env, a: int, b: int)
    requires e.Binary? && TermOpOf(e.op).Some?
    requires EvalExpr(m, e.lhs, env) == Ok(IntV(a)) && EvalExpr(m, e.rhs, env) == Ok(IntV(b))
    ensures EvalExpr(m, e, env) == OnInts(m, e.op, a, b)
  {
  }

  lemma LiteralExact(m: Arith, n: nat, w: nat, env: Env)
    requires IsTagWidth(w) && n < Pow2(w)
    ensures ExactHere(m, IntLit(n), w, env)
  {
    WidthBelowLimit(w);
    LiteralMachine(n, w, Machine(env, w));
    LiteralValue(m, n, env);
  }

  lemma LiteralMachine(n: nat, w: nat, a: Assignment)
    requires n < Pow2(w)
    ensures RenderTerm(IntLit(n), w) == Some(Const(n, w)) && TermValue(Const(n, w), w, a) == n
  {
    ModSmall(n, Pow2(w));
  }

  lemma LiteralValue(m: Arith, n: nat, env: Env)
    requires n < LIMIT
    ensures EvalExpr(m, IntLit(n), env) == Ok(IntV(n))
  {
  }

  lemma VariableExact(m: Arith, x: string, w: nat, env: Env)
    requires InRangeOn({x}, env, w)
    ensures ExactHere(m, Path([x]), w, env)
  {
    assert x in {x};
    ModSmall(env[x].n, Pow2(w));
  }

  /** With no condition true, a term that is safe at the environment has its exact value on the machine. */
  lemma {:induction false} SafeIsExact(m: Arith, e: Expr, w: nat, env: Env)
    requires IsTagWidth(w) && RenderTerm(e, w).Some? && InRangeOn(Uses(e), env, w)
    requires !Overflows(e, w, env) && SafeTerm(e, w, env)
    ensures ExactHere(m, e, w, env) && ExactHere(Exact, e, w, env)
    decreases e
  {
    TermRenders(e, w);
    match e
    case Binary(op, lhs, rhs) =>
      TermRenders(lhs, w);
      TermRenders(rhs, w);
      QuietParts(e, w, env);
      SafeIsExact(m, lhs, w, env);
      SafeIsExact(m, rhs, w, env);
      OperatorStep(m, e, w, env);
      OperatorStep(Exact, e, w, env);
    case Cast(operand, ty) =>
      SafeIsExact(m, operand, w, env);
      CastExact(m, e, w, env);
      CastExact(Exact, e, w, env);
    case IntLit(n) =>
      LiteralExact(m, n, w, env);
      LiteralExact(Exact, n, w, env);
    case Path(segments) =>
      assert e == Path([segments[0]]) && Uses(e) == {segments[0]};
      VariableExact(m, segments[0], w, env);
      VariableExact(Exact, segments[0], w, env);
  }

  /** With no condition true, the machine value of a term of the fragment is its exact value. */
  lemma QuietIsExact(m: Arith, e: Expr, w: nat, env: Env)
    requires IsTagWidth(w) && IsExactTerm(e, w) && InRangeOn(Uses(e), env, w) && !Overflows(e, w, env)
    ensures ExactHere(m, e, w, env)
  {
    ExactIsSafe(e, w, env);
    SafeIsExact(m, e, w, env);
  }

  lemma CastExact(m: Arith, e: Expr, w: nat, env: Env)
    requires e.Cast? && ExactHere(m, e.operand, w, env) && SafeCast(e.ty, Some(MachineValue(e.operand, w, env)), w)
    ensures ExactHere(m, e, w, env)
  {
    var k, n := WidthOf(e.ty.prim).value, MachineValue(e.operand, w, env);
    if k >= w {
      Pow2Monotone(w, k);
    }
    ModSmall(n, Pow2(k));
  }

  // ---------- The disjunction means that some subterm leaves the width ----------

  function Subterms(e: Expr): set<Expr> {
    match e
    case Binary(_, lhs, rhs) => {e} + Subterms(lhs) + Subterms(rhs)
    case Cast(operand, _) => {e} + Subterms(operand)
    case Not(operand) => {e} + Subterms(operand)
    case _ => {e}
  }

  lemma {:induction false} SafeSubterms(m: Arith, e: Expr, w: nat, env: Env, s: Expr)
    requires IsTagWidth(w) && RenderTerm(e, w).Some? && InRangeOn(Uses(e), env, w)
    requires !Overflows(e, w, env) && SafeTerm(e, w, env) && s in Subterms(e)
    ensures ExactHere(m, s, w, env)
    decreases e
  {
    SafeIsExact(m, e, w, env);
    if e.Binary? {
      TermRenders(e, w);
      TermRenders(e.lhs, w);
      TermRenders(e.rhs, w);
      QuietParts(e, w, env);
      if s in Subterms(e.lhs) {
        SafeSubterms(m, e.lhs, w, env, s);
      } else if s in Subterms(e.rhs) {
        SafeSubterms(m, e.rhs, w, env, s);
      }
    } else if e.Cast? {
      TermRenders(e, w);
      if s in Subterms(e.operand) {
        SafeSubterms(m, e.operand, w, env, s);
      }
    }
  }

  /** A true condition points at a subterm whose exact value leaves the width. */
  lemma {:induction false} OverflowWitness(e: Expr, w: nat, env: Env) returns (s: Expr)
    requires IsTagWidth(w) && IsExactTerm(e, w) && InRangeOn(Uses(e), env, w) && Overflows(e, w, env)
    ensures s in Subterms(e) && LeavesWidth(s, w, env)
    decreases e
  {
    ExactIsSafe(e, w, env);
    if e.Cast? {
      s := OverflowWitness(e.operand, w, env);
    } else {
      assert e.Binary?;
      QuietParts(e, w, env);
      if Overflows(e.lhs, w, env) {
        s := OverflowWitness(e.lhs, w, env);
      } else if Overflows(e.rhs, w, env) {
        s := OverflowWitness(e.rhs, w, env);
      } else {
        QuietIsExact(Exact, e.lhs, w, env);
        QuietIsExact(Exact, e.rhs, w, env);
        OperatorStep(Exact, e, w, env);
        s := e;
      }
    }
  }

  /**
  The collected disjunction is true exactly when the exact value of some subterm leaves [0, 2^w);
  when it is false every subterm has the same value on the machine and in the evaluator, in any build.
   */
  lemma OverflowIff(m: Arith, e: Expr, w: nat, env: Env)
    requires IsTagWidth(w) && IsExactTerm(e, w) && InRangeOn(Uses(e), env, w)
    ensures Overflows(e, w, env) <==> exists s :: s in Subterms(e) && LeavesWidth(s, w, env)
    ensures !Overflows(e, w, env) ==> forall s :: s in Subterms(e) ==> ExactHere(m, s, w, env)
  {
    if Overflows(e, w, env) {
      var s := OverflowWitness(e, w, env);
    } else {
      forall s | s in Subterms(e)
        ensures ExactHere(m, s, w, env) && !LeavesWidth(s, w, env)
      {
        ExactIsSafe(e, w, env);
        SafeSubterms(m, e, w, env, s);
        SafeSubterms(Exact, e, w, env, s);
      }
    }
  }

  // ---------- Propositions ----------

  ghost predicate PropExactHere(m: Arith, e: Expr, w: nat, env: Env) {
    var p := RenderProp(e, w);
    p.Some? && EvalExpr(m, e, env) == Ok(BoolV(PropValue(p.value, w, Machine(env, w))))
  }

  lemma ComparisonExact(m: Arith, e: Expr, w: nat, env: Env)
    requires e.Binary? && RelOf(e.op).Some? && ExactHere(m, e.lhs, w, env) && ExactHere(m, e.rhs, w, env)
    ensures PropExactHere(m, e, w, env)
  {
    EvalCombines(m, e, env);
  }

  /** A connective needs its right operand only where the left one does not decide. */
  lemma ConnectiveExact(m: Arith, e: Expr, w: nat, env: Env)
    requires e.Binary? && IsLogical(e.op) && RenderProp(e, w).Some? && PropExactHere(m, e.lhs, w, env)
    requires EvalExpr(m, e.lhs, env) == Ok(BoolV(e.op.And?)) ==> PropExactHere(m, e.rhs, w, env)
    ensures PropExactHere(m, e, w, env)
  {
  }

  lemma {:induction false} PropRenders(e: Expr, w: nat)
    requires RenderProp(e, w).Some?
    ensures CollectOverflow(e, w).Some?
    decreases e
  {
    match e
    case Binary(op, lhs, rhs) =>
      if RelOf(op).Some? {
        TermRenders(lhs, w);
        TermRenders(rhs, w);
      } else {
        PropRenders(lhs, w);
        PropRenders(rhs, w);
      }
    case Not(operand) => PropRenders(operand, w);
    case _ =>
  }

  lemma SafeComparison(m: Arith, e: Expr, w: nat, env: Env)
    requires IsTagWidth(w) && e.Binary? && RelOf(e.op).Some? && RenderProp(e, w).Some? && InRangeOn(Uses(e), env, w)
    requires !Overflows(e.lhs, w, env) && !Overflows(e.rhs, w, env)
    requires SafeTerm(e.lhs, w, env) && SafeTerm(e.rhs, w, env)
    ensures PropExactHere(m, e, w, env)
  {
    SafeIsExact(m, e.lhs, w, env);
    SafeIsExact(m, e.rhs, w, env);
    ComparisonExact(m, e, w, env);
  }

  /** With no condition true, a clause that is safe at the environment reads the same on both sides. */
  lemma {:induction false} SafePropIsExact(m: Arith, e: Expr, w: nat, env: Env)
    requires IsTagWidth(w) && RenderProp(e, w).Some? && InRangeOn(Uses(e), env, w)
    requires !Overflows(e, w, env) && SafeProp(e, w, env)
    ensures PropExactHere(m, e, w, env) && PropExactHere(Exact, e, w, env)
    decreases e
  {
    PropRenders(e, w);
    match e
    case Binary(op, lhs, rhs) =>
      QuietParts(e, w, env);
      if RelOf(op).Some? {
        SafeComparison(m, e, w, env);
        SafeComparison(Exact, e, w, env);
      } else {
        SafePropIsExact(m, lhs, w, env);
        if EvalExpr(Exact, lhs, env) == Ok(BoolV(op.And?)) {
          SafePropIsExact(m, rhs, w, env);
        }
        ConnectiveExact(m, e, w, env);
        ConnectiveExact(Exact, e, w, env);
      }
    case Not(operand) => SafePropIsExact(m, operand, w, env);
    case _ =>
  }

  /** The terms a clause compares, with all their subterms. */
  function ClauseTerms(e: Expr): set<Expr> {
    match e
    case Binary(op, lhs, rhs) =>
      if RelOf(op).Some? then Subterms(lhs) + Subterms(rhs) else ClauseTerms(lhs) + ClauseTerms(rhs)
    case Not(operand) => ClauseTerms(operand)
    case _ => {}
  }

  ghost predicate SomeLeaves(terms: set<Expr>, w: nat, env: Env) {
    exists s :: s in terms && LeavesWidth(s, w, env)
  }

  lemma ComparisonOverflowIff(e: Expr, w: nat, env: Env)
    requires IsTagWidth(w) && e.Binary? && RelOf(e.op).Some? && IsExactProp(e, w) && InRangeOn(Uses(e), env, w)
    ensures CollectOverflow(e, w).Some?
    ensures Overflows(e, w, env) <==> SomeLeaves(ClauseTerms(e), w, env)
  {
    ExactPropIsSafe(e, w, env);
    QuietParts(e, w, env);
    OverflowIff(Exact, e.lhs, w, env);
    OverflowIff(Exact, e.rhs, w, env);
    assert ClauseTerms(e) == Subterms(e.lhs) + Subterms(e.rhs);
  }

  /**
  The collected disjunction of a whole clause is true exactly when the exact value of some term in it leaves
  the width.
   */
  lemma {:induction false} ClauseOverflowIff(e: Expr, w: nat, env: Env)
    requires IsTagWidth(w) && IsExactProp(e, w) && InRangeOn(Uses(e), env, w)
    ensures Overflows(e, w, env) <==> SomeLeaves(ClauseTerms(e), w, env)
    decreases e
  {
    ExactPropIsSafe(e, w, env);
    match e
    case Binary(op, lhs, rhs) =>
      if RelOf(op).Some? {
        ComparisonOverflowIff(e, w, env);
      } else {
        QuietParts(e, w, env);
        ClauseOverflowIff(lhs, w, env);
        ClauseOverflowIff(rhs, w, env);
      }
    case Not(operand) => ClauseOverflowIff(operand, w, env);
    case _ =>
  }

  // ---------- The exact conditions of what the fragment leaves out ----------

  /** A literal keeps its value exactly when it is below 2^w. */
  lemma LiteralExactIff(n: nat, w: nat, env: Env)
    ensures ExactHere(Exact, IntLit(n), w, env) <==> n < Pow2(w)
  {
    if n < Pow2(w) {
      ModSmall(n, Pow2(w));
    }
  }

  /**
  `/`, `%`, `<<` and `>>` on exact operands keep their value exactly when the divisor is not zero, or the shift
  is by less than 128 and, to the left, its exact result fits.
   */
  lemma OperatorExactIff(e: Expr, w: nat, env: Env)
    requires IsTagWidth(w) && e.Binary? && e.op in {Div, Rem, Shl, Shr}
    requires ExactHere(Exact, e.lhs, w, env) && ExactHere(Exact, e.rhs, w, env)
    ensures ExactHere(Exact, e, w, env)
            <==> SafeOp(e.op, MachineValue(e.lhs, w, env), MachineValue(e.rhs, w, env), w)
  {
    var x, y := MachineValue(e.lhs, w, env), MachineValue(e.rhs, w, env);
    RenderedApply(e, w, Machine(env, w));
    EvalOnInts(Exact, e, env, x, y);
    if SafeOp(e.op, x, y, w) {
      NoOwnTest(e, w, env);
      OperatorStep(Exact, e, w, env);
    }
  }

  lemma NoOwnTest(e: Expr, w: nat, env: Env)
    requires e.Binary? && !(e.op in {Add, Sub, Mul})
    ensures !OwnTest(e, w, env)
  {
  }

  /** A cast of an exact operand keeps its value exactly when the type has at least `w` bits or holds the value. */
  lemma CastExactIff(e: Expr, w: nat, env: Env)
    requires e.Cast? && e.ty.Prim? && WidthOf(e.ty.prim).Some? && ExactHere(Exact, e.operand, w, env)
    ensures ExactHere(Exact, e, w, env) <==> SafeCast(e.ty, Some(MachineValue(e.operand, w, env)), w)
  {
    var k, n := WidthOf(e.ty.prim).value, MachineValue(e.operand, w, env);
    CastIs(Exact, e.operand, e.ty, env, n);
    if SafeCast(e.ty, Some(n), w) {
      CastExact(Exact, e, w, env);
    } else {
      assert n % Pow2(k) < Pow2(k) <= n;
    }
  }

  function Shifted(k: nat): Expr {
    Binary(Shl, Path(["x"]), IntLit(k))
  }

  /** The shifted variable at `n` has the same value on the machine and over the integers. */
  ghost predicate ShiftHolds(n: nat, k: nat, w: nat) {
    ExactHere(Exact, Shifted(k), w, map["x" := IntV(n)])
  }

  lemma ShiftedValue(n: nat, k: nat)
    ensures EvalExpr(Exact, Shifted(k), map["x" := IntV(n)]) == if k < 128 then Ok(IntV(n * Pow2(k))) else Err(Trap)
  {
    var env := map["x" := IntV(n)];
    assert EvalExpr(Exact, Path(["x"]), env) == Ok(IntV(n)) && EvalExpr(Exact, IntLit(k), env) == Ok(IntV(k));
    EvalOnInts(Exact, Shifted(k), env, n, k);
  }

  /** A left shift by `k` keeps its value at `n` exactly when the exact result fits. */
  lemma ShiftExactIff(n: nat, k: nat, w: nat)
    requires IsTagWidth(w) && n < Pow2(w)
    ensures ShiftHolds(n, k, w) <==> k < 128 && n * Pow2(k) < Pow2(w)
  {
    ShiftedValue(n, k);
    if k < 128 && n * Pow2(k) < Pow2(w) {
      FittingShiftHolds(n, k, w);
    }
  }

  lemma FittingShiftHolds(n: nat, k: nat, w: nat)
    requires IsTagWidth(w) && n < Pow2(w) && k < 128 && n * Pow2(k) < Pow2(w)
    ensures ShiftHolds(n, k, w)
  {
    var env := map["x" := IntV(n)];
    VariableHere(n, w);
    WidthBelowLimit(w);
    LiteralExact(Exact, k, w, env);
    LiteralMachine(k, w, Machine(env, w));
    ModSmall(n, Pow2(w));
    assert MachineValue(Path(["x"]), w, env) == n && MachineValue(IntLit(k), w, env) == k;
    OperatorExactIff(Shifted(k), w, env);
  }

  lemma VariableHere(n: nat, w: nat)
    requires n < Pow2(w)
    ensures ExactHere(Exact, Path(["x"]), w, map["x" := IntV(n)])
  {
    var env := map["x" := IntV(n)];
    assert InRangeOn({"x"}, env, w);
    VariableExact(Exact, "x", w, env);
  }

  ghost predicate ShiftAlwaysHolds(k: nat, w: nat) {
    forall n: nat :: n < Pow2(w) ==> ShiftHolds(n, k, w)
  }

  /** Over all `w`-bit values only the shift by nothing does. */
  lemma ShiftAlwaysExactIff(k: nat, w: nat)
    requires IsTagWidth(w)
    ensures ShiftAlwaysHolds(k, w) <==> k == 0
  {
    if k == 0 {
      forall n: nat | n < Pow2(w)
        ensures ShiftHolds(n, 0, w)
      {
        ShiftByNothing(n, w);
      }
    } else {
      LargestFails(k, w, Pow2(w) - 1);
    }
  }

  lemma ShiftByNothing(n: nat, w: nat)
    requires IsTagWidth(w) && n < Pow2(w)
    ensures ShiftHolds(n, 0, w)
  {
    assert n * Pow2(0) == n;
    ShiftExactIff(n, 0, w);
  }

  lemma LargestFails(k: nat, w: nat, top: nat)
    requires IsTagWidth(w) && k > 0 && top == Pow2(w) - 1
    ensures !ShiftHolds(top, k, w)
  {
    WidthBelowLimit(w);
    LargestShiftedLeaves(Pow2(w), k);
    ShiftExactIff(top, k, w);
  }

  lemma LargestShiftedLeaves(p: nat, k: nat)
    requires p >= 2 && k > 0
    ensures (p - 1) * Pow2(k) >= p
  {
    assert Pow2(k) == 2 * Pow2(k - 1);
    MulGrows(Pow2(k - 1), 2 * (p - 1));
    assert Pow2(k - 1) * (2 * (p - 1)) == (p - 1) * Pow2(k);
    assert Pow2(k - 1) >= 1;
    assert (p - 1) * Pow2(k) >= (p - 1) * 2;
  }

  /** The complement of an exact term never is: its value is negative. */
  lemma ComplementNeverExact(m: Arith, e: Expr, w: nat, env: Env)
    requires ExactHere(m, e, w, env)
    ensures !ExactHere(m, Not(e), w, env) && (m == Exact ==> LeavesWidth(Not(e), w, env))
  {
    var n := TermValue(RenderTerm(e, w).value, w, Machine(env, w));
    assert EvalExpr(m, Not(e), env) == Ok(IntV(-n - 1));
  }

  // ---------- The exact condition for whole terms ----------

  ghost predicate AllExact(e: Expr, w: nat, env: Env) {
    forall s :: s in Subterms(e) ==> ExactHere(Exact, s, w, env)
  }

  /** No overflow test is true and every untested part is safe. */
  ghost predicate QuietAndSafe(e: Expr, w: nat, env: Env) {
    !Overflows(e, w, env) && SafeTerm(e, w, env)
  }

  lemma PartsAllExact(e: Expr, w: nat, env: Env)
    requires AllExact(e, w, env)
    ensures ExactHere(Exact, e, w, env)
    ensures e.Binary? ==> AllExact(e.lhs, w, env) && AllExact(e.rhs, w, env)
    ensures e.Cast? || e.Not? ==> AllExact(e.operand, w, env)
  {
    assert e in Subterms(e);
  }

  lemma {:induction false} ExactSubtermsAreSafe(e: Expr, w: nat, env: Env)
    requires IsTagWidth(w) && RenderTerm(e, w).Some? && AllExact(e, w, env)
    ensures QuietAndSafe(e, w, env)
    decreases e
  {
    PartsAllExact(e, w, env);
    match e
    case IntLit(n) => LiteralExactIff(n, w, env);
    case Path(_) =>
    case Binary(op, lhs, rhs) =>
      ExactSubtermsAreSafe(lhs, w, env);
      ExactSubtermsAreSafe(rhs, w, env);
      RootIsSafe(e, w, env);
    case Cast(operand, ty) =>
      ExactSubtermsAreSafe(operand, w, env);
      RootCastIsSafe(e, w, env);
    case Not(operand) =>
      PartsAllExact(operand, w, env);
      ComplementNeverExact(Exact, operand, w, env);
  }

  lemma RootCastIsSafe(e: Expr, w: nat, env: Env)
    requires e.Cast? && RenderTerm(e, w).Some? && AllExact(e, w, env) && QuietAndSafe(e.operand, w, env)
    ensures QuietAndSafe(e, w, env)
  {
    PartsAllExact(e, w, env);
    PartsAllExact(e.operand, w, env);
    CastHasWidth(e, env);
    CastExactIff(e, w, env);
  }

  /** A cast that has a value has an integer type. */
  lemma CastHasWidth(e: Expr, env: Env)
    requires e.Cast? && EvalExpr(Exact, e, env).Ok?
    ensures e.ty.Prim? && WidthOf(e.ty.prim).Some?
  {
  }

  lemma RootIsSafe(e: Expr, w: nat, env: Env)
    requires IsTagWidth(w) && e.Binary? && RenderTerm(e, w).Some? && AllExact(e, w, env)
    requires QuietAndSafe(e.lhs, w, env) && QuietAndSafe(e.rhs, w, env)
    ensures QuietAndSafe(e, w, env)
  {
    PartsAllExact(e, w, env);
    PartsAllExact(e.lhs, w, env);
    PartsAllExact(e.rhs, w, env);
    TermRenders(e, w);
    QuietParts(e, w, env);
    ExactRoot(e, w, env);
  }

  /** An exact operator on exact operands: its own test is false and its operands are safe. */
  lemma ExactRoot(e: Expr, w: nat, env: Env)
    requires IsTagWidth(w) && e.Binary? && RenderTerm(e, w).Some? && ExactHere(Exact, e, w, env)
    requires ExactHere(Exact, e.lhs, w, env) && ExactHere(Exact, e.rhs, w, env)
    ensures !OwnTest(e, w, env) && SafeOperands(e.op, ExactInt(e.lhs, env), ExactInt(e.rhs, env), w)
  {
    if e.op in {Div, Rem, Shl, Shr} {
      OperatorExactIff(e, w, env);
    }
    OperatorStep(Exact, e, w, env);
  }

  /**
  Every renderable term, casts, complements, divisions and shifts included: the machine computes the exact
  value of every subterm exactly when no overflow test is true and every untested part is safe.
   */
  lemma ExactIff(e: Expr, w: nat, env: Env)
    requires IsTagWidth(w) && RenderTerm(e, w).Some? && InRangeOn(Uses(e), env, w)
    ensures AllExact(e, w, env) <==> !Overflows(e, w, env) && SafeTerm(e, w, env)
  {
    if QuietAndSafe(e, w, env) {
      forall s | s in Subterms(e)
        ensures ExactHere(Exact, s, w, env)
      {
        SafeSubterms(Exact, e, w, env, s);
      }
    } else if AllExact(e, w, env) {
      ExactSubtermsAreSafe(e, w, env);
    }
  }

  // ---------- What the tests say without the fragment ----------

  lemma AppliedInWidth(op: TermOp, x: int, y: int, w: nat)
    requires InWidth(x, w) && InWidth(y, w)
    ensures InWidth(Apply(op, x, y, w), w)
  {
    match op
    case BvUdiv => if y > 0 { PositiveDiv(x, y); }
    case BvUrem => if y > 0 { RemIsMod(x, y); }
    case BvLshr => if 0 <= y < w { ShiftPast(x, y, w); }
    case BvAnd => BitwiseRange(AndBit, x, y, w);
    case BvOr => BitwiseRange(OrBit, x, y, w);
    case BvXor => BitwiseRange(XorBit, x, y, w);
    case _ =>
  }

  /** The machine value of every renderable term fits the width. */
  lemma {:induction false} RenderedInWidth(e: Expr, w: nat, env: Env)
    requires RenderTerm(e, w).Some?
    ensures InWidth(MachineValue(e, w, env), w)
    decreases e
  {
    match e
    case IntLit(n) =>
    case Path(_) =>
    case Binary(op, lhs, rhs) =>
      RenderedInWidth(lhs, w, env);
      RenderedInWidth(rhs, w, env);
      RenderedApply(e, w, Machine(env, w));
      AppliedInWidth(TermOpOf(op).value, MachineValue(lhs, w, env), MachineValue(rhs, w, env), w);
    case Cast(operand, _) => RenderedInWidth(operand, w, env);
    case Not(operand) =>
      RenderedInWidth(operand, w, env);
      RenderedWidth(operand, w);
  }

  /** The `+`, `-` and `*` terms in an expression. */
  function Tested(e: Expr): set<Expr> {
    match e
    case Binary(op, lhs, rhs) => (if op in {Add, Sub, Mul} then {e} else {}) + Tested(lhs) + Tested(rhs)
    case Not(operand) => Tested(operand)
    case Cast(operand, _) => Tested(operand)
    case _ => {}
  }

  /** On the machine values of its operands the exact result of the operator leaves the width. */
  ghost predicate StepLeaves(e: Expr, w: nat, env: Env) {
    && e.Binary? && RenderTerm(e.lhs, w).Some? && RenderTerm(e.rhs, w).Some?
    && !InWidth(ExactResult(e.op, MachineValue(e.lhs, w, env), MachineValue(e.rhs, w, env)), w)
  }

  ghost predicate SomeStepLeaves(e: Expr, w: nat, env: Env) {
    exists s :: s in Tested(e) && StepLeaves(s, w, env)
  }

  lemma OwnTestMeans(e: Expr, w: nat, env: Env)
    requires IsTagWidth(w) && e.Binary? && e.op in {Add, Sub, Mul} && RenderTerm(e, w).Some?
    ensures OwnTest(e, w, env) <==> StepLeaves(e, w, env)
  {
    var l, r := RenderTerm(e.lhs, w).value, RenderTerm(e.rhs, w).value;
    RenderedWidth(e.lhs, w);
    RenderedInWidth(e.lhs, w, env);
    RenderedInWidth(e.rhs, w, env);
    TestMeaning(e.op, l, r, w, Machine(env, w));
    OwnTestIs(e, w, env, OverflowTest(e.op, l, r, w));
  }

  lemma StepsOf(e: Expr, w: nat, env: Env)
    requires e.Binary?
    ensures SomeStepLeaves(e, w, env)
            <==> || SomeStepLeaves(e.lhs, w, env) || SomeStepLeaves(e.rhs, w, env)
                 || (e.op in {Add, Sub, Mul} && StepLeaves(e, w, env))
  {
    assert Tested(e) == (if e.op in {Add, Sub, Mul} then {e} else {}) + Tested(e.lhs) + Tested(e.rhs);
  }

  ghost predicate Renders(e: Expr, w: nat) {
    RenderTerm(e, w).Some? || RenderProp(e, w).Some?
  }

  lemma OperandsRender(e: Expr, w: nat)
    requires Renders(e, w)
    ensures CollectOverflow(e, w).Some?
    ensures e.Binary? ==> Renders(e.lhs, w) && Renders(e.rhs, w)
    ensures e.Binary? && e.op in {Add, Sub, Mul} ==> RenderTerm(e, w).Some?
    ensures e.Not? || e.Cast? ==> Renders(e.operand, w)
  {
    TermRenders(e, w);
    if RenderTerm(e, w).None? {
      PropRenders(e, w);
    }
  }

  lemma OwnTestIff(e: Expr, w: nat, env: Env)
    requires IsTagWidth(w) && e.Binary? && Renders(e, w)
    ensures OwnTest(e, w, env) <==> e.op in {Add, Sub, Mul} && StepLeaves(e, w, env)
  {
    OperandsRender(e, w);
    if e.op in {Add, Sub, Mul} {
      OwnTestMeans(e, w, env);
    } else {
      NoOwnTest(e, w, env);
    }
  }

  /** For every renderable expression the disjunction is true exactly when some `+`, `-` or `*` in it wraps. */
  lemma {:induction false} OverflowsMeans(e: Expr, w: nat, env: Env)
    requires IsTagWidth(w) && Renders(e, w)
    ensures CollectOverflow(e, w).Some? && (Overflows(e, w, env) <==> SomeStepLeaves(e, w, env))
    decreases e
  {
    OperandsRender(e, w);
    match e
    case Binary(op, lhs, rhs) =>
      OverflowsMeans(lhs, w, env);
      OverflowsMeans(rhs, w, env);
      QuietParts(e, w, env);
      OwnTestIff(e, w, env);
      StepsOf(e, w, env);
    case Not(operand) => OverflowsMeans(operand, w, env);
    case Cast(operand, _) => OverflowsMeans(operand, w, env);
    case _ =>
  }
}
