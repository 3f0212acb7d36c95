/**
What each operator of the covenant evaluator answers, said in arithmetic and not in the evaluator's own
helpers: equality on both kinds of value, exact, checked and wrapping arithmetic, division toward zero on
operands of either sign, shifts, the bits of the bitwise operators, comparisons and casts.
 */
module CovenantOperators {
  import opened Ast
  import opened Bits
  import opened Covenant

  lemma OnOperands(m: Arith, op: BinOp, l: Expr, r: Expr, env: Env, u: Value, v: Value)
    requires EvalExpr(m, l, env) == Ok(u) && EvalExpr(m, r, env) == Ok(v) && !IsLogical(op)
    ensures EvalExpr(m, Binary(op, l, r), env) == OnValues(m, op, u, v)
  {
  }

  /** `==` and `!=` compare values of one kind; two kinds are ill-typed. */
  lemma EqualityMeans(m: Arith, l: Expr, r: Expr, env: Env, u: Value, v: Value)
    requires EvalExpr(m, l, env) == Ok(u) && EvalExpr(m, r, env) == Ok(v)
    ensures EvalExpr(m, Binary(Eq, l, r), env)
         == if u.IntV? == v.IntV? then Ok(BoolV(u == v)) else Err(TypeMismatch)
    ensures EvalExpr(m, Binary(Ne, l, r), env)
         == if u.IntV? == v.IntV? then Ok(BoolV(u != v)) else Err(TypeMismatch)
  {
    OnOperands(m, Eq, l, r, env, u, v);
    OnOperands(m, Ne, l, r, env, u, v);
  }

  /** The outcome as that of a truth value: an integer is ill-typed. */
  function AsTruth(r: Outcome<Value>): Outcome<Value> {
    match r
    case Ok(IntV(_)) => Err(TypeMismatch)
    case other => other
  }

  /** `&&` evaluates its right operand only after `true`. */
  lemma AndMeans(m: Arith, l: Expr, r: Expr, env: Env)
    ensures EvalExpr(m, Binary(And, l, r), env)
         == match EvalExpr(m, l, env)
            case Ok(BoolV(b)) => if b then AsTruth(EvalExpr(m, r, env)) else Ok(BoolV(false))
            case other => AsTruth(other)
  {
    var e := Binary(And, l, r);
    var u, v := EvalExpr(m, l, env), EvalExpr(m, r, env);
    assert u.Err? ==> EvalExpr(m, e, env) == u;
    assert u.Ok? && u.value.IntV? ==> EvalExpr(m, e, env) == Err(TypeMismatch);
  }

  /** `||` evaluates its right operand only after `false`. */
  lemma OrMeans(m: Arith, l: Expr, r: Expr, env: Env)
    ensures EvalExpr(m, Binary(Or, l, r), env)
         == match EvalExpr(m, l, env)
            case Ok(BoolV(b)) => if b then Ok(BoolV(true)) else AsTruth(EvalExpr(m, r, env))
            case other => AsTruth(other)
  {
    var e := Binary(Or, l, r);
    var u, v := EvalExpr(m, l, env), EvalExpr(m, r, env);
    assert u.Err? ==> EvalExpr(m, e, env) == u;
    assert u.Ok? && u.value.IntV? ==> EvalExpr(m, e, env) == Err(TypeMismatch);
  }

  /** Prefix `!` is negation on truth values and complement on integers. */
  lemma NotMeans(m: Arith, e: Expr, env: Env)
    ensures forall b :: EvalExpr(m, e, env) == Ok(BoolV(b)) ==> EvalExpr(m, Not(e), env) == Ok(BoolV(!b))
    ensures forall n :: EvalExpr(m, e, env) == Ok(IntV(n)) ==> EvalExpr(m, Not(e), env) == Ok(IntV(-1 - n))
  {
  }

  predicate NeedsInts(op: BinOp) {
    !(op in {Eq, Ne, And, Or})
  }

  /** Every other operator takes two integers. */
  lemma IntsOnly(m: Arith, op: BinOp, l: Expr, r: Expr, env: Env, u: Value, v: Value)
    requires EvalExpr(m, l, env) == Ok(u) && EvalExpr(m, r, env) == Ok(v) && NeedsInts(op)
    ensures !(u.IntV? && v.IntV?) ==> EvalExpr(m, Binary(op, l, r), env) == Err(TypeMismatch)
    ensures u.IntV? && v.IntV? ==> EvalExpr(m, Binary(op, l, r), env) == OnInts(m, op, u.n, v.n)
  {
    OnOperands(m, op, l, r, env, u, v);
  }

  // ---------- Arithmetic ----------

  lemma LimitIs()
    ensures LIMIT == Pow2(127)
  {
    Pow2Values();
    assert Pow2(128) == 2 * Pow2(127);
  }

  /** The signed 128-bit numbers. */
  predicate IsSigned128(n: int) {
    0 - Pow2(127) <= n < Pow2(127)
  }

  /** `r` is the outcome of an operation with this exact result: exact, checked or reduced to 128 bits. */
  ghost predicate Delivers(m: Arith, exact: int, r: Outcome<Value>) {
    match m
    case Exact => r == Ok(IntV(exact))
    case Checked => r == if IsSigned128(exact) then Ok(IntV(exact)) else Err(Overflow)
    case Wrapping => exists n :: r == Ok(IntV(n)) && Reduced128(exact, n)
  }

  function Plus(n: int, k: int, size: int): int {
    n + k * size
  }

  /** The signed 128-bit number that `exact` is congruent to modulo 2^128. */
  ghost predicate Reduced128(exact: int, n: int) {
    IsSigned128(n) && exists k :: exact == Plus(n, k, Pow2(128))
  }

  lemma WrapReduces(n: int)
    ensures Reduced128(n, Wrap(n))
  {
    LimitIs();
    Pow2Values();
    var k := (n + LIMIT) / (2 * LIMIT);
    assert n + LIMIT == k * (2 * LIMIT) + (n + LIMIT) % (2 * LIMIT);
    assert n == Plus(Wrap(n), k, Pow2(128));
  }

  lemma ArithmeticMeans(m: Arith, a: int, b: int)
    ensures Delivers(m, a + b, OnInts(m, Add, a, b))
    ensures Delivers(m, a - b, OnInts(m, Sub, a, b))
    ensures Delivers(m, a * b, OnInts(m, Mul, a, b))
  {
    LimitIs();
    WrapReduces(a + b);
    WrapReduces(a - b);
    WrapReduces(a * b);
  }

  /** Division toward zero: the remainder is smaller than the divisor and has the sign of the dividend. */
  ghost predicate DividesTowardZero(a: int, b: int, q: int, r: int) {
    a == b * q + r && Abs(r) < Abs(b) && (a >= 0 ==> r >= 0) && (a <= 0 ==> r <= 0)
  }

  lemma QuotientTowardZero(a: int, b: int)
    requires b != 0
    ensures DividesTowardZero(a, b, TruncDiv(a, b), TruncRem(a, b))
  {
    if a >= 0 {
      assert a == b * (a / b) + a % b;
    } else {
      assert -a == b * ((-a) / b) + (-a) % b;
      assert b * -((-a) / b) == -(b * ((-a) / b));
    }
  }

  /** These three determine quotient and remainder. */
  lemma TowardZeroIsUnique(a: int, b: int, q: int, r: int, q': int, r': int)
    requires b != 0 && DividesTowardZero(a, b, q, r) && DividesTowardZero(a, b, q', r')
    ensures q == q' && r == r'
  {
    var d, p := q - q', Abs(b);
    assert b * d == b * q - b * q' == r' - r;
    Multiples(d, p);
    assert b * d == if b > 0 then d * p else -(d * p);
  }

  lemma DivisionMeans(m: Arith, a: int, b: int)
    ensures b == 0 ==> OnInts(m, Div, a, b) == OnInts(m, Rem, a, b) == Err(Trap)
    ensures m != Exact && a == 0 - Pow2(127) && b == -1 ==>
              OnInts(m, Div, a, b) == OnInts(m, Rem, a, b) == Err(Overflow)
    ensures b != 0 && !(m != Exact && a == 0 - Pow2(127) && b == -1) ==>
              exists q, r ::
                && OnInts(m, Div, a, b) == Ok(IntV(q)) && OnInts(m, Rem, a, b) == Ok(IntV(r))
                && DividesTowardZero(a, b, q, r)
  {
    LimitIs();
    if b != 0 {
      QuotientTowardZero(a, b);
    }
  }

  lemma FloorDiv(a: int, p: int)
    requires p > 0
    ensures a / p * p <= a < (a / p + 1) * p
  {
    MulDistributes(a / p, 1, p);
  }

  /** Shifts by 0 to 127: to the left as multiplication without an overflow check, to the right rounding down. */
  lemma ShiftsMean(m: Arith, a: int, b: int)
    ensures !(0 <= b < 128) ==> OnInts(m, Shl, a, b) == OnInts(m, Shr, a, b) == Err(Trap)
    ensures 0 <= b < 128 ==> Delivers(if m == Checked then Wrapping else m, a * Pow2(b), OnInts(m, Shl, a, b))
    ensures 0 <= b < 128 ==>
              exists q :: OnInts(m, Shr, a, b) == Ok(IntV(q)) && q * Pow2(b) <= a < (q + 1) * Pow2(b)
  {
    if 0 <= b < 128 {
      WrapReduces(a * Pow2(b));
      FloorDiv(a, Pow2(b));
    }
  }

  lemma ComparisonsMean(m: Arith, a: int, b: int)
    ensures OnInts(m, Lt, a, b) == Ok(BoolV(a < b)) && OnInts(m, Le, a, b) == Ok(BoolV(a < b || a == b))
    ensures OnInts(m, Gt, a, b) == Ok(BoolV(b < a)) && OnInts(m, Ge, a, b) == Ok(BoolV(b < a || a == b))
  {
  }

  // ---------- Bits ----------

  /** Bit `k` of the infinite two's-complement form. */
  function Bit(n: int, k: nat): int {
    n / Pow2(k) % 2
  }

  lemma BitOfHalf(n: int, k: nat)
    ensures Bit(n, k + 1) == Bit(n / 2, k) && Bit(n, 0) == n % 2
  {
    var p := Pow2(k);
    var q, r := n / 2 / p, n / 2 % p;
    assert n / 2 == q * p + r;
    MulAssoc(q, 2, p);
    DivIs(n, 2 * r + n % 2, q, 2 * p);
  }

  lemma {:induction false} BitOfBitwise(op: BitOp, a: int, b: int, k: nat)
    ensures Bit(Bitwise(op, a, b), k) == OnBits(op, Bit(a, k), Bit(b, k))
    decreases k
  {
    BitwiseStep(op, a, b);
    var n := Bitwise(op, a, b);
    assert n / 2 == Bitwise(op, a / 2, b / 2) && n % 2 == OnBits(op, a % 2, b % 2);
    if k == 0 {
      BitOfHalf(n, 0);
      BitOfHalf(a, 0);
      BitOfHalf(b, 0);
    } else {
      BitOfHalf(n, k - 1);
      BitOfHalf(a, k - 1);
      BitOfHalf(b, k - 1);
      BitOfBitwise(op, a / 2, b / 2, k - 1);
    }
  }

  /** Each bit of the result is decided by the two bits at its place. */
  lemma BitwiseMeans(m: Arith, a: int, b: int) returns (and: int, or: int, xor: int)
    ensures OnInts(m, BitAnd, a, b) == Ok(IntV(and)) && OnInts(m, BitOr, a, b) == Ok(IntV(or))
    ensures OnInts(m, BitXor, a, b) == Ok(IntV(xor))
    ensures forall k: nat :: Bit(and, k) == 1 <==> Bit(a, k) == 1 && Bit(b, k) == 1
    ensures forall k: nat :: Bit(or, k) == 1 <==> Bit(a, k) == 1 || Bit(b, k) == 1
    ensures forall k: nat :: Bit(xor, k) == 1 <==> Bit(a, k) != Bit(b, k)
    ensures and + or == a + b && or == xor + and
  {
    and, or, xor := Bitwise(AndBit, a, b), Bitwise(OrBit, a, b), Bitwise(XorBit, a, b);
    forall k: nat
      ensures Bit(and, k) == 1 <==> Bit(a, k) == 1 && Bit(b, k) == 1
      ensures Bit(or, k) == 1 <==> Bit(a, k) == 1 || Bit(b, k) == 1
      ensures Bit(xor, k) == 1 <==> Bit(a, k) != Bit(b, k)
    {
      BitOfBitwise(AndBit, a, b, k);
      BitOfBitwise(OrBit, a, b, k);
      BitOfBitwise(XorBit, a, b, k);
    }
    BitwiseSums(a, b);
  }

  lemma {:induction false} BitwiseSums(a: int, b: int)
    ensures Bitwise(AndBit, a, b) + Bitwise(OrBit, a, b) == a + b
    ensures Bitwise(OrBit, a, b) == Bitwise(XorBit, a, b) + Bitwise(AndBit, a, b)
    decreases Abs(a) + Abs(b)
  {
    if !(IsSign(a) && IsSign(b)) {
      BitwiseSums(a / 2, b / 2);
    }
  }

  // ---------- Casts ----------

  /** `r` is the value of `n` modulo `size`. */
  ghost predicate ReducedTo(r: Outcome<Value>, n: int, size: int) {
    r.Ok? && r.value.IntV? && 0 <= r.value.n < size && exists k :: n == Plus(r.value.n, k, size)
  }

  lemma ReductionIs(n: int, size: int)
    requires size > 0
    ensures ReducedTo(Ok(IntV(n % size)), n, size)
  {
    assert n == Plus(n % size, n / size, size);
  }

  /** A cast to an integer type keeps the low bits; `bool` is no target, and truth values are no operands. */
  lemma CastsMean(m: Arith, e: Expr, p: PrimType, env: Env, v: Value)
    requires EvalExpr(m, e, env) == Ok(v)
    ensures v.BoolV? ==> EvalExpr(m, Cast(e, Prim(p)), env) == Err(TypeMismatch)
    ensures v.IntV? ==>
              match p
              case U8 => ReducedTo(EvalExpr(m, Cast(e, Prim(p)), env), v.n, 0x100)
              case U16 => ReducedTo(EvalExpr(m, Cast(e, Prim(p)), env), v.n, 0x1_0000)
              case U32 => ReducedTo(EvalExpr(m, Cast(e, Prim(p)), env), v.n, 0x1_0000_0000)
              case Bool => EvalExpr(m, Cast(e, Prim(p)), env) == Err(TypeMismatch)
              case _ => ReducedTo(EvalExpr(m, Cast(e, Prim(p)), env), v.n, 0x1_0000_0000_0000_0000)
  {
    if v.IntV? && WidthOf(p).Some? {
      Pow2Values();
      ReductionIs(v.n, Pow2(WidthOf(p).value));
      assert EvalExpr(m, Cast(e, Prim(p)), env) == Ok(IntV(v.n % Pow2(WidthOf(p).value)));
    }
  }
}
