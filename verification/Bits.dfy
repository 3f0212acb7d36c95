/** Powers of two, residues, and two's-complement bitwise operations on unbounded integers. */
module Bits {

  function Pow2(n: nat): (r: nat)
    ensures r > 0
  {
    if n == 0 then 1 else 2 * Pow2(n - 1)
  }

  lemma {:induction false} Pow2Sum(a: nat, b: nat)
    ensures Pow2(a + b) == Pow2(a) * Pow2(b)
  {
    if a > 0 {
      Pow2Sum(a - 1, b);
      MulAssoc(2, Pow2(a - 1), Pow2(b));
    }
  }

  lemma MulAssoc(a: int, b: int, c: int)
    ensures a * (b * c) == (a * b) * c
  {
  }

  lemma {:induction false} Pow2Monotone(a: nat, b: nat)
    requires a <= b
    ensures Pow2(a) <= Pow2(b)
  {
    if a < b {
      Pow2Monotone(a, b - 1);
    }
  }

  lemma Pow2Square(n: nat, v: nat)
    requires Pow2(n) == v
    ensures Pow2(n + n) == v * v
  {
    Pow2Sum(n, n);
  }

  lemma Pow2Values()
    ensures Pow2(8) == 0x100 && Pow2(16) == 0x1_0000 && Pow2(32) == 0x1_0000_0000
    ensures Pow2(64) == 0x1_0000_0000_0000_0000
    ensures Pow2(128) == 0x1_0000_0000_0000_0000_0000_0000_0000_0000
  {
    assert Pow2(4) == 16;
    Pow2Square(4, 16);
    Pow2Square(8, 0x100);
    Pow2Square(16, 0x1_0000);
    Pow2Square(32, 0x1_0000_0000);
    Pow2Square(64, 0x1_0000_0000_0000_0000);
  }

  // ---------- Residues ----------

  lemma Multiples(d: int, m: int)
    requires m > 0
    ensures d >= 1 ==> d * m >= m
    ensures d <= -1 ==> d * m <= -m
  {
  }

  /** The residue is the unique representative in range. */
  lemma ModIs(x: int, r: int, q: int, m: int)
    requires m > 0 && x == r + q * m && 0 <= r < m
    ensures x % m == r
  {
    var d := q - x / m;
    Multiples(d, m);
    assert d * m == x % m - r;
  }

  lemma DivIs(x: int, r: int, q: int, m: int)
    requires m > 0 && x == r + q * m && 0 <= r < m
    ensures x / m == q
  {
    ModIs(x, r, q, m);
    Multiples(x / m - q, m);
    assert (x / m - q) * m == x / m * m - q * m;
  }

  /** Dividing a natural number by a positive one. */
  lemma PositiveDiv(a: nat, b: int)
    requires b > 0
    ensures 0 <= a / b <= a
  {
    var q := a / b;
    assert a == q * b + a % b;
    Multiples(q, b);
    if q >= 1 {
      MulGrows(q, b);
    }
  }

  lemma MulDistributes(a: int, b: int, k: int)
    ensures (a + b) * k == a * k + b * k
  {
  }

  lemma MulGrows(q: int, b: int)
    requires q >= 0 && b >= 1
    ensures q * b >= q
  {
  }

  /** Floor division of a negative number, in terms of a natural one. */
  lemma NegativeFloor(a: int, b: int)
    requires a < 0 && b > 0
    ensures a / b == -((-a - 1) / b) - 1
    ensures a <= a / b < 0
  {
    var t, r := (-a - 1) / b, (-a - 1) % b;
    assert -a - 1 == t * b + r;
    assert (-t - 1) * b == -(t * b) - b;
    DivIs(a, b - 1 - r, -t - 1, b);
    PositiveDiv(-a - 1, b);
  }

  lemma ModShift(x: int, q: int, m: int)
    requires m > 0
    ensures (x + q * m) % m == x % m
  {
    ModIs(x + q * m, x % m, x / m + q, m);
  }

  lemma ModAdd(a: int, b: int, m: int)
    requires m > 0
    ensures (a + b) % m == (a % m + b % m) % m
  {
    ModShift(a % m + b % m, a / m + b / m, m);
    assert a + b == a % m + b % m + (a / m + b / m) * m;
  }

  lemma ModSub(a: int, b: int, m: int)
    requires m > 0
    ensures (a - b) % m == (a % m - b % m) % m
  {
    ModShift(a % m - b % m, a / m - b / m, m);
    assert a - b == a % m - b % m + (a / m - b / m) * m;
  }

  lemma ModMul(a: int, b: int, m: int)
    requires m > 0
    ensures (a * b) % m == ((a % m) * (b % m)) % m
  {
    var p, q := a / m, b / m;
    var r, s := a % m, b % m;
    assert a * b == r * s + (p * m * s) + (r + p * m) * (q * m) by {
      assert a == r + p * m && b == s + q * m;
      Distribute(r, p * m, s, q * m);
    }
    var k := p * s + (r + p * m) * q;
    assert (p * m * s) + (r + p * m) * (q * m) == k * m;
    ModShift(r * s, k, m);
  }

  lemma Distribute(a: int, b: int, c: int, d: int)
    ensures (a + b) * (c + d) == a * c + b * c + (a + b) * d
  {
  }

  /** Reducing modulo a multiple first changes nothing. */
  lemma ModMod(x: int, k: int, m: int)
    requires m > 0 && k > 0
    ensures k * m > 0 && (x % (k * m)) % m == x % m
  {
    assert k * m > 0;
    var q := x / (k * m);
    assert x == x % (k * m) + (q * k) * m;
    ModShift(x % (k * m), q * k, m);
  }

  lemma ModPow2(x: int, small: nat, big: nat)
    requires small <= big
    ensures (x % Pow2(big)) % Pow2(small) == x % Pow2(small)
  {
    Pow2Sum(big - small, small);
    ModMod(x, Pow2(big - small), Pow2(small));
  }

  lemma ModSmall(x: int, m: int)
    requires 0 <= x < m
    ensures x % m == x
  {
  }

  // ---------- Bitwise operations ----------

  datatype BitOp = AndBit | OrBit | XorBit

  function OnBits(op: BitOp, x: int, y: int): (r: int)
    requires 0 <= x <= 1 && 0 <= y <= 1
    ensures 0 <= r <= 1
    ensures x == 0 && y == 0 ==> r == 0
  {
    match op
    case AndBit => if x == 1 && y == 1 then 1 else 0
    case OrBit => if x == 1 || y == 1 then 1 else 0
    case XorBit => if x != y then 1 else 0
  }

  predicate IsSign(x: int) {
    x == 0 || x == -1
  }

  function Abs(x: int): nat {
    if x < 0 then -x else x
  }

  /** The operation on every bit of the infinite two's-complement forms of `a` and `b`. */
  function Bitwise(op: BitOp, a: int, b: int): int
    decreases Abs(a) + Abs(b)
  {
    if IsSign(a) && IsSign(b) then -OnBits(op, -a, -b)
    else 2 * Bitwise(op, a / 2, b / 2) + OnBits(op, a % 2, b % 2)
  }

  lemma BitwiseStep(op: BitOp, a: int, b: int)
    ensures Bitwise(op, a, b) == 2 * Bitwise(op, a / 2, b / 2) + OnBits(op, a % 2, b % 2)
  {
  }

  /** Operands of `n` bits give a result of `n` bits. */
  lemma {:induction false} BitwiseRange(op: BitOp, a: int, b: int, n: nat)
    requires 0 <= a < Pow2(n) && 0 <= b < Pow2(n)
    ensures 0 <= Bitwise(op, a, b) < Pow2(n)
  {
    if n > 0 {
      BitwiseStep(op, a, b);
      BitwiseRange(op, a / 2, b / 2, n - 1);
    }
  }

  lemma HalfMod(x: int, n: nat)
    requires n > 0
    ensures (x % Pow2(n)) % 2 == x % 2
    ensures (x % Pow2(n)) / 2 == (x / 2) % Pow2(n - 1)
  {
    ModPow2(x, 1, n);
    assert Pow2(1) == 2;
    var r := x % Pow2(n);
    var q := x / Pow2(n);
    assert x == r + 2 * (q * Pow2(n - 1));
    assert x / 2 == r / 2 + q * Pow2(n - 1);
    ModIs(x / 2, r / 2, q, Pow2(n - 1));
  }

  lemma ModOfDouble(high: int, bit: int, p: int)
    requires p > 0 && 0 <= bit <= 1
    ensures (2 * high + bit) % (2 * p) == 2 * (high % p) + bit
  {
    var q := high / p;
    assert high == high % p + q * p;
    MulAssoc(q, 2, p);
    ModIs(2 * high + bit, 2 * (high % p) + bit, q, 2 * p);
  }

  /** The low `n` bits of the result depend only on the low `n` bits of the operands. */
  lemma {:induction false} BitwiseMod(op: BitOp, a: int, b: int, n: nat)
    ensures Bitwise(op, a, b) % Pow2(n) == Bitwise(op, a % Pow2(n), b % Pow2(n))
    decreases n
  {
    if n == 0 {
      assert a % 1 == 0 && b % 1 == 0;
    } else {
      HalfMod(a, n);
      HalfMod(b, n);
      BitwiseMod(op, a / 2, b / 2, n - 1);
      BitwiseStep(op, a, b);
      BitwiseStep(op, a % Pow2(n), b % Pow2(n));
      ModOfDouble(Bitwise(op, a / 2, b / 2), OnBits(op, a % 2, b % 2), Pow2(n - 1));
    }
  }

  // ---------- Digits ----------

  /** The digits of the bases up to 16. */
  const HEX := "0123456789abcdef"
}
