/**
The part of SMT-LIB that the bit-vector lowering emits, with the semantics of the theory
FixedSizeBitVectors (logic QF_BV). A bit-vector is represented by the natural number it denotes.
 */
module Smt {
  import opened Bits

  datatype TermOp = BvAdd | BvSub | BvMul | BvUdiv | BvUrem | BvShl | BvLshr | BvAnd | BvOr | BvXor

  datatype Term =
    | Const(value: nat, width: nat)
    | Var(name: string)
    | App(op: TermOp, l: Term, r: Term)
    | BvNot(t: Term)
    | ZeroExtend(extra: nat, t: Term)
    | Extract(hi: nat, lo: nat, t: Term)

  datatype Rel = Equal | Ult | Ule | Ugt | Uge

  datatype Prop =
    | Truth(b: bool)
    | Compare(rel: Rel, l: Term, r: Term)
    | Neg(p: Prop)
    | Conj(p: Prop, q: Prop)
    | Disj(p: Prop, q: Prop)
    | AnyOf(ps: seq<Prop>)

  /** A name outside the domain reads as zero. */
  type Assignment = map<string, int>

  function Read(a: Assignment, x: string): int {
    if x in a then a[x] else 0
  }

  /** The width of a term whose variables have width `w`. */
  function WidthIn(t: Term, w: nat): nat {
    match t
    case Const(_, width) => width
    case Var(_) => w
    case App(_, l, _) => WidthIn(l, w)
    case BvNot(u) => WidthIn(u, w)
    case ZeroExtend(extra, u) => extra + WidthIn(u, w)
    case Extract(hi, lo, _) => if hi >= lo then hi - lo + 1 else 0
  }

  /** The operators at width `n`; division by zero is all ones, and its remainder the dividend. */
  function Apply(op: TermOp, x: int, y: int, n: nat): int {
    var m := Pow2(n);
    match op
    case BvAdd => (x + y) % m
    case BvSub => (x - y) % m
    case BvMul => (x * y) % m
    case BvUdiv => if y == 0 then m - 1 else x / y
    case BvUrem => if y == 0 then x else x % y
    case BvShl => if 0 <= y < n then (x * Pow2(y)) % m else 0
    case BvLshr => if 0 <= y < n then x / Pow2(y) else 0
    case BvAnd => Bitwise(AndBit, x, y)
    case BvOr => Bitwise(OrBit, x, y)
    case BvXor => Bitwise(XorBit, x, y)
  }

  function TermValue(t: Term, w: nat, a: Assignment): int {
    match t
    case Const(value, _) => value
    case Var(x) => Read(a, x)
    case App(op, l, r) => Apply(op, TermValue(l, w, a), TermValue(r, w, a), WidthIn(l, w))
    case BvNot(u) => Pow2(WidthIn(u, w)) - 1 - TermValue(u, w, a)
    case ZeroExtend(_, u) => TermValue(u, w, a)
    case Extract(hi, lo, u) => (TermValue(u, w, a) / Pow2(lo)) % Pow2(WidthIn(t, w))
  }

  function Holds(rel: Rel, x: int, y: int): bool {
    match rel
    case Equal => x == y
    case Ult => x < y
    case Ule => x <= y
    case Ugt => x > y
    case Uge => x >= y
  }

  function PropValue(p: Prop, w: nat, a: Assignment): bool {
    match p
    case Truth(b) => b
    case Compare(rel, l, r) => Holds(rel, TermValue(l, w, a), TermValue(r, w, a))
    case Neg(q) => !PropValue(q, w, a)
    case Conj(q, r) => PropValue(q, w, a) && PropValue(r, w, a)
    case Disj(q, r) => PropValue(q, w, a) || PropValue(r, w, a)
    case AnyOf(ps) => exists q :: q in ps && PropValue(q, w, a)
  }

  function TermNames(t: Term): set<string> {
    match t
    case Const(_, _) => {}
    case Var(x) => {x}
    case App(_, l, r) => TermNames(l) + TermNames(r)
    case BvNot(u) => TermNames(u)
    case ZeroExtend(_, u) => TermNames(u)
    case Extract(_, _, u) => TermNames(u)
  }

  function PropNames(p: Prop): set<string> {
    match p
    case Truth(_) => {}
    case Compare(_, l, r) => TermNames(l) + TermNames(r)
    case Neg(q) => PropNames(q)
    case Conj(q, r) => PropNames(q) + PropNames(r)
    case Disj(q, r) => PropNames(q) + PropNames(r)
    case AnyOf(ps) => set q, x | q in ps && x in PropNames(q) :: x
  }

  // ---------- Queries and solvers ----------

  /** `declare-const` for every variable, then the assertions, under an optional resource limit. */
  datatype Query = Query(vars: seq<string>, width: nat, rlimit: nat, asserts: seq<Prop>)

  /** The first token of the solver's output, with the model text after `sat`. */
  datatype Answer = Unsat | Sat(model: string) | Undecided | NoResult

  type Solver = Query -> Answer

  ghost predicate Declared(q: Query) {
    forall p :: p in q.asserts ==> forall x :: x in PropNames(p) ==> x in q.vars
  }

  ghost predicate Satisfies(a: Assignment, q: Query) {
    && (forall v :: v in q.vars ==> 0 <= Read(a, v) < Pow2(q.width))
    && forall p :: p in q.asserts ==> PropValue(p, q.width, a)
  }

  /** `unsat` is answered only for well-declared queries that no assignment satisfies. */
  ghost predicate Refutes(solver: Solver) {
    forall q: Query :: solver(q) == Unsat ==> Declared(q) && forall a :: !Satisfies(a, q)
  }

  /** An oracle: it answers `unsat` exactly when the query is well declared and no assignment satisfies it. */
  ghost predicate Decides(solver: Solver) {
    forall q: Query :: solver(q) == Unsat <==> Declared(q) && forall a :: !Satisfies(a, q)
  }
}
