/**
Which expressions occur in an expression, a block or an item: the direct parts of each form of syntax, in source
order, closed transitively. The definitions know nothing of the two call collectors, which are measured against
them.
 */
module Occurrences {
  import opened Ast

  // ---------- Direct parts, in source order ----------

  function Parts(e: Expr): seq<Expr> {
    match e
    case Call(callee, args) => [callee] + args
    case MethodCall(receiver, _, args) => [receiver] + args
    case Field(receiver, _) => [receiver]
    case TupleProj(receiver, _) => [receiver]
    case Closure(_, body) => [body]
    case Match(scrutinee, arms) => [scrutinee] + ArmParts(arms)
    case If(cond, thn, els) => [cond] + BlockParts(thn) + BlockParts(els)
    case Binary(_, lhs, rhs) => [lhs, rhs]
    case Index(base, index) => [base] + IndexParts(index)
    case Cast(operand, _) => [operand]
    case Ref(_, operand) => [operand]
    case Deref(operand) => [operand]
    case Not(operand) => [operand]
    case Is(scrutinee, _) => [scrutinee]
    case StructLit(_, fields) => FieldParts(fields)
    case Tuple(elems) => elems
    case Quantifier(_, _, _, domain, formula) => [domain, formula]
    case _ => []
  }

  function OptionParts(o: Option<Expr>): seq<Expr> {
    match o case Some(e) => [e] case None => []
  }

  function IndexParts(index: IndexArg): seq<Expr> {
    match index
    case Single(e) => [e]
    case RangeTo(e) => [e]
    case RangeFrom(e) => [e]
    case Range(a, b) => [a, b]
  }

  function ArmParts(arms: seq<MatchArm>): seq<Expr> {
    if arms == [] then [] else OptionParts(arms[0].guard) + [arms[0].body] + ArmParts(arms[1..])
  }

  function FieldParts(fields: seq<FieldInit>): seq<Expr> {
    if fields == [] then [] else [fields[0].value] + FieldParts(fields[1..])
  }

  function BlockParts(b: Block): seq<Expr>
    decreases b
  {
    StmtsParts(b.stmts) + OptionParts(b.tail)
  }

  function StmtsParts(stmts: seq<Stmt>): seq<Expr>
    decreases stmts
  {
    if stmts == [] then [] else StmtParts(stmts[0]) + StmtsParts(stmts[1..])
  }

  function ElseParts(els: Option<Block>): seq<Expr>
    decreases els
  {
    match els case Some(b) => BlockParts(b) case None => []
  }

  function StmtParts(s: Stmt): seq<Expr>
    decreases s
  {
    match s
    case Let(_, _, init) => [init]
    case Assign(target, value) => [target, value]
    case Return(result) => OptionParts(result)
    case IfStmt(cond, thn, els) => [cond] + BlockParts(thn) + ElseParts(els)
    case Loop(invs, dec, guard, body) => invs + [dec] + OptionParts(guard) + BlockParts(body)
    case ExprStmt(e) => [e]
    case Break => []
    case Continue => []
  }

  /** The expressions of an item's body. */
  function BodyParts(item: Item): seq<Expr> {
    match item
    case Fn(_, _, _, _, _, _, body) => ElseParts(body)
    case SpecFn(_, _, body) => BlockParts(body)
    case _ => []
  }

  /** The expressions of a whole item: contract, measure, invariant and body. */
  function ItemParts(item: Item): seq<Expr> {
    match item
    case Fn(_, _, _, req, ens, dec, _) => [req] + ens + OptionParts(dec) + BodyParts(item)
    case SpecFn(_, dec, _) => [dec] + BodyParts(item)
    case Struct(_, inv) => OptionParts(inv)
    case _ => []
  }

  // ---------- Parts are smaller ----------

  /** The part lies inside, so that recursion may go there. */
  ghost predicate ArmHolds(arm: MatchArm, part: Expr) {
    arm decreases to part
  }

  ghost predicate ArmsHold(arms: seq<MatchArm>, part: Expr) {
    arms decreases to part
  }

  ghost predicate FieldsHold(fields: seq<FieldInit>, part: Expr) {
    fields decreases to part
  }

  ghost predicate BlockHolds(b: Block, part: Expr) {
    b decreases to part
  }

  ghost predicate StmtsHold(stmts: seq<Stmt>, part: Expr) {
    stmts decreases to part
  }

  ghost predicate StmtHolds(s: Stmt, part: Expr) {
    s decreases to part
  }

  ghost predicate ExprHolds(e: Expr, part: Expr) {
    e decreases to part
  }

  lemma GuardSmaller(arm: MatchArm, guard: Option<Expr>, part: Expr)
    requires guard == arm.guard == Some(part)
    ensures ArmHolds(arm, part)
  {
    assert arm decreases to guard;
    assert guard decreases to part;
  }

  lemma {:induction false} ArmSmaller(arms: seq<MatchArm>, part: Expr)
    requires part in ArmParts(arms)
    ensures ArmsHold(arms, part)
  {
    var arm := arms[0];
    if part in ArmParts(arms[1..]) {
      ArmSmaller(arms[1..], part);
    } else if part != arm.body {
      GuardSmaller(arm, arm.guard, part);
      assert arms decreases to arm;
    }
  }

  lemma {:induction false} FieldSmaller(fields: seq<FieldInit>, part: Expr)
    requires part in FieldParts(fields)
    ensures FieldsHold(fields, part)
  {
    if part != fields[0].value {
      FieldSmaller(fields[1..], part);
    }
  }

  lemma {:induction false} BlockSmaller(b: Block, part: Expr)
    requires part in BlockParts(b)
    ensures BlockHolds(b, part)
    decreases b
  {
    if part in StmtsParts(b.stmts) {
      StmtsSmaller(b.stmts, part);
    }
  }

  lemma {:induction false} StmtsSmaller(stmts: seq<Stmt>, part: Expr)
    requires part in StmtsParts(stmts)
    ensures StmtsHold(stmts, part)
    decreases stmts
  {
    if part in StmtParts(stmts[0]) {
      StmtSmaller(stmts[0], part);
    } else {
      StmtsSmaller(stmts[1..], part);
    }
  }

  lemma {:induction false} StmtSmaller(s: Stmt, part: Expr)
    requires part in StmtParts(s)
    ensures StmtHolds(s, part)
    decreases s
  {
    match s
    case IfStmt(cond, thn, els) =>
      if part in BlockParts(thn) {
        BlockSmaller(thn, part);
      } else if els.Some? && part in BlockParts(els.value) {
        BlockSmaller(els.value, part);
      }
    case Loop(invs, dec, guard, body) =>
      if part in BlockParts(body) {
        BlockSmaller(body, part);
      }
    case _ =>
  }

  lemma PartSmaller(e: Expr, part: Expr)
    requires part in Parts(e)
    ensures ExprHolds(e, part)
  {
    match e
    case Match(_, arms) => if part in ArmParts(arms) { ArmSmaller(arms, part); }
    case If(_, thn, els) =>
      if part in BlockParts(thn) {
        BlockSmaller(thn, part);
      } else if part in BlockParts(els) {
        BlockSmaller(els, part);
      }
    case StructLit(_, fields) => FieldSmaller(fields, part);
    case _ =>
  }

  // ---------- Occurrence ----------

  /** Each expression is a direct part of the one before it. */
  predicate Chain(path: seq<Expr>) {
    path != [] && (|path| == 1 || (path[1] in Parts(path[0]) && Chain(path[1..])))
  }

  /** `x` is `e` or lies inside it. */
  ghost predicate Within(x: Expr, e: Expr) {
    exists path :: Chain(path) && path[0] == e && path[|path| - 1] == x
  }

  /** An expression with the property is `e` or lies inside it. */
  ghost predicate Has(hit: Expr -> bool, e: Expr) {
    exists x :: Within(x, e) && hit(x)
  }

  ghost predicate SomeHas(hit: Expr -> bool, parts: seq<Expr>) {
    exists e :: e in parts && Has(hit, e)
  }

  lemma WithinSelf(e: Expr)
    ensures Within(e, e)
  {
    assert Chain([e]);
  }

  lemma ChainGrows(e: Expr, path: seq<Expr>)
    requires Chain(path) && path[0] in Parts(e)
    ensures Chain([e] + path)
  {
    assert ([e] + path)[1..] == path;
  }

  lemma WithinPart(x: Expr, part: Expr, e: Expr)
    requires part in Parts(e) && Within(x, part)
    ensures Within(x, e)
  {
    var path :| Chain(path) && path[0] == part && path[|path| - 1] == x;
    ChainGrows(e, path);
    var longer := [e] + path;
    assert longer[0] == e && longer[|longer| - 1] == x;
  }

  lemma WithinCases(x: Expr, e: Expr)
    requires Within(x, e)
    ensures x == e || exists part :: part in Parts(e) && Within(x, part)
  {
    var path :| Chain(path) && path[0] == e && path[|path| - 1] == x;
    if |path| > 1 {
      assert Chain(path[1..]) && path[1..][0] == path[1] && path[1..][|path[1..]| - 1] == x;
      assert Within(x, path[1]);
    }
  }

  /** The property is met by the expression itself or inside one of its parts. */
  lemma HasCases(hit: Expr -> bool, e: Expr)
    ensures Has(hit, e) <==> hit(e) || SomeHas(hit, Parts(e))
  {
    if hit(e) {
      WithinSelf(e);
    }
    if SomeHas(hit, Parts(e)) {
      var part :| part in Parts(e) && Has(hit, part);
      var x :| Within(x, part) && hit(x);
      WithinPart(x, part, e);
    }
    if Has(hit, e) && !hit(e) {
      var x :| Within(x, e) && hit(x);
      WithinCases(x, e);
      var part :| part in Parts(e) && Within(x, part);
      assert Has(hit, part);
    }
  }

  // ---------- Collecting in source order ----------

  /** What `f` gives for the expressions of a list, in order. */
  function Gather<T>(parts: seq<Expr>, f: Expr -> seq<T>): seq<T> {
    if parts == [] then [] else f(parts[0]) + Gather(parts[1..], f)
  }

  lemma {:induction false} GatherConcat<T>(a: seq<Expr>, b: seq<Expr>, f: Expr -> seq<T>)
    ensures Gather(a + b, f) == Gather(a, f) + Gather(b, f)
  {
    if a == [] {
      assert a + b == b;
    } else {
      assert (a + b)[1..] == a[1..] + b;
      GatherConcat(a[1..], b, f);
    }
  }

  lemma GatherOne<T>(e: Expr, f: Expr -> seq<T>)
    ensures Gather([e], f) == f(e)
  {
    assert [e][1..] == [];
  }

  lemma GatherTwo<T>(a: Expr, b: Expr, f: Expr -> seq<T>)
    ensures Gather([a, b], f) == f(a) + f(b)
  {
    assert [a, b][1..] == [b];
    GatherOne(b, f);
  }

  lemma {:induction false} GatherMeans<T>(parts: seq<Expr>, f: Expr -> seq<T>, t: T)
    ensures t in Gather(parts, f) <==> exists e :: e in parts && t in f(e)
  {
    if parts != [] {
      GatherMeans(parts[1..], f, t);
    }
  }

  /** `f` lists what `own` says of an expression, then, in source order, what `f` lists of its parts. */
  ghost predicate CollectsInOrder<T>(f: Expr -> seq<T>, own: Expr -> seq<T>) {
    forall e :: f(e) == own(e) + Gather(Parts(e), f)
  }

  /** Such a function lists exactly what `own` says of the expressions that occur. */
  lemma {:induction false} CollectedOccurs<T>(f: Expr -> seq<T>, own: Expr -> seq<T>, e: Expr, t: T)
    requires CollectsInOrder(f, own)
    ensures t in f(e) <==> exists x :: Within(x, e) && t in own(x)
    decreases e
  {
    forall part | part in Parts(e)
      ensures t in f(part) <==> exists x :: Within(x, part) && t in own(x)
    {
      PartSmaller(e, part);
      CollectedOccurs(f, own, part, t);
    }
    GatherMeans(Parts(e), f, t);
    if t in own(e) {
      WithinSelf(e);
    } else if t in f(e) {
      var part :| part in Parts(e) && t in f(part);
      var x :| Within(x, part) && t in own(x);
      WithinPart(x, part, e);
    }
    forall x | Within(x, e) && t in own(x)
      ensures t in f(e)
    {
      WithinCases(x, e);
      if x != e {
        var part :| part in Parts(e) && Within(x, part);
        assert t in f(part);
      }
    }
  }

  // ---------- Calls ----------

  /** A call of a plain name. */
  predicate CallsPlainly(x: Expr, n: string) {
    x.Call? && x.callee.Path? && x.callee.segments == [n]
  }

  /** A call of a qualified path that starts with `root`. */
  predicate CallsQualified(x: Expr, root: string) {
    x.Call? && x.callee.Path? && |x.callee.segments| > 1 && x.callee.segments[0] == root
  }

  /** A call of anything but a path. */
  predicate CallsIndirectly(x: Expr) {
    x.Call? && !x.callee.Path?
  }

  /** A method call of this name. */
  predicate CallsMethod(x: Expr, n: string) {
    x.MethodCall? && x.name == n
  }

  /** A call of a path, plain or qualified, that starts with `n`. */
  predicate CallsFrom(x: Expr, n: string) {
    CallsPlainly(x, n) || CallsQualified(x, n)
  }

  function PlainCall(n: string): Expr -> bool {
    x => CallsPlainly(x, n)
  }

  function QualifiedCall(root: string): Expr -> bool {
    x => CallsQualified(x, root)
  }

  function AnyIndirectCall(): Expr -> bool {
    x => CallsIndirectly(x)
  }

  function MethodCallOf(n: string): Expr -> bool {
    x => CallsMethod(x, n)
  }

  function CalleeOf(n: string): Expr -> bool {
    x => CallsFrom(x, n) || CallsMethod(x, n)
  }
}
