/**
The two call collectors of forge/src/closure.rs. They were written independently: one feeds the
assurance classification and keeps every in-file name, the other feeds the fail-closed closure and
keeps every call. Callees come out in source order.
 */
module Collectors {
  import opened Ast
  import opened Occurrences

  // ---------- The assurance walker (collect_in_file_calls) ----------

  function Record(name: string, inFile: set<string>): seq<string> {
    if name in inFile then [name] else []
  }

  function WalkExpr(e: Expr, inFile: set<string>): seq<string>
    decreases e
  {
    match e
    case Call(callee, args) =>
      (match callee
       case Path(segments) => if segments == [] then [] else Record(segments[0], inFile)
       case _ => WalkExpr(callee, inFile))
      + WalkExprs(args, inFile)
    case MethodCall(receiver, name, args) =>
      Record(name, inFile) + WalkExpr(receiver, inFile) + WalkExprs(args, inFile)
    case Field(receiver, _) => WalkExpr(receiver, inFile)
    case Closure(_, body) => WalkExpr(body, inFile)
    case Match(scrutinee, arms) => WalkExpr(scrutinee, inFile) + WalkArms(arms, inFile)
    case If(cond, thn, els) => WalkExpr(cond, inFile) + WalkBlock(thn, inFile) + WalkBlock(els, inFile)
    case Binary(_, lhs, rhs) => WalkExpr(lhs, inFile) + WalkExpr(rhs, inFile)
    case Index(base, index) => WalkExpr(base, inFile) + WalkIndex(index, inFile)
    case Cast(operand, _) => WalkExpr(operand, inFile)
    case Ref(_, operand) => WalkExpr(operand, inFile)
    case StructLit(_, fields) => WalkFields(fields, inFile)
    case Is(scrutinee, _) => WalkExpr(scrutinee, inFile)
    case Deref(operand) => WalkExpr(operand, inFile)
    case Not(operand) => WalkExpr(operand, inFile)
    case Tuple(elems) => WalkExprs(elems, inFile)
    case TupleProj(receiver, _) => WalkExpr(receiver, inFile)
    case Quantifier(_, _, _, domain, formula) => WalkExpr(domain, inFile) + WalkExpr(formula, inFile)
    case IntLit(_) => []
    case BoolLit(_) => []
    case Path(_) => []
    case StrLit(_) => []
  }

  function WalkExprs(es: seq<Expr>, inFile: set<string>): seq<string>
    decreases es
  {
    if es == [] then [] else WalkExpr(es[0], inFile) + WalkExprs(es[1..], inFile)
  }

  function WalkOption(o: Option<Expr>, inFile: set<string>): seq<string>
    decreases o
  {
    match o case None => [] case Some(e) => WalkExpr(e, inFile)
  }

  function WalkIndex(index: IndexArg, inFile: set<string>): seq<string>
    decreases index
  {
    match index
    case Single(e) => WalkExpr(e, inFile)
    case RangeTo(e) => WalkExpr(e, inFile)
    case RangeFrom(e) => WalkExpr(e, inFile)
    case Range(a, b) => WalkExpr(a, inFile) + WalkExpr(b, inFile)
  }

  function WalkArm(arm: MatchArm, inFile: set<string>): seq<string>
    decreases arm
  {
    WalkOption(arm.guard, inFile) + WalkExpr(arm.body, inFile)
  }

  function WalkArms(arms: seq<MatchArm>, inFile: set<string>): seq<string>
    decreases arms
  {
    if arms == [] then []
    else WalkArm(arms[0], inFile) + WalkArms(arms[1..], inFile)
  }

  function WalkFields(fields: seq<FieldInit>, inFile: set<string>): seq<string>
    decreases fields
  {
    if fields == [] then [] else WalkExpr(fields[0].value, inFile) + WalkFields(fields[1..], inFile)
  }

  function WalkBlock(b: Block, inFile: set<string>): seq<string>
    decreases b
  {
    WalkStmts(b.stmts, inFile) + WalkOption(b.tail, inFile)
  }

  function WalkStmts(stmts: seq<Stmt>, inFile: set<string>): seq<string>
    decreases stmts
  {
    if stmts == [] then [] else WalkStmt(stmts[0], inFile) + WalkStmts(stmts[1..], inFile)
  }

  function WalkStmt(s: Stmt, inFile: set<string>): seq<string>
    decreases s
  {
    match s
    case Let(_, _, init) => WalkExpr(init, inFile)
    case Assign(target, value) => WalkExpr(target, inFile) + WalkExpr(value, inFile)
    case Return(result) => WalkOption(result, inFile)
    case IfStmt(cond, thn, els) =>
      WalkExpr(cond, inFile) + WalkBlock(thn, inFile)
      + (match els case None => [] case Some(b) => WalkBlock(b, inFile))
    case Loop(invs, dec, guard, body) =>
      WalkExprs(invs, inFile) + WalkExpr(dec, inFile) + WalkOption(guard, inFile) + WalkBlock(body, inFile)
    case ExprStmt(e) => WalkExpr(e, inFile)
    case Break => []
    case Continue => []
  }

  // ---------- The fail-closed walker (collect_verified_calls) ----------

  datatype VerifiedCall = Named(name: string) | Qualified(root: string) | Indirect

  /** What a call is recorded as: by its plain name, by the root of its path, or as indirect. */
  function OwnCall(callee: Expr): seq<VerifiedCall> {
    match callee
    case Path(parts) => if |parts| == 1 then [Named(parts[0])] else if parts == [] then [] else [Qualified(parts[0])]
    case _ => [Indirect]
  }

  function CallsInExpr(e: Expr): seq<VerifiedCall>
    decreases e
  {
    match e
    case Call(callee, args) =>
      OwnCall(callee) + (if callee.Path? then [] else CallsInExpr(callee)) + CallsInExprs(args)
    case MethodCall(receiver, _, args) => CallsInExpr(receiver) + CallsInExprs(args)
    case Field(receiver, _) => CallsInExpr(receiver)
    case TupleProj(receiver, _) => CallsInExpr(receiver)
    case Closure(_, body) => CallsInExpr(body)
    case Match(scrutinee, arms) => CallsInExpr(scrutinee) + CallsInArms(arms)
    case If(cond, thn, els) => CallsInExpr(cond) + CallsInBlock(thn) + CallsInBlock(els)
    case Binary(_, lhs, rhs) => CallsInExpr(lhs) + CallsInExpr(rhs)
    case Index(base, index) => CallsInExpr(base) + CallsInIndex(index)
    case Cast(operand, _) => CallsInExpr(operand)
    case Ref(_, operand) => CallsInExpr(operand)
    case Deref(operand) => CallsInExpr(operand)
    case Not(operand) => CallsInExpr(operand)
    case Is(scrutinee, _) => CallsInExpr(scrutinee)
    case StructLit(_, fields) => CallsInFields(fields)
    case Tuple(elems) => CallsInExprs(elems)
    case Quantifier(_, _, _, domain, formula) => CallsInExpr(domain) + CallsInExpr(formula)
    case IntLit(_) => []
    case BoolLit(_) => []
    case Path(_) => []
    case StrLit(_) => []
  }

  function CallsInExprs(es: seq<Expr>): seq<VerifiedCall>
    decreases es
  {
    if es == [] then [] else CallsInExpr(es[0]) + CallsInExprs(es[1..])
  }

  function CallsInOption(o: Option<Expr>): seq<VerifiedCall>
    decreases o
  {
    match o case None => [] case Some(e) => CallsInExpr(e)
  }

  function CallsInIndex(index: IndexArg): seq<VerifiedCall>
    decreases index
  {
    match index
    case Single(e) => CallsInExpr(e)
    case RangeTo(e) => CallsInExpr(e)
    case RangeFrom(e) => CallsInExpr(e)
    case Range(a, b) => CallsInExpr(a) + CallsInExpr(b)
  }

  function CallsInArm(arm: MatchArm): seq<VerifiedCall>
    decreases arm
  {
    CallsInOption(arm.guard) + CallsInExpr(arm.body)
  }

  function CallsInArms(arms: seq<MatchArm>): seq<VerifiedCall>
    decreases arms
  {
    if arms == [] then []
    else CallsInArm(arms[0]) + CallsInArms(arms[1..])
  }

  function CallsInFields(fields: seq<FieldInit>): seq<VerifiedCall>
    decreases fields
  {
    if fields == [] then [] else CallsInExpr(fields[0].value) + CallsInFields(fields[1..])
  }

  function CallsInBlock(b: Block): seq<VerifiedCall>
    decreases b
  {
    CallsInStmts(b.stmts) + CallsInOption(b.tail)
  }

  function CallsInStmts(stmts: seq<Stmt>): seq<VerifiedCall>
    decreases stmts
  {
    if stmts == [] then [] else CallsInStmt(stmts[0]) + CallsInStmts(stmts[1..])
  }

  function CallsInStmt(s: Stmt): seq<VerifiedCall>
    decreases s
  {
    match s
    case Let(_, _, init) => CallsInExpr(init)
    case Assign(target, value) => CallsInExpr(target) + CallsInExpr(value)
    case Return(result) => CallsInOption(result)
    case IfStmt(cond, thn, els) =>
      CallsInExpr(cond) + CallsInBlock(thn) + (match els case None => [] case Some(b) => CallsInBlock(b))
    case Loop(invs, dec, guard, body) =>
      CallsInExprs(invs) + CallsInExpr(dec) + CallsInOption(guard) + CallsInBlock(body)
    case ExprStmt(e) => CallsInExpr(e)
    case Break => []
    case Continue => []
  }

  /** The calls of a whole item: contract, measure and body. */
  function CallsInItem(item: Item): seq<VerifiedCall> {
    match item
    case Fn(_, _, _, req, ens, dec, body) =>
      CallsInExpr(req) + CallsInExprs(ens) + CallsInOption(dec)
      + (match body case None => [] case Some(b) => CallsInBlock(b))
    case SpecFn(_, dec, body) => CallsInExpr(dec) + CallsInBlock(body)
    case Struct(_, inv) => CallsInOption(inv)
    case Enum(_, _) => []
    case Forge(_) => []
  }

  // ---------- What the fail-closed walker collects ----------

  /** What one expression adds to the calls of its parts. */
  function OwnCalls(x: Expr): seq<VerifiedCall> {
    if x.Call? then OwnCall(x.callee) else []
  }

  lemma {:induction false} ExprsInOrder(es: seq<Expr>)
    ensures CallsInExprs(es) == Gather(es, CallsInExpr)
    decreases es
  {
    if es != [] {
      ExprsInOrder(es[1..]);
    }
  }

  lemma {:induction false} OptionInOrder(o: Option<Expr>)
    ensures CallsInOption(o) == Gather(OptionParts(o), CallsInExpr)
    decreases o
  {
    if o.Some? {
      GatherOne(o.value, CallsInExpr);
    }
  }

  lemma {:induction false} IndexInOrder(index: IndexArg)
    ensures CallsInIndex(index) == Gather(IndexParts(index), CallsInExpr)
    decreases index
  {
    match index
    case Single(e) => GatherOne(e, CallsInExpr);
    case RangeTo(e) => GatherOne(e, CallsInExpr);
    case RangeFrom(e) => GatherOne(e, CallsInExpr);
    case Range(a, b) => GatherTwo(a, b, CallsInExpr);
  }

  lemma {:induction false} ArmsInOrder(arms: seq<MatchArm>)
    ensures CallsInArms(arms) == Gather(ArmParts(arms), CallsInExpr)
    decreases arms
  {
    if arms != [] {
      var arm := arms[0];
      GatherConcat(OptionParts(arm.guard) + [arm.body], ArmParts(arms[1..]), CallsInExpr);
      GatherConcat(OptionParts(arm.guard), [arm.body], CallsInExpr);
      GatherOne(arm.body, CallsInExpr);
      OptionInOrder(arm.guard);
      ArmsInOrder(arms[1..]);
    }
  }

  lemma {:induction false} FieldsInOrder(fields: seq<FieldInit>)
    ensures CallsInFields(fields) == Gather(FieldParts(fields), CallsInExpr)
    decreases fields
  {
    if fields != [] {
      GatherConcat([fields[0].value], FieldParts(fields[1..]), CallsInExpr);
      GatherOne(fields[0].value, CallsInExpr);
      FieldsInOrder(fields[1..]);
    }
  }

  lemma {:induction false} BlockInOrder(b: Block)
    ensures CallsInBlock(b) == Gather(BlockParts(b), CallsInExpr)
    decreases b
  {
    GatherConcat(StmtsParts(b.stmts), OptionParts(b.tail), CallsInExpr);
    StmtsInOrder(b.stmts);
    OptionInOrder(b.tail);
  }

  lemma {:induction false} StmtsInOrder(stmts: seq<Stmt>)
    ensures CallsInStmts(stmts) == Gather(StmtsParts(stmts), CallsInExpr)
    decreases stmts
  {
    if stmts != [] {
      GatherConcat(StmtParts(stmts[0]), StmtsParts(stmts[1..]), CallsInExpr);
      StmtInOrder(stmts[0]);
      StmtsInOrder(stmts[1..]);
    }
  }

  lemma {:induction false} StmtInOrder(s: Stmt)
    ensures CallsInStmt(s) == Gather(StmtParts(s), CallsInExpr)
    decreases s
  {
    match s
    case Let(_, _, init) => GatherOne(init, CallsInExpr);
    case Assign(target, value) => GatherTwo(target, value, CallsInExpr);
    case Return(result) => OptionInOrder(result);
    case IfStmt(cond, thn, els) =>
      GatherConcat([cond] + BlockParts(thn), ElseParts(els), CallsInExpr);
      GatherConcat([cond], BlockParts(thn), CallsInExpr);
      GatherOne(cond, CallsInExpr);
      BlockInOrder(thn);
      if els.Some? {
        BlockInOrder(els.value);
      }
    case Loop(invs, dec, guard, body) =>
      GatherConcat(invs + [dec] + OptionParts(guard), BlockParts(body), CallsInExpr);
      GatherConcat(invs + [dec], OptionParts(guard), CallsInExpr);
      GatherConcat(invs, [dec], CallsInExpr);
      GatherOne(dec, CallsInExpr);
      ExprsInOrder(invs);
      OptionInOrder(guard);
      BlockInOrder(body);
    case ExprStmt(e) => GatherOne(e, CallsInExpr);
    case Break =>
    case Continue =>
  }

  lemma CallFormInOrder(e: Expr)
    requires e.Call? || e.MethodCall?
    ensures CallsInExpr(e) == OwnCalls(e) + Gather(Parts(e), CallsInExpr)
  {
    match e
    case Call(callee, args) =>
      GatherConcat([callee], args, CallsInExpr);
      GatherOne(callee, CallsInExpr);
      ExprsInOrder(args);
    case MethodCall(receiver, _, args) =>
      GatherConcat([receiver], args, CallsInExpr);
      GatherOne(receiver, CallsInExpr);
      ExprsInOrder(args);
  }

  lemma BranchFormInOrder(e: Expr)
    requires e.Match? || e.If?
    ensures CallsInExpr(e) == OwnCalls(e) + Gather(Parts(e), CallsInExpr)
  {
    match e
    case Match(scrutinee, arms) =>
      GatherConcat([scrutinee], ArmParts(arms), CallsInExpr);
      GatherOne(scrutinee, CallsInExpr);
      ArmsInOrder(arms);
    case If(cond, thn, els) =>
      GatherConcat([cond] + BlockParts(thn), BlockParts(els), CallsInExpr);
      GatherConcat([cond], BlockParts(thn), CallsInExpr);
      GatherOne(cond, CallsInExpr);
      BlockInOrder(thn);
      BlockInOrder(els);
  }

  lemma ListFormInOrder(e: Expr)
    requires e.Index? || e.StructLit? || e.Tuple? || e.Binary? || e.Quantifier?
    ensures CallsInExpr(e) == OwnCalls(e) + Gather(Parts(e), CallsInExpr)
  {
    match e
    case Binary(_, lhs, rhs) => GatherTwo(lhs, rhs, CallsInExpr);
    case Quantifier(_, _, _, domain, formula) => GatherTwo(domain, formula, CallsInExpr);
    case Index(base, index) =>
      GatherConcat([base], IndexParts(index), CallsInExpr);
      GatherOne(base, CallsInExpr);
      IndexInOrder(index);
    case StructLit(_, fields) => FieldsInOrder(fields);
    case Tuple(elems) => ExprsInOrder(elems);
  }

  lemma ExprInOrder(e: Expr)
    ensures CallsInExpr(e) == OwnCalls(e) + Gather(Parts(e), CallsInExpr)
  {
    match e
    case Call(_, _) => CallFormInOrder(e);
    case MethodCall(_, _, _) => CallFormInOrder(e);
    case Match(_, _) => BranchFormInOrder(e);
    case If(_, _, _) => BranchFormInOrder(e);
    case Index(_, _) => ListFormInOrder(e);
    case StructLit(_, _) => ListFormInOrder(e);
    case Tuple(_) => ListFormInOrder(e);
    case Binary(_, _, _) => ListFormInOrder(e);
    case Quantifier(_, _, _, _, _) => ListFormInOrder(e);
    case Field(inner, _) => GatherOne(inner, CallsInExpr);
    case TupleProj(inner, _) => GatherOne(inner, CallsInExpr);
    case Closure(_, inner) => GatherOne(inner, CallsInExpr);
    case Cast(inner, _) => GatherOne(inner, CallsInExpr);
    case Ref(_, inner) => GatherOne(inner, CallsInExpr);
    case Deref(inner) => GatherOne(inner, CallsInExpr);
    case Not(inner) => GatherOne(inner, CallsInExpr);
    case Is(inner, _) => GatherOne(inner, CallsInExpr);
    case _ =>
  }

  /** The fail-closed walker lists the calls that occur, in source order. */
  lemma CallsAreInOrder()
    ensures CollectsInOrder(CallsInExpr, OwnCalls)
  {
    forall e
      ensures CallsInExpr(e) == OwnCalls(e) + Gather(Parts(e), CallsInExpr)
    {
      ExprInOrder(e);
    }
  }

  /** What an expression must be for the call to be recorded of it. */
  function Made(call: VerifiedCall): Expr -> bool {
    match call
    case Named(n) => PlainCall(n)
    case Qualified(root) => QualifiedCall(root)
    case Indirect => AnyIndirectCall()
  }

  lemma OwnCallMade(x: Expr, call: VerifiedCall)
    ensures call in OwnCalls(x) <==> Made(call)(x)
  {
    if x.Call? && x.callee.Path? && |x.callee.segments| == 1 {
      assert x.callee.segments == [x.callee.segments[0]];
    }
  }

  lemma PartsCalls(parts: seq<Expr>, call: VerifiedCall)
    ensures call in Gather(parts, CallsInExpr) <==> SomeHas(Made(call), parts)
  {
    CallsAreInOrder();
    forall e
      ensures call in CallsInExpr(e) <==> Has(Made(call), e)
    {
      CollectedOccurs(CallsInExpr, OwnCalls, e, call);
      forall x
        ensures call in OwnCalls(x) <==> Made(call)(x)
      {
        OwnCallMade(x, call);
      }
    }
    GatherMeans(parts, CallsInExpr, call);
  }

  /** The calls of an item are those of its contract, measure, invariant and body, in source order. */
  lemma ItemInOrder(item: Item)
    ensures CallsInItem(item) == Gather(ItemParts(item), CallsInExpr)
  {
    match item
    case Fn(_, _, _, req, ens, dec, body) =>
      GatherConcat([req] + ens + OptionParts(dec), BodyParts(item), CallsInExpr);
      GatherConcat([req] + ens, OptionParts(dec), CallsInExpr);
      GatherConcat([req], ens, CallsInExpr);
      GatherOne(req, CallsInExpr);
      ExprsInOrder(ens);
      OptionInOrder(dec);
      if body.Some? {
        BlockInOrder(body.value);
      }
    case SpecFn(_, dec, body) =>
      GatherConcat([dec], BodyParts(item), CallsInExpr);
      GatherOne(dec, CallsInExpr);
      BlockInOrder(body);
    case Struct(_, inv) => OptionInOrder(inv);
    case _ =>
  }

  /**
  A call is collected of an item exactly when such a call, plain, qualified or of something that is no path,
  occurs in its contract, measure, invariant or body.
   */
  lemma ItemCalls(item: Item, call: VerifiedCall)
    ensures call in CallsInItem(item) <==> SomeHas(Made(call), ItemParts(item))
  {
    ItemInOrder(item);
    PartsCalls(ItemParts(item), call);
  }

  // ---------- What the assurance walker collects ----------

  /** What one expression adds to the names of its parts. */
  function OwnNames(x: Expr, inFile: set<string>): seq<string> {
    match x
    case Call(callee, _) => if callee.Path? && callee.segments != [] then Record(callee.segments[0], inFile) else []
    case MethodCall(_, name, _) => Record(name, inFile)
    case _ => []
  }

  function Walker(inFile: set<string>): Expr -> seq<string> {
    e => WalkExpr(e, inFile)
  }

  function OwnWalk(inFile: set<string>): Expr -> seq<string> {
    e => OwnNames(e, inFile)
  }

  lemma {:induction false} ExprsWalked(es: seq<Expr>, inFile: set<string>)
    ensures WalkExprs(es, inFile) == Gather(es, Walker(inFile))
    decreases es
  {
    if es != [] {
      ExprsWalked(es[1..], inFile);
    }
  }

  lemma {:induction false} OptionWalked(o: Option<Expr>, inFile: set<string>)
    ensures WalkOption(o, inFile) == Gather(OptionParts(o), Walker(inFile))
    decreases o
  {
    if o.Some? {
      GatherOne(o.value, Walker(inFile));
    }
  }

  lemma {:induction false} IndexWalked(index: IndexArg, inFile: set<string>)
    ensures WalkIndex(index, inFile) == Gather(IndexParts(index), Walker(inFile))
    decreases index
  {
    match index
    case Single(e) => GatherOne(e, Walker(inFile));
    case RangeTo(e) => GatherOne(e, Walker(inFile));
    case RangeFrom(e) => GatherOne(e, Walker(inFile));
    case Range(a, b) => GatherTwo(a, b, Walker(inFile));
  }

  lemma {:induction false} ArmsWalked(arms: seq<MatchArm>, inFile: set<string>)
    ensures WalkArms(arms, inFile) == Gather(ArmParts(arms), Walker(inFile))
    decreases arms
  {
    if arms != [] {
      var arm := arms[0];
      GatherConcat(OptionParts(arm.guard) + [arm.body], ArmParts(arms[1..]), Walker(inFile));
      GatherConcat(OptionParts(arm.guard), [arm.body], Walker(inFile));
      GatherOne(arm.body, Walker(inFile));
      OptionWalked(arm.guard, inFile);
      ArmsWalked(arms[1..], inFile);
    }
  }

  lemma {:induction false} FieldsWalked(fields: seq<FieldInit>, inFile: set<string>)
    ensures WalkFields(fields, inFile) == Gather(FieldParts(fields), Walker(inFile))
    decreases fields
  {
    if fields != [] {
      GatherConcat([fields[0].value], FieldParts(fields[1..]), Walker(inFile));
      GatherOne(fields[0].value, Walker(inFile));
      FieldsWalked(fields[1..], inFile);
    }
  }

  lemma {:induction false} BlockWalked(b: Block, inFile: set<string>)
    ensures WalkBlock(b, inFile) == Gather(BlockParts(b), Walker(inFile))
    decreases b
  {
    GatherConcat(StmtsParts(b.stmts), OptionParts(b.tail), Walker(inFile));
    StmtsWalked(b.stmts, inFile);
    OptionWalked(b.tail, inFile);
  }

  lemma {:induction false} StmtsWalked(stmts: seq<Stmt>, inFile: set<string>)
    ensures WalkStmts(stmts, inFile) == Gather(StmtsParts(stmts), Walker(inFile))
    decreases stmts
  {
    if stmts != [] {
      GatherConcat(StmtParts(stmts[0]), StmtsParts(stmts[1..]), Walker(inFile));
      StmtWalked(stmts[0], inFile);
      StmtsWalked(stmts[1..], inFile);
    }
  }

  lemma {:induction false} StmtWalked(s: Stmt, inFile: set<string>)
    ensures WalkStmt(s, inFile) == Gather(StmtParts(s), Walker(inFile))
    decreases s
  {
    match s
    case Let(_, _, init) => GatherOne(init, Walker(inFile));
    case Assign(target, value) => GatherTwo(target, value, Walker(inFile));
    case Return(result) => OptionWalked(result, inFile);
    case IfStmt(cond, thn, els) =>
      GatherConcat([cond] + BlockParts(thn), ElseParts(els), Walker(inFile));
      GatherConcat([cond], BlockParts(thn), Walker(inFile));
      GatherOne(cond, Walker(inFile));
      BlockWalked(thn, inFile);
      if els.Some? {
        BlockWalked(els.value, inFile);
      }
    case Loop(invs, dec, guard, body) =>
      GatherConcat(invs + [dec] + OptionParts(guard), BlockParts(body), Walker(inFile));
      GatherConcat(invs + [dec], OptionParts(guard), Walker(inFile));
      GatherConcat(invs, [dec], Walker(inFile));
      GatherOne(dec, Walker(inFile));
      ExprsWalked(invs, inFile);
      OptionWalked(guard, inFile);
      BlockWalked(body, inFile);
    case ExprStmt(e) => GatherOne(e, Walker(inFile));
    case Break =>
    case Continue =>
  }

  lemma CallFormWalked(e: Expr, inFile: set<string>)
    requires e.Call? || e.MethodCall?
    ensures WalkExpr(e, inFile) == OwnNames(e, inFile) + Gather(Parts(e), Walker(inFile))
  {
    match e
    case Call(callee, args) =>
      GatherConcat([callee], args, Walker(inFile));
      GatherOne(callee, Walker(inFile));
      ExprsWalked(args, inFile);
    case MethodCall(receiver, _, args) =>
      GatherConcat([receiver], args, Walker(inFile));
      GatherOne(receiver, Walker(inFile));
      ExprsWalked(args, inFile);
  }

  lemma BranchFormWalked(e: Expr, inFile: set<string>)
    requires e.Match? || e.If?
    ensures WalkExpr(e, inFile) == OwnNames(e, inFile) + Gather(Parts(e), Walker(inFile))
  {
    match e
    case Match(scrutinee, arms) =>
      GatherConcat([scrutinee], ArmParts(arms), Walker(inFile));
      GatherOne(scrutinee, Walker(inFile));
      ArmsWalked(arms, inFile);
    case If(cond, thn, els) =>
      GatherConcat([cond] + BlockParts(thn), BlockParts(els), Walker(inFile));
      GatherConcat([cond], BlockParts(thn), Walker(inFile));
      GatherOne(cond, Walker(inFile));
      BlockWalked(thn, inFile);
      BlockWalked(els, inFile);
  }

  lemma ListFormWalked(e: Expr, inFile: set<string>)
    requires e.Index? || e.StructLit? || e.Tuple? || e.Binary? || e.Quantifier?
    ensures WalkExpr(e, inFile) == OwnNames(e, inFile) + Gather(Parts(e), Walker(inFile))
  {
    match e
    case Binary(_, lhs, rhs) => GatherTwo(lhs, rhs, Walker(inFile));
    case Quantifier(_, _, _, domain, formula) => GatherTwo(domain, formula, Walker(inFile));
    case Index(base, index) =>
      GatherConcat([base], IndexParts(index), Walker(inFile));
      GatherOne(base, Walker(inFile));
      IndexWalked(index, inFile);
    case StructLit(_, fields) => FieldsWalked(fields, inFile);
    case Tuple(elems) => ExprsWalked(elems, inFile);
  }

  lemma ExprWalked(e: Expr, inFile: set<string>)
    ensures WalkExpr(e, inFile) == OwnNames(e, inFile) + Gather(Parts(e), Walker(inFile))
  {
    match e
    case Call(_, _) => CallFormWalked(e, inFile);
    case MethodCall(_, _, _) => CallFormWalked(e, inFile);
    case Match(_, _) => BranchFormWalked(e, inFile);
    case If(_, _, _) => BranchFormWalked(e, inFile);
    case Index(_, _) => ListFormWalked(e, inFile);
    case StructLit(_, _) => ListFormWalked(e, inFile);
    case Tuple(_) => ListFormWalked(e, inFile);
    case Binary(_, _, _) => ListFormWalked(e, inFile);
    case Quantifier(_, _, _, _, _) => ListFormWalked(e, inFile);
    case Field(inner, _) => GatherOne(inner, Walker(inFile));
    case TupleProj(inner, _) => GatherOne(inner, Walker(inFile));
    case Closure(_, inner) => GatherOne(inner, Walker(inFile));
    case Cast(inner, _) => GatherOne(inner, Walker(inFile));
    case Ref(_, inner) => GatherOne(inner, Walker(inFile));
    case Deref(inner) => GatherOne(inner, Walker(inFile));
    case Not(inner) => GatherOne(inner, Walker(inFile));
    case Is(inner, _) => GatherOne(inner, Walker(inFile));
    case _ =>
  }

  /** The assurance walker lists the callees that occur and are in the file, in source order. */
  lemma WalkIsInOrder(inFile: set<string>)
    ensures CollectsInOrder(Walker(inFile), OwnWalk(inFile))
  {
    forall e
      ensures Walker(inFile)(e) == OwnWalk(inFile)(e) + Gather(Parts(e), Walker(inFile))
    {
      ExprWalked(e, inFile);
    }
  }

  lemma OwnNameCalled(x: Expr, inFile: set<string>, n: string)
    ensures n in OwnNames(x, inFile) <==> n in inFile && CalleeOf(n)(x)
  {
    if x.Call? && x.callee.Path? && |x.callee.segments| == 1 {
      assert x.callee.segments == [x.callee.segments[0]];
    }
  }

  lemma PartsWalked(parts: seq<Expr>, inFile: set<string>, n: string)
    ensures n in Gather(parts, Walker(inFile)) <==> n in inFile && SomeHas(CalleeOf(n), parts)
  {
    WalkIsInOrder(inFile);
    forall e
      ensures n in Walker(inFile)(e) <==> n in inFile && Has(CalleeOf(n), e)
    {
      CollectedOccurs(Walker(inFile), OwnWalk(inFile), e, n);
      forall x
        ensures n in OwnWalk(inFile)(x) <==> n in inFile && CalleeOf(n)(x)
      {
        OwnNameCalled(x, inFile, n);
      }
    }
    GatherMeans(parts, Walker(inFile), n);
  }

  /**
  A name is recorded of a block exactly when it is in the file and a call of a path that starts with it, or a
  method call of that name, occurs.
   */
  lemma BlockNames(b: Block, inFile: set<string>, n: string)
    ensures n in WalkBlock(b, inFile) <==> n in inFile && SomeHas(CalleeOf(n), BlockParts(b))
  {
    BlockWalked(b, inFile);
    PartsWalked(BlockParts(b), inFile, n);
  }

  // ---------- The walkers agree ----------

  /** The fail-closed walker saw `n` as a callee, or `n` is a method name. */
  predicate Accounted(n: string, calls: seq<VerifiedCall>, asMethod: bool) {
    Named(n) in calls || Qualified(n) in calls || asMethod
  }

  /** A callee is called plainly, through a qualified path or as a method. */
  lemma CalleeKinds(parts: seq<Expr>, n: string)
    ensures SomeHas(CalleeOf(n), parts)
            <==> || SomeHas(PlainCall(n), parts) || SomeHas(QualifiedCall(n), parts)
                 || SomeHas(MethodCallOf(n), parts)
  {
    forall e
      ensures Has(CalleeOf(n), e) <==> Has(PlainCall(n), e) || Has(QualifiedCall(n), e) || Has(MethodCallOf(n), e)
    {
      assert forall x :: CalleeOf(n)(x) <==> PlainCall(n)(x) || QualifiedCall(n)(x) || MethodCallOf(n)(x);
    }
  }

  /** Every name the assurance walker records is in the file and accounted for by the fail-closed walker. */
  lemma BlockAgrees(b: Block, inFile: set<string>, n: string)
    requires n in WalkBlock(b, inFile)
    ensures n in inFile && Accounted(n, CallsInBlock(b), SomeHas(MethodCallOf(n), BlockParts(b)))
  {
    BlockNames(b, inFile, n);
    CalleeKinds(BlockParts(b), n);
    BlockInOrder(b);
    PartsCalls(BlockParts(b), Named(n));
    PartsCalls(BlockParts(b), Qualified(n));
  }

  /** The assurance walker records every method name that is in the file. */
  lemma BlockRecords(b: Block, inFile: set<string>, n: string)
    requires n in inFile && SomeHas(MethodCallOf(n), BlockParts(b))
    ensures n in WalkBlock(b, inFile)
  {
    BlockNames(b, inFile, n);
    CalleeKinds(BlockParts(b), n);
  }
}
