/**
Building the assurance call graph from a program, and the fail-closed dependency closure of
forge/src/closure.rs with its error paths.
 */
module Closures {
  import opened Ast
  import opened CallGraphs
  import opened Collectors
  import opened Occurrences

  // ---------- CallGraph::from_program ----------

  function ItemNames(items: seq<Item>): set<string> {
    set i | i in items :: i.name
  }

  /** The node an item contributes; a struct, an enum and a forge item contribute none. */
  function NodeOf(item: Item, inFile: set<string>): Option<Node> {
    match item
    case Fn(_, boundary, slag, _, _, _, body) =>
      Some(Node(boundary || slag, true, match body case Some(b) => WalkBlock(b, inFile) case None => []))
    case SpecFn(_, _, body) => Some(Node(false, false, WalkBlock(body, inFile)))
    case _ => None
  }

  /** Later items win, as in a map filled by insertion. */
  function NodesOf(items: seq<Item>, inFile: set<string>): CallGraph {
    if items == [] then map[]
    else
      var last := items[|items| - 1];
      var before := NodesOf(items[..|items| - 1], inFile);
      match NodeOf(last, inFile)
      case Some(node) => before[last.name := node]
      case None => before
  }

  predicate IsCallable(item: Item) {
    item.Fn? || item.SpecFn?
  }

  /** `item` is the last callable one of its name. */
  ghost predicate IsLastCallable(items: seq<Item>, item: Item) {
    && IsCallable(item)
    && exists k ::
         && 0 <= k < |items| && items[k] == item
         && forall j :: k < j < |items| && items[j].name == item.name ==> !IsCallable(items[j])
  }

  lemma LastStays(items: seq<Item>, last: Item, item: Item)
    requires IsLastCallable(items, item) && !(last.name == item.name && IsCallable(last))
    ensures IsLastCallable(items + [last], item)
  {
    var k :| 0 <= k < |items| && items[k] == item
             && forall j :: k < j < |items| && items[j].name == item.name ==> !IsCallable(items[j]);
    assert (items + [last])[k] == item;
  }

  /** The item a callable name stands for: the last callable one, whose kind is recorded. */
  function Current(items: seq<Item>, n: string): (r: Option<Item>)
    ensures r.Some? ==> r.value.name == n && IsLastCallable(items, r.value)
    ensures r.None? ==> forall i :: i in items && i.name == n ==> !IsCallable(i)
  {
    if items == [] then None
    else
      var init, last := items[..|items| - 1], items[|items| - 1];
      assert items == init + [last];
      if last.name == n && IsCallable(last) then Some(last)
      else
        var r := Current(init, n);
        if r.Some? then LastStays(init, last, r.value); r else r
  }

  /** The node that the last callable item of a name contributes, in terms of what its body holds. */
  ghost predicate IsNodeOf(items: seq<Item>, item: Item, node: Node) {
    && node.isFn == item.Fn?
    && node.isCrossing == (item.Fn? && (item.boundary || item.slag))
    && forall n :: n in node.callees <==> n in ItemNames(items) && SomeHas(CalleeOf(n), BodyParts(item))
  }

  /** Every callable name has the node of the last callable item of that name. */
  ghost predicate IsGraphOf(items: seq<Item>, g: CallGraph) {
    forall n :: if n in g then Current(items, n).Some? && IsNodeOf(items, Current(items, n).value, g[n])
                else Current(items, n).None?
  }

  lemma NodeMeans(items: seq<Item>, item: Item)
    ensures NodeOf(item, ItemNames(items)).Some? <==> IsCallable(item)
    ensures IsCallable(item) ==> IsNodeOf(items, item, NodeOf(item, ItemNames(items)).value)
  {
    if IsCallable(item) {
      var body := if item.SpecFn? then Some(item.body) else item.fnBody;
      forall n
        ensures n in NodeOf(item, ItemNames(items)).value.callees
                <==> n in ItemNames(items) && SomeHas(CalleeOf(n), BodyParts(item))
      {
        if body.Some? {
          BlockNames(body.value, ItemNames(items), n);
        }
      }
    }
  }

  lemma {:induction false} NodesAreCurrent(items: seq<Item>, inFile: set<string>, n: string)
    ensures n in NodesOf(items, inFile) <==> Current(items, n).Some?
    ensures n in NodesOf(items, inFile) ==> Some(NodesOf(items, inFile)[n]) == NodeOf(Current(items, n).value, inFile)
  {
    if items != [] {
      NodesAreCurrent(items[..|items| - 1], inFile, n);
    }
  }

  lemma NodesAreGraph(items: seq<Item>)
    ensures IsGraphOf(items, NodesOf(items, ItemNames(items)))
  {
    forall n
      ensures var g := NodesOf(items, ItemNames(items));
              if n in g then Current(items, n).Some? && IsNodeOf(items, Current(items, n).value, g[n])
              else Current(items, n).None?
    {
      NodesAreCurrent(items, ItemNames(items), n);
      if Current(items, n).Some? {
        NodeMeans(items, Current(items, n).value);
      }
    }
  }

  /**
  Later items win. A name is a node exactly when it is callable, a crossing exactly when its item is a `fn`
  marked boundary or slag, and its callees are the names in the file that the body calls, plainly, through a
  qualified path or as a method.
   */
  method FromProgram(items: seq<Item>) returns (g: CallGraph)
    ensures g == NodesOf(items, ItemNames(items)) && IsGraphOf(items, g)
  {
    var inFile := ItemNames(items);
    g := map[];
    for k := 0 to |items|
      invariant g == NodesOf(items[..k], inFile)
    {
      assert items[..k + 1][..k] == items[..k];
      match NodeOf(items[k], inFile)
      case Some(node) => g := g[items[k].name := node];
      case None =>
    }
    assert items[..|items|] == items;
    NodesAreGraph(items);
  }

  /** The scope of every callable name, over the graph of the calls that occur in bodies. */
  method ClassifyProgram(items: seq<Item>) returns (scopes: map<string, Scope>)
    ensures var g := NodesOf(items, ItemNames(items));
            && IsGraphOf(items, g)
            && (forall n :: n in scopes <==> Current(items, n).Some?)
            && forall n :: n in scopes ==> scopes[n] == ScopeOf(g, n)
  {
    var g := FromProgram(items);
    assert forall n :: n in g <==> Current(items, n).Some?;
    scopes := Classify(g);
  }

  method ReachableInFileFns(items: seq<Item>, start: string) returns (fns: set<string>)
    ensures IsGraphOf(items, NodesOf(items, ItemNames(items)))
    ensures var g := NodesOf(items, ItemNames(items));
            forall n :: n in fns <==> Reaches(g, start, n) && n != start && n in g && g[n].isFn
  {
    var g := FromProgram(items);
    fns := ReachableFns(g, start);
  }

  // ---------- What the closure reads off a program ----------

  /** Callable names, true for `fn` and false for `spec fn`; the last item of a name wins. */
  function KindsOf(items: seq<Item>): map<string, bool> {
    if items == [] then map[]
    else
      var last := items[|items| - 1];
      var before := KindsOf(items[..|items| - 1]);
      if last.Fn? then before[last.name := true]
      else if last.SpecFn? then before[last.name := false]
      else before
  }

  /** The first item of a name, whatever its kind. */
  function FindItem(items: seq<Item>, name: string): (r: Option<Item>)
    ensures r.Some? ==> r.value in items && r.value.name == name
    ensures r.None? ==> forall i :: i in items ==> i.name != name
  {
    if items == [] then None
    else if items[0].name == name then Some(items[0])
    else FindItem(items[1..], name)
  }

  /** `item` is the first of its name. */
  ghost predicate IsFirst(items: seq<Item>, item: Item) {
    exists k :: 0 <= k < |items| && items[k] == item && forall j :: 0 <= j < k ==> items[j].name != item.name
  }

  lemma {:induction false} FoundIsFirst(items: seq<Item>, name: string)
    ensures FindItem(items, name).Some? ==> IsFirst(items, FindItem(items, name).value)
  {
    if items != [] && FindItem(items, name).Some? {
      var item := FindItem(items, name).value;
      if items[0].name != name {
        FoundIsFirst(items[1..], name);
        var k :| 0 <= k < |items[1..]| && items[1..][k] == item
                 && forall j :: 0 <= j < k ==> items[1..][j].name != item.name;
        assert items[k + 1] == item;
        forall j | 0 <= j < k + 1
          ensures items[j].name != item.name
        {
          if j > 0 {
            assert items[1..][j - 1] == items[j];
          }
        }
      }
    }
  }

  function CallsNamed(items: seq<Item>, name: string): seq<VerifiedCall> {
    match FindItem(items, name)
    case Some(item) => CallsInItem(item)
    case None => []
  }

  /**
  What `verified_closure` reads off a program: the callable names, the calls of each, the names of
  builtins and enum variants, and the types that may qualify a call.
   */
  datatype Context = Context(
    kinds: map<string, bool>, calls: map<string, seq<VerifiedCall>>, builtins: set<string>, typeRoots: set<string>)

  /** `registry` holds the combinator and scheme names of thermite-spec. */
  function ContextOf(items: seq<Item>, registry: set<string>): Context {
    var kinds := KindsOf(items);
    Context(
      kinds,
      map n | n in kinds :: CallsNamed(items, n),
      registry + NativeBuiltins() + (set i, v | i in items && i.Enum? && v in i.variants :: v),
      NativeRoots() + (set i | i in items && (i.Struct? || i.Enum?) :: i.name))
  }

  function NativeBuiltins(): set<string> {
    {"Some", "None", "Ok", "Err", "parse_u64", "bytes_eq", "all_digits", "is_digit", "parse_be",
     "pow10", "occurs_at", "contains_sub", "count_sep", "sep_free", "is_space"}
  }

  function NativeRoots(): set<string> {
    {"u32", "u64", "usize", "bool", "Option", "Result"}
  }

  // ---------- Resolution of a call ----------

  /** A call the closure cannot follow and does not know. */
  predicate Unfollowable(c: Context, call: VerifiedCall) {
    match call
    case Named(n) => n !in c.kinds && n !in c.builtins
    case Qualified(root) => root !in c.typeRoots
    case Indirect => true
  }

  function CallsOf(c: Context, name: string): seq<VerifiedCall> {
    if name in c.calls then c.calls[name] else []
  }

  /** The named callees that resolve in the file, in source order. */
  function InFile(c: Context, calls: seq<VerifiedCall>): (r: seq<string>)
    ensures forall n :: n in r <==> Named(n) in calls && n in c.kinds
  {
    if calls == [] then []
    else if calls[0].Named? && calls[0].name in c.kinds then [calls[0].name] + InFile(c, calls[1..])
    else InFile(c, calls[1..])
  }

  /** The last unfollowable call in source order, which the reversed scan meets first. */
  function LastUnfollowable(c: Context, calls: seq<VerifiedCall>): (r: Option<VerifiedCall>)
    ensures r.None? <==> forall x :: x in calls ==> !Unfollowable(c, x)
    ensures r.Some? ==> r.value in calls && Unfollowable(c, r.value)
  {
    if calls == [] then None
    else
      match LastUnfollowable(c, calls[1..])
      case Some(x) => Some(x)
      case None => if Unfollowable(c, calls[0]) then Some(calls[0]) else None
  }

  /** The dependency graph: a node is marked when it makes an unfollowable call. */
  function DependencyGraph(c: Context): CallGraph {
    map n | n in c.kinds ::
      Node(LastUnfollowable(c, CallsOf(c, n)).Some?, c.kinds[n], InFile(c, CallsOf(c, n)))
  }

  /** Node `n` of `g` is what the dependency graph of `c` has at `n`. */
  ghost predicate NodeMatches(c: Context, g: CallGraph, n: string) {
    && n in c.kinds && n in g
    && g[n] == Node(LastUnfollowable(c, CallsOf(c, n)).Some?, c.kinds[n], InFile(c, CallsOf(c, n)))
  }

  ghost predicate Depends(c: Context, g: CallGraph) {
    forall n {:trigger NodeMatches(c, g, n)} :: n in g ==> NodeMatches(c, g, n)
  }

  lemma DependencyGraphDepends(c: Context)
    ensures Depends(c, DependencyGraph(c)) && DependencyGraph(c).Keys == c.kinds.Keys
  {
  }

  // ---------- Sorted roots ----------

  /** Code-point order of strings, which is the byte order of their UTF-8 form. */
  predicate Less(a: string, b: string) {
    if b == [] then false
    else if a == [] then true
    else if a[0] != b[0] then a[0] < b[0]
    else Less(a[1..], b[1..])
  }

  lemma {:induction false} LessTotal(a: string, b: string)
    ensures a == b || Less(a, b) || Less(b, a)
    decreases |a|
  {
    if a != [] && b != [] && a[0] == b[0] {
      LessTotal(a[1..], b[1..]);
      if a[1..] == b[1..] {
        assert a == [a[0]] + a[1..] == b;
      }
    }
  }

  /** The order: a proper prefix comes first, and otherwise the first difference decides. */
  lemma {:induction false} LessMeans(a: string, b: string)
    ensures Less(a, b)
            <==> || a < b
                 || exists k :: 0 <= k < |a| && k < |b| && a[..k] == b[..k] && a[k] < b[k]
    decreases |a|
  {
    if a != [] && b != [] && a[0] == b[0] {
      var x, y := a[1..], b[1..];
      LessMeans(x, y);
      assert a < b <==> x < y by {
        assert a == [a[0]] + x && b == [b[0]] + y;
      }
      if k :| 0 <= k < |x| && k < |y| && x[..k] == y[..k] && x[k] < y[k] {
        assert a[..k + 1] == [a[0]] + x[..k] && b[..k + 1] == [b[0]] + y[..k];
        assert a[k + 1] < b[k + 1];
      }
      if k :| 0 <= k < |a| && k < |b| && a[..k] == b[..k] && a[k] < b[k] {
        assert k > 0;
        assert x[..k - 1] == a[..k][1..] && y[..k - 1] == b[..k][1..];
        assert x[k - 1] < y[k - 1];
      }
    } else if a != [] && b != [] {
      assert forall k :: 0 < k <= |a| && k <= |b| ==> a[..k][0] == a[0] && b[..k][0] == b[0];
      if a[0] < b[0] {
        assert a[..0] == b[..0];
      }
    }
  }

  predicate Ascending(s: seq<string>) {
    |s| < 2 || (Less(s[0], s[1]) && Ascending(s[1..]))
  }

  function Insert(x: string, s: seq<string>): seq<string> {
    if s == [] then [x]
    else if x == s[0] then s
    else if Less(x, s[0]) then [x] + s
    else [s[0]] + Insert(x, s[1..])
  }

  /** `sort` followed by `dedup`. */
  function SortedUnique(s: seq<string>): seq<string> {
    if s == [] then [] else Insert(s[0], SortedUnique(s[1..]))
  }

  lemma {:induction false} InsertFacts(x: string, s: seq<string>)
    requires Ascending(s)
    ensures Ascending(Insert(x, s)) && Elems(Insert(x, s)) == Elems(s) + {x}
    ensures Insert(x, s)[0] == x || (s != [] && Insert(x, s)[0] == s[0])
  {
    if s != [] && x != s[0] {
      if Less(x, s[0]) {
        assert Elems([x] + s) == Elems(s) + {x};
      } else {
        LessTotal(x, s[0]);
        InsertFacts(x, s[1..]);
        var t := Insert(x, s[1..]);
        var r := [s[0]] + t;
        assert r[1..] == t && r[1] == t[0];
        assert Elems(s) == {s[0]} + Elems(s[1..]);
        assert Elems(r) == {s[0]} + Elems(t);
      }
    }
  }

  lemma {:induction false} SortedUniqueFacts(s: seq<string>)
    ensures Ascending(SortedUnique(s)) && Elems(SortedUnique(s)) == Elems(s)
  {
    if s != [] {
      SortedUniqueFacts(s[1..]);
      InsertFacts(s[0], SortedUnique(s[1..]));
      assert Elems(s) == Elems(s[1..]) + {s[0]};
    }
  }

  // ---------- verified_closure ----------

  datatype Dependencies = Dependencies(
    roots: seq<string>, functions: set<string>, specFunctions: set<string>, edges: set<(string, string)>)

  datatype ClosureError =
    | UnknownExport(name: string)
    | ExportNotFunction(name: string)
    | UnresolvedCall(path: seq<string>, callee: string)
    | IndirectCall(path: seq<string>)

  datatype ClosureResult = Closed(closure: Dependencies) | Failed(error: ClosureError)

  /** The error an unfollowable call is reported as. */
  function Report(path: seq<string>, call: VerifiedCall): ClosureError {
    match call
    case Named(n) => UnresolvedCall(path, n)
    case Qualified(root) => UnresolvedCall(path, root)
    case Indirect => IndirectCall(path)
  }

  predicate IsFnRoot(c: Context, root: string) {
    root in c.kinds && c.kinds[root]
  }

  predicate RootsOk(c: Context, roots: seq<string>) {
    forall r :: r in roots ==> IsFnRoot(c, r)
  }

  ghost function EdgesFrom(g: CallGraph, order: seq<string>): set<(string, string)> {
    set a, b | a in order && a in g && b in g[a].callees :: (a, b)
  }

  ghost function Outgoing(a: string, callees: seq<string>): set<(string, string)> {
    set b | b in callees :: (a, b)
  }

  lemma OutgoingCons(a: string, callee: string, callees: seq<string>)
    ensures Outgoing(a, [callee] + callees) == Outgoing(a, callees) + {(a, callee)}
  {
  }

  ghost predicate IsClosureOf(g: CallGraph, roots: seq<string>, cl: Dependencies) {
    && cl.roots == roots
    && (forall n :: ReachedFrom(g, roots, n) ==> n in g && !CrossingAt(g, n))
    && (forall n :: n in cl.functions <==> ReachedFrom(g, roots, n) && n in g && g[n].isFn)
    && (forall n :: n in cl.specFunctions <==> ReachedFrom(g, roots, n) && n in g && !g[n].isFn)
    && (forall a, b :: (a, b) in cl.edges <==> ReachedFrom(g, roots, a) && Edge(g, a, b))
  }

  /** `path` is a call chain from a root to `n`. */
  ghost predicate ChainTo(g: CallGraph, roots: seq<string>, path: seq<string>, n: string) {
    IsPath(g, path) && path[0] in roots && path[|path| - 1] == n
  }

  /**
  The reported call error: the last unfollowable call of the first faulty item in search order, with a chain
  to it.
   */
  ghost predicate IsCallError(c: Context, g: CallGraph, roots: seq<string>, error: ClosureError) {
    exists n, path, call ::
      && FirstCrossing(g, VisitAll(g, roots, [])) == Some(n)
      && ChainTo(g, roots, path, n)
      && LastUnfollowable(c, CallsOf(c, n)) == Some(call)
      && error == Report(path, call)
  }

  ghost predicate IsRootError(c: Context, roots: seq<string>, error: ClosureError) {
    exists k ::
      && 0 <= k < |roots| && RootsOk(c, roots[..k]) && !IsFnRoot(c, roots[k])
      && error == if roots[k] in c.kinds then ExportNotFunction(roots[k]) else UnknownExport(roots[k])
  }

  type Entry = (string, seq<string>)

  function NamesOf(stack: seq<Entry>): (r: seq<string>)
    ensures |r| == |stack|
    ensures forall i :: 0 <= i < |stack| ==> r[i] == stack[i].0
  {
    seq(|stack|, i requires 0 <= i < |stack| => stack[i].0)
  }

  ghost predicate ValidEntries(g: CallGraph, roots: seq<string>, stack: seq<Entry>) {
    forall i :: 0 <= i < |stack| ==> ChainTo(g, roots, stack[i].1, stack[i].0)
  }

  lemma NamesOfSnoc(stack: seq<Entry>, e: Entry)
    ensures NamesOf(stack + [e]) == NamesOf(stack) + [e.0]
    ensures Pending(NamesOf(stack + [e])) == [e.0] + Pending(NamesOf(stack))
  {
    assert (NamesOf(stack) + [e.0])[..|stack|] == NamesOf(stack);
    assert NamesOf(stack + [e]) == NamesOf(stack) + [e.0];
  }

  lemma PopNames(stack: seq<Entry>)
    requires stack != []
    ensures NamesOf(stack[..|stack| - 1]) == Pop(NamesOf(stack)) && Top(NamesOf(stack)) == stack[|stack| - 1].0
  {
  }

  lemma ChainExtends(g: CallGraph, roots: seq<string>, path: seq<string>, n: string, callee: string)
    requires ChainTo(g, roots, path, n) && Edge(g, n, callee)
    ensures ChainTo(g, roots, path + [callee], callee)
  {
  }

  lemma PushEntry(g: CallGraph, roots: seq<string>, stack: seq<Entry>, path: seq<string>, n: string, callee: string)
    requires ValidEntries(g, roots, stack) && ChainTo(g, roots, path, n) && Edge(g, n, callee)
    ensures ValidEntries(g, roots, stack + [(callee, path + [callee])])
  {
    ChainExtends(g, roots, path, n, callee);
  }

  /** The part of the scan from position `i` on, in terms of the part after it. */
  lemma ScanStep(c: Context, calls: seq<VerifiedCall>, i: nat, rest: seq<string>)
    requires i < |calls|
    ensures var call, tail := calls[i], InFile(c, calls[i + 1..]);
            && LastUnfollowable(c, calls[i..]).None?
               == (LastUnfollowable(c, calls[i + 1..]).None? && !Unfollowable(c, call))
            && if call.Named? && call.name in c.kinds
               then InFile(c, calls[i..]) == [call.name] + tail
                    && InFile(c, calls[i..]) + rest == [call.name] + (tail + rest)
               else InFile(c, calls[i..]) == tail
  {
    var from := calls[i..];
    assert from[0] == calls[i] && from[1..] == calls[i + 1..];
  }

  /** Scan one item's calls from last to first: push what resolves, stop at what cannot be followed. */
  method ScanCalls(c: Context, name: string, path: seq<string>, calls: seq<VerifiedCall>,
                   stack: seq<Entry>, edges: set<(string, string)>, ghost g: CallGraph, ghost roots: seq<string>)
    returns (error: Option<ClosureError>, stack': seq<Entry>, edges': set<(string, string)>)
    requires name in g && g[name].callees == InFile(c, calls)
    requires ChainTo(g, roots, path, name) && ValidEntries(g, roots, stack)
    ensures match LastUnfollowable(c, calls)
            case Some(call) => error == Some(Report(path, call))
            case None =>
              && error.None? && ValidEntries(g, roots, stack')
              && Pending(NamesOf(stack')) == InFile(c, calls) + Pending(NamesOf(stack))
              && edges' == edges + Outgoing(name, InFile(c, calls))
  {
    stack', edges' := stack, edges;
    ghost var rest := Pending(NamesOf(stack));
    var i := |calls|;
    while i > 0
      invariant 0 <= i <= |calls|
      invariant LastUnfollowable(c, calls[i..]).None?
      invariant ValidEntries(g, roots, stack')
      invariant Pending(NamesOf(stack')) == InFile(c, calls[i..]) + rest
      invariant edges' == edges + Outgoing(name, InFile(c, calls[i..]))
    {
      i := i - 1;
      var call := calls[i];
      ScanStep(c, calls, i, rest);
      if call.Named? && call.name in c.kinds {
        assert call in calls;
        PushEntry(g, roots, stack', path, name, call.name);
        NamesOfSnoc(stack', (call.name, path + [call.name]));
        OutgoingCons(name, call.name, InFile(c, calls[i + 1..]));
        edges' := edges' + {(name, call.name)};
        stack' := stack' + [(call.name, path + [call.name])];
      } else if Unfollowable(c, call) {
        LastAt(c, calls, i);
        return Some(Report(path, call)), stack', edges';
      }
    }
    assert calls[0..] == calls;
    error := None;
  }

  lemma {:induction false} LastAt(c: Context, calls: seq<VerifiedCall>, i: nat)
    requires i < |calls| && Unfollowable(c, calls[i]) && LastUnfollowable(c, calls[i + 1..]).None?
    ensures LastUnfollowable(c, calls) == Some(calls[i])
  {
    if i > 0 {
      assert calls[1..][i - 1 + 1..] == calls[i + 1..];
      LastAt(c, calls[1..], i - 1);
    }
  }

  /** Check the roots in order. */
  method CheckRoots(c: Context, roots: seq<string>) returns (error: Option<ClosureError>)
    ensures error.None? ==> RootsOk(c, roots)
    ensures error.Some? ==> IsRootError(c, roots, error.value)
  {
    for k := 0 to |roots|
      invariant RootsOk(c, roots[..k])
    {
      if roots[k] !in c.kinds {
        return Some(UnknownExport(roots[k]));
      }
      if !c.kinds[roots[k]] {
        return Some(ExportNotFunction(roots[k]));
      }
    }
    assert roots[..|roots|] == roots;
    error := None;
  }

  lemma RootEntry(g: CallGraph, roots: seq<string>, stack: seq<Entry>, i: nat)
    requires i < |roots| && ValidEntries(g, roots, stack)
    ensures ValidEntries(g, roots, stack + [(roots[i], [roots[i]])])
    ensures roots[i..] == [roots[i]] + roots[i + 1..]
  {
    assert ChainTo(g, roots, [roots[i]], roots[i]);
  }

  /** The initial stack: the roots last first, each with the path that holds just itself. */
  method RootStack(roots: seq<string>, ghost g: CallGraph) returns (stack: seq<Entry>)
    ensures Pending(NamesOf(stack)) == roots && ValidEntries(g, roots, stack)
  {
    stack := [];
    var i := |roots|;
    while i > 0
      invariant 0 <= i <= |roots|
      invariant Pending(NamesOf(stack)) == roots[i..]
      invariant ValidEntries(g, roots, stack)
    {
      i := i - 1;
      var entry := (roots[i], [roots[i]]);
      NamesOfSnoc(stack, entry);
      RootEntry(g, roots, stack, i);
      stack := stack + [entry];
    }
  }

  ghost function Kept(g: CallGraph, order: seq<string>, fns: bool): set<string> {
    set n | n in order && n in g && g[n].isFn == fns
  }

  lemma KeptSnoc(g: CallGraph, order: seq<string>, n: string)
    requires n in g
    ensures forall fns :: Kept(g, order + [n], fns) == Kept(g, order, fns) + if g[n].isFn == fns then {n} else {}
    ensures EdgesFrom(g, order + [n]) == EdgesFrom(g, order) + Outgoing(n, g[n].callees)
  {
  }

  /** What the loop has collected once it entered the names of `order`. */
  ghost predicate Collected(g: CallGraph, order: seq<string>, d: Dependencies) {
    d.functions == Kept(g, order, true) && d.specFunctions == Kept(g, order, false) && d.edges == EdgesFrom(g, order)
  }

  lemma CollectOne(g: CallGraph, order: seq<string>, n: string, d: Dependencies, d': Dependencies)
    requires n in g && Collected(g, order, d)
    requires d'.functions == d.functions + if g[n].isFn then {n} else {}
    requires d'.specFunctions == d.specFunctions + if g[n].isFn then {} else {n}
    requires d'.edges == d.edges + Outgoing(n, g[n].callees)
    ensures Collected(g, order + [n], d')
  {
    KeptSnoc(g, order, n);
  }

  lemma CallErrorAt(c: Context, g: CallGraph, roots: seq<string>, order: seq<string>, n: string,
                    path: seq<string>, call: VerifiedCall)
    requires FirstCrossing(g, order).None? && order + [n] <= VisitAll(g, roots, [])
    requires CrossingAt(g, n) && ChainTo(g, roots, path, n)
    requires LastUnfollowable(c, CallsOf(c, n)) == Some(call)
    ensures IsCallError(c, g, roots, Report(path, call))
  {
    FirstCrossingPrefix(g, order, n, VisitAll(g, roots, []));
  }

  /** A name on the stack is callable: it is a root or the callee of a resolved call. */
  lemma StackedIsCallable(c: Context, g: CallGraph, roots: seq<string>, path: seq<string>, n: string)
    requires Depends(c, g) && g.Keys == c.kinds.Keys
    requires RootsOk(c, roots) && ChainTo(g, roots, path, n)
    ensures NodeMatches(c, g, n)
  {
    if |path| > 1 {
      var caller := path[|path| - 2];
      assert Edge(g, caller, n);
      assert NodeMatches(c, g, caller);
    }
    assert n in g;
  }

  /** Enter one item: record it under its kind, then scan its calls. */
  method Enter(c: Context, roots: seq<string>, name: string, path: seq<string>, d: Dependencies, stack: seq<Entry>,
               ghost order: seq<string>, ghost g: CallGraph, ghost full: seq<string>)
    returns (error: Option<ClosureError>, stack': seq<Entry>, d': Dependencies)
    requires NodeMatches(c, g, name) && full == VisitAll(g, roots, []) && order + [name] <= full
    requires ChainTo(g, roots, path, name) && ValidEntries(g, roots, stack)
    requires Collected(g, order, d) && FirstCrossing(g, order).None?
    requires VisitAll(g, g[name].callees + Pending(NamesOf(stack)), order + [name]) == full
    ensures error.Some? ==> IsCallError(c, g, roots, error.value)
    ensures error.None? ==>
              && FirstCrossing(g, order + [name]).None? && ValidEntries(g, roots, stack')
              && Resumes(g, NamesOf(stack'), order + [name], full)
              && Collected(g, order + [name], d') && d'.roots == d.roots
  {
    if c.kinds[name] {
      d' := d.(functions := d.functions + {name});
    } else {
      d' := d.(specFunctions := d.specFunctions + {name});
    }
    var edges;
    error, stack', edges := ScanCalls(c, name, path, CallsOf(c, name), stack, d.edges, g, roots);
    if error.Some? {
      CallErrorAt(c, g, roots, order, name, path, LastUnfollowable(c, CallsOf(c, name)).value);
      return;
    }
    d' := d'.(edges := edges);
    CollectOne(g, order, name, d, d');
    FirstCrossingSnoc(g, order, name);
  }

  /** The loop invariant of the search. */
  ghost predicate Searching(c: Context, g: CallGraph, roots: seq<string>, full: seq<string>,
                            stack: seq<Entry>, order: seq<string>, d: Dependencies) {
    && Resumes(g, NamesOf(stack), order, full)
    && FirstCrossing(g, order).None?
    && ValidEntries(g, roots, stack)
    && Elems(order) <= g.Keys
    && Collected(g, order, d) && d.roots == roots
  }

  lemma SkipSeen(c: Context, g: CallGraph, roots: seq<string>, full: seq<string>,
                 stack: seq<Entry>, order: seq<string>, d: Dependencies)
    requires stack != [] && Searching(c, g, roots, full, stack, order, d) && stack[|stack| - 1].0 in order
    ensures Searching(c, g, roots, full, stack[..|stack| - 1], order, d)
  {
    PopNames(stack);
    PopSeen(g, NamesOf(stack), order, full);
  }

  /** What entering the popped item needs to know. */
  lemma PopFresh(c: Context, g: CallGraph, roots: seq<string>, full: seq<string>,
                 stack: seq<Entry>, order: seq<string>, d: Dependencies)
    requires Depends(c, g) && g.Keys == c.kinds.Keys && RootsOk(c, roots)
    requires stack != [] && Searching(c, g, roots, full, stack, order, d) && stack[|stack| - 1].0 !in order
    ensures var (name, path) := stack[|stack| - 1];
            var rest, order' := stack[..|stack| - 1], order + [name];
            && NodeMatches(c, g, name) && order' <= full
            && ChainTo(g, roots, path, name) && ValidEntries(g, roots, rest)
            && VisitAll(g, g[name].callees + Pending(NamesOf(rest)), order') == full
            && Elems(order') == Elems(order) + {name}
            && |g.Keys - Elems(order')| < |g.Keys - Elems(order)|
  {
    var (name, path) := stack[|stack| - 1];
    StackedIsCallable(c, g, roots, path, name);
    PopNames(stack);
    PopNew(g, NamesOf(stack), order, full);
    ElemsSnoc(order, name);
  }

  /** The search loop, which follows the recursive preorder `full`. */
  method Search(c: Context, roots: seq<string>, ghost g: CallGraph, ghost full: seq<string>)
    returns (error: Option<ClosureError>, d: Dependencies)
    requires RootsOk(c, roots) && Depends(c, g) && g.Keys == c.kinds.Keys && full == VisitAll(g, roots, [])
    ensures error.Some? ==> IsCallError(c, g, roots, error.value)
    ensures error.None? ==> Searching(c, g, roots, full, [], full, d)
  {
    var visited: set<string> := {};
    ghost var order: seq<string> := [];
    error, d := None, Dependencies(roots, {}, {}, {});
    var stack := RootStack(roots, g);
    while stack != []
      invariant visited == Elems(order)
      invariant Searching(c, g, roots, full, stack, order, d)
      invariant error.None?
      decreases |g.Keys - Elems(order)|, |stack|
    {
      var (name, path) := stack[|stack| - 1];
      if name in visited {
        SkipSeen(c, g, roots, full, stack, order, d);
        stack := stack[..|stack| - 1];
        continue;
      }
      PopFresh(c, g, roots, full, stack, order, d);
      stack := stack[..|stack| - 1];
      visited := visited + {name};
      error, stack, d := Enter(c, roots, name, path, d, stack, order, g, full);
      if error.Some? {
        return;
      }
      order := order + [name];
    }
  }

  /** What an error-free search has collected is the closure. */
  lemma SearchedIsClosure(g: CallGraph, roots: seq<string>, cl: Dependencies)
    requires var full := VisitAll(g, roots, []);
             && FirstCrossing(g, full).None? && Elems(full) <= g.Keys
             && cl.roots == roots && Collected(g, full, cl)
    ensures IsClosureOf(g, roots, cl)
    ensures forall n :: ReachedFrom(g, roots, n) ==> !CrossingAt(g, n)
  {
    SearchIsReachability(g, roots);
    var full := VisitAll(g, roots, []);
    forall n | ReachedFrom(g, roots, n)
      ensures n in g && !CrossingAt(g, n)
    {
      assert n in full && n in Elems(full);
    }
  }

  lemma FirstCrossingSnoc(g: CallGraph, order: seq<string>, n: string)
    requires FirstCrossing(g, order).None? && !CrossingAt(g, n)
    ensures FirstCrossing(g, order + [n]).None?
  {
  }

  // ---------- In terms of items ----------

  lemma {:induction false} CurrentIsCallable(items: seq<Item>, n: string)
    ensures Current(items, n).Some? <==> n in KindsOf(items)
    ensures var r := Current(items, n);
            r.Some? ==> && r.value in items && r.value.name == n && IsCallable(r.value)
                        && KindsOf(items)[n] == r.value.Fn?
  {
    if items != [] {
      CurrentIsCallable(items[..|items| - 1], n);
    }
  }

  function CurrentCalls(items: seq<Item>, n: string): seq<VerifiedCall> {
    match Current(items, n)
    case Some(item) => CallsInItem(item)
    case None => []
  }

  /** For every callable name, the first item of that name is the one whose kind is recorded. */
  ghost predicate FirstIsCurrent(items: seq<Item>) {
    forall n :: n in KindsOf(items) ==> FindItem(items, n) == Current(items, n)
  }

  /** The program, the registry or the language knows the name. */
  predicate KnownName(items: seq<Item>, registry: set<string>, n: string) {
    || n in registry || n in NativeBuiltins()
    || exists i :: i in items && ((IsCallable(i) && i.name == n) || (i.Enum? && n in i.variants))
  }

  /** A type of the program or a native one. */
  predicate KnownRoot(items: seq<Item>, root: string) {
    root in NativeRoots() || exists i :: i in items && (i.Struct? || i.Enum?) && i.name == root
  }

  /** A call that the closure cannot follow and does not know. */
  predicate Unknown(items: seq<Item>, registry: set<string>, x: Expr) {
    && x.Call?
    && match x.callee
       case Path(parts) =>
         if |parts| == 1 then !KnownName(items, registry, parts[0])
         else |parts| > 1 && !KnownRoot(items, parts[0])
       case _ => true
  }

  function UnknownCall(items: seq<Item>, registry: set<string>): Expr -> bool {
    x => Unknown(items, registry, x)
  }

  /** A call that is unknown occurs in the item: in its contract, its measure or its body. */
  ghost predicate HasUnknown(items: seq<Item>, registry: set<string>, item: Item) {
    SomeHas(UnknownCall(items, registry), ItemParts(item))
  }

  lemma {:induction false} KindsAreCallable(items: seq<Item>, n: string)
    ensures n in KindsOf(items) <==> exists i :: i in items && IsCallable(i) && i.name == n
  {
    CurrentIsCallable(items, n);
  }

  lemma UnknownIsUnfollowable(items: seq<Item>, registry: set<string>, x: Expr)
    ensures Unknown(items, registry, x)
            <==> exists call :: Made(call)(x) && Unfollowable(ContextOf(items, registry), call)
  {
    var c := ContextOf(items, registry);
    if x.Call? {
      match x.callee
      case Path(parts) =>
        if |parts| == 1 {
          KnownNames(items, registry, parts[0]);
          assert parts == [parts[0]];
          assert Made(Named(parts[0]))(x);
        } else if |parts| > 1 {
          KnownRoots(items, registry, parts[0]);
          assert Made(Qualified(parts[0]))(x);
        }
      case _ => assert Made(Indirect)(x);
    }
  }

  lemma KnownNames(items: seq<Item>, registry: set<string>, n: string)
    ensures KnownName(items, registry, n) <==> !Unfollowable(ContextOf(items, registry), Named(n))
  {
    var c := ContextOf(items, registry);
    KindsAreCallable(items, n);
    assert n in c.builtins
           <==> n in registry || n in NativeBuiltins() || exists i :: i in items && i.Enum? && n in i.variants;
  }

  lemma KnownRoots(items: seq<Item>, registry: set<string>, root: string)
    ensures KnownRoot(items, root) <==> !Unfollowable(ContextOf(items, registry), Qualified(root))
  {
  }

  /** An item's collected calls hold one that cannot be followed exactly when an unknown call occurs in it. */
  lemma UnfollowableOccurs(items: seq<Item>, registry: set<string>, item: Item)
    ensures SomeUnfollowable(items, registry, CallsInItem(item)) <==> HasUnknown(items, registry, item)
  {
    var c := ContextOf(items, registry);
    forall call
      ensures call in CallsInItem(item) <==> SomeHas(Made(call), ItemParts(item))
    {
      ItemCalls(item, call);
    }
    forall x
      ensures UnknownCall(items, registry)(x) <==> exists call :: Made(call)(x) && Unfollowable(c, call)
    {
      UnknownIsUnfollowable(items, registry, x);
    }
    if SomeUnfollowable(items, registry, CallsInItem(item)) {
      var call :| call in CallsInItem(item) && Unfollowable(c, call);
      var e :| e in ItemParts(item) && Has(Made(call), e);
      var x :| Within(x, e) && Made(call)(x);
      assert UnknownCall(items, registry)(x);
      assert Has(UnknownCall(items, registry), e);
    }
    if HasUnknown(items, registry, item) {
      var e :| e in ItemParts(item) && Has(UnknownCall(items, registry), e);
      var x :| Within(x, e) && UnknownCall(items, registry)(x);
      var call :| Made(call)(x) && Unfollowable(c, call);
      assert Has(Made(call), e);
    }
  }

  ghost predicate SomeUnfollowable(items: seq<Item>, registry: set<string>, calls: seq<VerifiedCall>) {
    exists call :: call in calls && Unfollowable(ContextOf(items, registry), call)
  }

  /** An unknown call occurs in the item behind `n`. */
  ghost predicate Faulty(items: seq<Item>, registry: set<string>, n: string) {
    Current(items, n).Some? && HasUnknown(items, registry, Current(items, n).value)
  }

  lemma FaultyMeans(items: seq<Item>, registry: set<string>, n: string)
    ensures Faulty(items, registry, n) <==> SomeUnfollowable(items, registry, CurrentCalls(items, n))
  {
    if Current(items, n).Some? {
      UnfollowableOccurs(items, registry, Current(items, n).value);
    }
  }

  /** Every reachable item's calls can be followed. */
  ghost predicate AllFollowed(items: seq<Item>, registry: set<string>, g: CallGraph, roots: seq<string>) {
    forall n :: ReachedFrom(g, roots, n) ==> !Faulty(items, registry, n)
  }

  /** A call that no registry explains: an indirect one, or one qualified by an unknown root. */
  predicate IsHopeless(items: seq<Item>, call: VerifiedCall) {
    call.Indirect? || (call.Qualified? && Unfollowable(ContextOf(items, {}), call))
  }

  ghost predicate HasHopeless(items: seq<Item>, calls: seq<VerifiedCall>) {
    exists call :: call in calls && IsHopeless(items, call)
  }

  /** The plain names among the calls that only a registry can explain. */
  function UnknownNames(items: seq<Item>, calls: seq<VerifiedCall>): (r: set<string>)
    ensures forall n :: n in r <==> Named(n) in calls && Unfollowable(ContextOf(items, {}), Named(n))
  {
    set call | call in calls && call.Named? && Unfollowable(ContextOf(items, {}), call) :: call.name
  }

  /** What is wrong with a list of calls: a hopeless one, or an unknown name that the registry does not hold. */
  lemma FaultMeans(items: seq<Item>, registry: set<string>, calls: seq<VerifiedCall>)
    ensures SomeUnfollowable(items, registry, calls)
            <==> HasHopeless(items, calls) || !(UnknownNames(items, calls) <= registry)
  {
    var bare, c := ContextOf(items, {}), ContextOf(items, registry);
    forall call
      ensures Unfollowable(c, call)
              <==> IsHopeless(items, call) || (call.Named? && Unfollowable(bare, call) && call.name !in registry)
    {
      assert call.Named? ==> (call.name in c.builtins <==> call.name in bare.builtins || call.name in registry);
    }
    if !(UnknownNames(items, calls) <= registry) {
      var n :| n in UnknownNames(items, calls) && n !in registry;
      assert Named(n) in calls;
    }
  }

  /** Both lists make a hopeless call, or neither does and their unknown names are the same. */
  ghost predicate SameFaults(items: seq<Item>, a: seq<VerifiedCall>, b: seq<VerifiedCall>) {
    if HasHopeless(items, a) then HasHopeless(items, b)
    else !HasHopeless(items, b) && UnknownNames(items, a) == UnknownNames(items, b)
  }

  /** The closure judges a callable name by its first item; `n` has a mark exactly when that one is at fault. */
  lemma CrossingIsFirst(items: seq<Item>, registry: set<string>, n: string)
    requires n in KindsOf(items)
    ensures CrossingAt(DependencyGraph(ContextOf(items, registry)), n)
            <==> SomeUnfollowable(items, registry, CallsNamed(items, n))
  {
    assert CallsOf(ContextOf(items, registry), n) == CallsNamed(items, n);
  }

  /**
  Duplicate names. Under every registry the closure judges a name as the item it stands for deserves exactly
  when the first item of the name and that item have the same faults: both make a call that no registry can
  explain, or neither does and the names they call that the program does not know are the same.
   */
  lemma DuplicatesJudgedIff(items: seq<Item>, n: string)
    requires n in KindsOf(items)
    ensures (forall registry :: CrossingAt(DependencyGraph(ContextOf(items, registry)), n)
                                <==> Faulty(items, registry, n))
            <==> SameFaults(items, CallsNamed(items, n), CurrentCalls(items, n))
  {
    var a, b := CallsNamed(items, n), CurrentCalls(items, n);
    forall registry
      ensures CrossingAt(DependencyGraph(ContextOf(items, registry)), n)
              <==> HasHopeless(items, a) || !(UnknownNames(items, a) <= registry)
      ensures Faulty(items, registry, n)
              <==> HasHopeless(items, b) || !(UnknownNames(items, b) <= registry)
    {
      CrossingIsFirst(items, registry, n);
      FaultMeans(items, registry, a);
      FaultMeans(items, registry, b);
      FaultyMeans(items, registry, n);
    }
    if !SameFaults(items, a, b) {
      var p, q := UnknownNames(items, a), UnknownNames(items, b);
      var registry := if HasHopeless(items, a) || (!HasHopeless(items, b) && !(p <= q)) then q else p;
      assert CrossingAt(DependencyGraph(ContextOf(items, registry)), n)
          != Faulty(items, registry, n);
    }
  }

  /** For every callable name the first item and the recorded one have the same faults. */
  ghost predicate FirstIsFair(items: seq<Item>) {
    forall n :: n in KindsOf(items) ==> SameFaults(items, CallsNamed(items, n), CurrentCalls(items, n))
  }

  lemma CurrentIsFair(items: seq<Item>)
    requires FirstIsCurrent(items)
    ensures FirstIsFair(items)
  {
  }

  lemma CrossingsAreFaults(items: seq<Item>, registry: set<string>, roots: seq<string>)
    requires FirstIsFair(items)
    ensures var c := ContextOf(items, registry);
            var g := DependencyGraph(c);
            (forall n :: ReachedFrom(g, roots, n) ==> !CrossingAt(g, n)) <==> AllFollowed(items, registry, g, roots)
  {
    var c := ContextOf(items, registry);
    forall n
      ensures CrossingAt(DependencyGraph(c), n) <==> Faulty(items, registry, n)
    {
      CurrentIsCallable(items, n);
      if n in c.kinds {
        DuplicatesJudgedIff(items, n);
      }
    }
  }

  // ---------- The dependency graph in terms of what occurs ----------

  /**
  The node of a name: of the kind of the last callable item, with a mark when an unknown call occurs in the
  first item of the name, and the callable names that are called plainly there as callees.
   */
  ghost predicate IsDependencyNode(items: seq<Item>, registry: set<string>, first: Item, current: Item, node: Node) {
    && node.isFn == current.Fn?
    && (node.isCrossing <==> HasUnknown(items, registry, first))
    && forall n :: n in node.callees <==> Current(items, n).Some? && SomeHas(PlainCall(n), ItemParts(first))
  }

  ghost predicate IsDependencyGraph(items: seq<Item>, registry: set<string>, g: CallGraph) {
    forall n ::
      && (n in g <==> Current(items, n).Some?)
      && (n in g ==>
            && FindItem(items, n).Some? && IsFirst(items, FindItem(items, n).value)
            && IsDependencyNode(items, registry, FindItem(items, n).value, Current(items, n).value, g[n]))
  }

  lemma DependencyNodeMeans(items: seq<Item>, registry: set<string>, n: string)
    requires n in KindsOf(items)
    ensures Current(items, n).Some? && FindItem(items, n).Some?
    ensures IsDependencyNode(items, registry, FindItem(items, n).value, Current(items, n).value,
                             DependencyGraph(ContextOf(items, registry))[n])
  {
    var c := ContextOf(items, registry);
    CurrentIsCallable(items, n);
    var first := FindItem(items, n).value;
    assert CallsOf(c, n) == CallsInItem(first);
    CrossingIsFirst(items, registry, n);
    UnfollowableOccurs(items, registry, first);
    forall m
      ensures m in DependencyGraph(c)[n].callees
              <==> Current(items, m).Some? && SomeHas(PlainCall(m), ItemParts(first))
    {
      CurrentIsCallable(items, m);
      ItemCalls(first, Named(m));
    }
  }

  lemma DependencyGraphMeans(items: seq<Item>, registry: set<string>)
    ensures IsDependencyGraph(items, registry, DependencyGraph(ContextOf(items, registry)))
  {
    forall n
      ensures var g := DependencyGraph(ContextOf(items, registry));
              && (n in g <==> Current(items, n).Some?)
              && (n in g ==>
                    && FindItem(items, n).Some? && IsFirst(items, FindItem(items, n).value)
                    && IsDependencyNode(items, registry, FindItem(items, n).value, Current(items, n).value, g[n]))
    {
      CurrentIsCallable(items, n);
      FoundIsFirst(items, n);
      if n in KindsOf(items) {
        DependencyNodeMeans(items, registry, n);
      }
    }
  }

  /** Every root is the name of a function. */
  ghost predicate RootsAreFns(items: seq<Item>, roots: seq<string>) {
    forall r :: r in roots ==> Current(items, r).Some? && Current(items, r).value.Fn?
  }

  /** The first root that is none, and why. */
  ghost predicate IsBadRoot(items: seq<Item>, roots: seq<string>, error: ClosureError) {
    exists k ::
      && 0 <= k < |roots| && RootsAreFns(items, roots[..k])
      && match error
         case UnknownExport(n) => n == roots[k] && Current(items, n).None?
         case ExportNotFunction(n) => n == roots[k] && Current(items, n).Some? && Current(items, n).value.SpecFn?
         case _ => false
  }

  /** An unknown call that is reported under this name. */
  function UnknownCallOf(items: seq<Item>, registry: set<string>, callee: string): Expr -> bool {
    x => Unknown(items, registry, x) && CallsFrom(x, callee)
  }

  /** The path ends in an item where the reported call occurs. */
  ghost predicate IsBadCall(items: seq<Item>, registry: set<string>, g: CallGraph, roots: seq<string>,
                            error: ClosureError) {
    (error.UnresolvedCall? || error.IndirectCall?) && error.path != []
    && var n := error.path[|error.path| - 1];
       && ChainTo(g, roots, error.path, n) && FirstCrossing(g, VisitAll(g, roots, [])) == Some(n)
       && FindItem(items, n).Some?
       && SomeHas(if error.IndirectCall? then AnyIndirectCall() else UnknownCallOf(items, registry, error.callee),
                  ItemParts(FindItem(items, n).value))
  }

  lemma RootsMean(items: seq<Item>, registry: set<string>, roots: seq<string>)
    ensures RootsOk(ContextOf(items, registry), roots) <==> RootsAreFns(items, roots)
  {
    forall r | r in roots
      ensures IsFnRoot(ContextOf(items, registry), r) <==> Current(items, r).Some? && Current(items, r).value.Fn?
    {
      CurrentIsCallable(items, r);
    }
  }

  lemma BadRootMeans(items: seq<Item>, registry: set<string>, roots: seq<string>, error: ClosureError)
    requires IsRootError(ContextOf(items, registry), roots, error)
    ensures IsBadRoot(items, roots, error)
  {
    var c := ContextOf(items, registry);
    var k :|
      && 0 <= k < |roots| && RootsOk(c, roots[..k]) && !IsFnRoot(c, roots[k])
      && error == if roots[k] in c.kinds then ExportNotFunction(roots[k]) else UnknownExport(roots[k]);
    RootsMean(items, registry, roots[..k]);
    CurrentIsCallable(items, roots[k]);
  }

  /** A collected call that cannot be followed is an unknown call that occurs, reported under its own name. */
  lemma ReportedOccurs(items: seq<Item>, registry: set<string>, item: Item, path: seq<string>, call: VerifiedCall)
    requires call in CallsInItem(item) && Unfollowable(ContextOf(items, registry), call)
    ensures var error := Report(path, call);
            && (error.UnresolvedCall? || error.IndirectCall?) && error.path == path
            && SomeHas(if error.IndirectCall? then AnyIndirectCall() else UnknownCallOf(items, registry, error.callee),
                       ItemParts(item))
  {
    ItemCalls(item, call);
    var e :| e in ItemParts(item) && Has(Made(call), e);
    var x :| Within(x, e) && Made(call)(x);
    UnknownIsUnfollowable(items, registry, x);
    match call
    case Indirect => assert Has(AnyIndirectCall(), e);
    case Named(m) => assert UnknownCallOf(items, registry, m)(x) && Has(UnknownCallOf(items, registry, m), e);
    case Qualified(m) => assert UnknownCallOf(items, registry, m)(x) && Has(UnknownCallOf(items, registry, m), e);
  }

  lemma BadCallMeans(items: seq<Item>, registry: set<string>, roots: seq<string>, error: ClosureError)
    requires var c := ContextOf(items, registry); IsCallError(c, DependencyGraph(c), roots, error)
    ensures IsBadCall(items, registry, DependencyGraph(ContextOf(items, registry)), roots, error)
  {
    var c := ContextOf(items, registry);
    var g := DependencyGraph(c);
    var n, path, call :|
      && FirstCrossing(g, VisitAll(g, roots, [])) == Some(n)
      && ChainTo(g, roots, path, n)
      && LastUnfollowable(c, CallsOf(c, n)) == Some(call)
      && error == Report(path, call);
    CurrentIsCallable(items, n);
    ReportedOccurs(items, registry, FindItem(items, n).value, path, call);
  }

  lemma UniqueIsCurrent(items: seq<Item>)
    requires UniqueNames(items)
    ensures FirstIsCurrent(items)
  {
    forall n | n in KindsOf(items)
      ensures FindItem(items, n) == Current(items, n)
    {
      CurrentIsCallable(items, n);
      UniqueNodes(items, {}, Current(items, n).value);
    }
  }

  /** With unique names: no reachable `fn` or `spec fn` of the program makes a call that cannot be followed. */
  lemma UniqueNamesFollowed(items: seq<Item>, registry: set<string>, roots: seq<string>)
    requires UniqueNames(items)
    ensures FirstIsCurrent(items) && FirstIsFair(items)
    ensures var c := ContextOf(items, registry);
            var g := DependencyGraph(c);
            AllFollowed(items, registry, g, roots)
            <==> forall i ::
                   i in items && IsCallable(i) && ReachedFrom(g, roots, i.name) ==> !HasUnknown(items, registry, i)
  {
    UniqueIsCurrent(items);
    CurrentIsFair(items);
    forall i | i in items && IsCallable(i)
      ensures Current(items, i.name) == Some(i)
    {
      UniqueNodes(items, {}, i);
    }
    forall n | Current(items, n).Some?
      ensures Current(items, n).value in items && Current(items, n).value.name == n
    {
      CurrentIsCallable(items, n);
    }
  }

  /** The result in terms of what the closure read off the program. */
  ghost predicate IsResult(c: Context, g: CallGraph, roots: seq<string>, r: ClosureResult) {
    && (r.Closed? <==> RootsOk(c, roots) && forall n :: ReachedFrom(g, roots, n) ==> !CrossingAt(g, n))
    && (r.Closed? ==> IsClosureOf(g, roots, r.closure))
    && (r.Failed? && !RootsOk(c, roots) ==> IsRootError(c, roots, r.error))
    && (r.Failed? && RootsOk(c, roots) ==> IsCallError(c, g, roots, r.error))
  }

  /** The result in terms of the items and the calls that occur in them. */
  ghost predicate IsClosureResult(items: seq<Item>, registry: set<string>, g: CallGraph, roots: seq<string>,
                                  r: ClosureResult) {
    && (r.Closed? <==> RootsAreFns(items, roots) && forall n :: ReachedFrom(g, roots, n) ==> !CrossingAt(g, n))
    && (r.Closed? ==> IsClosureOf(g, roots, r.closure))
    && (r.Failed? && !RootsAreFns(items, roots) ==> IsBadRoot(items, roots, r.error))
    && (r.Failed? && RootsAreFns(items, roots) ==> IsBadCall(items, registry, g, roots, r.error))
  }

  lemma ResultMeans(items: seq<Item>, registry: set<string>, roots: seq<string>, r: ClosureResult)
    requires var c := ContextOf(items, registry); IsResult(c, DependencyGraph(c), roots, r)
    ensures IsClosureResult(items, registry, DependencyGraph(ContextOf(items, registry)), roots, r)
  {
    RootsMean(items, registry, roots);
    if r.Failed? {
      if RootsAreFns(items, roots) {
        BadCallMeans(items, registry, roots, r.error);
      } else {
        BadRootMeans(items, registry, roots, r.error);
      }
    }
  }

  /** Check the roots, then search. */
  method CloseOver(c: Context, roots: seq<string>) returns (r: ClosureResult)
    ensures IsResult(c, DependencyGraph(c), roots, r)
  {
    ghost var g := DependencyGraph(c);
    DependencyGraphDepends(c);
    var rootError := CheckRoots(c, roots);
    if rootError.Some? {
      return Failed(rootError.value);
    }
    var error, d := Search(c, roots, g, VisitAll(g, roots, []));
    if error.Some? {
      SearchIsReachability(g, roots);
      return Failed(error.value);
    }
    SearchedIsClosure(g, roots, d);
    r := Closed(d);
  }

  /**
  The roots are the exports, and the graph is that of the calls that occur. The closure succeeds exactly when every
  root is a `fn` and no reachable name has a mark: an unknown call in the first item of that name. When for every
  callable name the first item has the faults of the recorded one, as with unique names, that is: no reachable
  item makes an unknown call. On success the node sets are the reachable items and the edges are the call
  relation on them; on failure the first offence is named.
   */
  method VerifiedClosure(items: seq<Item>, registry: set<string>, exports: seq<string>) returns (r: ClosureResult)
    ensures Elems(SortedUnique(exports)) == Elems(exports) && Ascending(SortedUnique(exports))
    ensures IsDependencyGraph(items, registry, DependencyGraph(ContextOf(items, registry)))
    ensures IsClosureResult(items, registry, DependencyGraph(ContextOf(items, registry)), SortedUnique(exports), r)
    ensures var roots := SortedUnique(exports);
            var g := DependencyGraph(ContextOf(items, registry));
            FirstIsFair(items) ==> (r.Closed? <==> RootsAreFns(items, roots) && AllFollowed(items, registry, g, roots))
  {
    var roots := SortedUnique(exports);
    SortedUniqueFacts(exports);
    r := CloseOver(ContextOf(items, registry), roots);
    DependencyGraphMeans(items, registry);
    ResultMeans(items, registry, roots, r);
    if FirstIsFair(items) {
      CrossingsAreFaults(items, registry, roots);
    }
  }

  // ---------- What the closure means ----------

  /** The closure's items are the least set that holds the roots and is closed under resolved calls. */
  lemma ClosureIsLeast(g: CallGraph, roots: seq<string>, cl: Dependencies, s: set<string>)
    requires IsClosureOf(g, roots, cl)
    ensures var items := cl.functions + cl.specFunctions;
            && Elems(roots) <= items
            && (forall a, b :: a in items && Edge(g, a, b) ==> b in items)
            && (Elems(roots) <= s && (forall a, b :: a in s && Edge(g, a, b) ==> b in s) ==> items <= s)
  {
    var items := cl.functions + cl.specFunctions;
    forall r | r in roots
      ensures r in items
    {
      ReachesSelf(g, r);
      assert ReachedFrom(g, roots, r);
    }
    forall a, b | a in items && Edge(g, a, b)
      ensures b in items
    {
      var r :| r in roots && Reaches(g, r, a);
      ReachesExtend(g, r, a, b);
      assert ReachedFrom(g, roots, b);
    }
    if Elems(roots) <= s && forall a, b :: a in s && Edge(g, a, b) ==> b in s {
      forall n | n in items
        ensures n in s
      {
        var r :| r in roots && Reaches(g, r, n);
        var p :| PathBetween(g, p, r, n);
        ClosedContainsReach(g, s, p, r, n);
      }
    }
  }

  ghost predicate UniqueNames(items: seq<Item>) {
    forall i, j :: 0 <= i < j < |items| ==> items[i].name != items[j].name
  }

  /** With unique names the node of a name stands for the one item of that name. */
  lemma {:induction false} UniqueNodes(items: seq<Item>, inFile: set<string>, item: Item)
    requires UniqueNames(items) && item in items
    ensures FindItem(items, item.name) == Some(item)
    ensures (item.Fn? || item.SpecFn?) <==> item.name in KindsOf(items)
    ensures item.name in KindsOf(items) ==> KindsOf(items)[item.name] == item.Fn?
    ensures (item.Fn? || item.SpecFn?) <==> item.name in NodesOf(items, inFile)
    ensures item.name in NodesOf(items, inFile) ==> Some(NodesOf(items, inFile)[item.name]) == NodeOf(item, inFile)
  {
    var found := FindItem(items, item.name);
    assert found == Some(item);
    var last, init := items[|items| - 1], items[..|items| - 1];
    if item == last {
      AbsentName(init, inFile, item.name);
    } else {
      UniqueNodes(init, inFile, item);
    }
  }

  lemma {:induction false} AbsentName(items: seq<Item>, inFile: set<string>, n: string)
    requires forall i :: i in items ==> i.name != n
    ensures n !in KindsOf(items) && n !in NodesOf(items, inFile)
  {
    if items != [] {
      assert items[|items| - 1] in items;
      AbsentName(items[..|items| - 1], inFile, n);
    }
  }

  /** No native type root is the name of a callable item. */
  ghost predicate NoRootClash(items: seq<Item>) {
    forall n :: Current(items, n).Some? ==> n !in NativeRoots()
  }

  /** Each method name of the item that is the name of a callable one is called by its plain name there too. */
  ghost predicate MethodsAreCalls(items: seq<Item>, i: Item) {
    forall n :: SomeHas(MethodCallOf(n), BodyParts(i)) && Current(items, n).Some? ==>
      SomeHas(PlainCall(n), ItemParts(i))
  }

  /** No native root is a callable name, and no item uses one as a method name only. */
  ghost predicate NoNameClash(items: seq<Item>) {
    NoRootClash(items) && forall i :: i in items ==> MethodsAreCalls(items, i)
  }

  /** A callable name behind a call that the closure accepts is called by its plain name. */
  lemma AcceptedIsNamed(items: seq<Item>, registry: set<string>, item: Item, b: string)
    requires UniqueNames(items) && NoRootClash(items) && MethodsAreCalls(items, item)
    requires item in items && b in KindsOf(items)
    requires Accounted(b, CallsInItem(item), SomeHas(MethodCallOf(b), BodyParts(item)))
    requires LastUnfollowable(ContextOf(items, registry), CallsInItem(item)).None?
    ensures Named(b) in CallsInItem(item)
  {
    var c := ContextOf(items, registry);
    CurrentIsCallable(items, b);
    ItemCalls(item, Named(b));
    if Qualified(b) in CallsInItem(item) {
      assert !Unfollowable(c, Qualified(b));
      var i :| i in items && (i.Struct? || i.Enum?) && i.name == b;
      UniqueNodes(items, {}, i);
    }
  }

  /** One assurance edge between callable items is a dependency edge, unless its source is faulty. */
  lemma EdgeAgrees(items: seq<Item>, registry: set<string>, a: string, b: string)
    requires UniqueNames(items) && NoRootClash(items)
    requires Edge(NodesOf(items, ItemNames(items)), a, b) && b in KindsOf(items)
    requires a in KindsOf(items) && !CrossingAt(DependencyGraph(ContextOf(items, registry)), a)
    requires forall i :: i in items && i.name == a ==> MethodsAreCalls(items, i)
    ensures Edge(DependencyGraph(ContextOf(items, registry)), a, b)
  {
    var inFile := ItemNames(items);
    var item := CallableItem(items, a);
    UniqueNodes(items, inFile, item);
    var body := if item.SpecFn? then item.body else item.fnBody.value;
    BlockAgrees(body, inFile, b);
    assert Accounted(b, CallsInItem(item), SomeHas(MethodCallOf(b), BodyParts(item)));
    AcceptedIsNamed(items, registry, item, b);
  }

  /**
  Every callable callee that the assurance graph gives an item without faults is one in the dependency graph too,
  exactly when each method name in the item that is the name of a callable one is called by its plain name there.
  The dependency graph has further edges: calls in contracts and measures.
   */
  lemma MethodEdgesIff(items: seq<Item>, registry: set<string>, item: Item)
    requires UniqueNames(items) && NoRootClash(items) && item in items && item.name in KindsOf(items)
    requires !CrossingAt(DependencyGraph(ContextOf(items, registry)), item.name)
    ensures (forall b :: b in KindsOf(items) && Edge(NodesOf(items, ItemNames(items)), item.name, b) ==>
               Edge(DependencyGraph(ContextOf(items, registry)), item.name, b))
            <==> MethodsAreCalls(items, item)
  {
    var a, d := NodesOf(items, ItemNames(items)), DependencyGraph(ContextOf(items, registry));
    UniqueNodes(items, ItemNames(items), item);
    if MethodsAreCalls(items, item) {
      forall b | b in KindsOf(items) && Edge(a, item.name, b)
        ensures Edge(d, item.name, b)
      {
        forall i | i in items && i.name == item.name
          ensures MethodsAreCalls(items, i)
        {
          UniqueNodes(items, ItemNames(items), i);
        }
        EdgeAgrees(items, registry, item.name, b);
      }
    } else {
      var b :| SomeHas(MethodCallOf(b), BodyParts(item)) && Current(items, b).Some?
               && !SomeHas(PlainCall(b), ItemParts(item));
      CurrentIsCallable(items, b);
      ItemCalls(item, Named(b));
      var callee := CallableItem(items, b);
      MethodIsEdge(items, item, b);
      assert Edge(a, item.name, b) && !Edge(d, item.name, b);
    }
  }

  lemma MethodIsEdge(items: seq<Item>, item: Item, b: string)
    requires UniqueNames(items) && item in items && item.name in KindsOf(items)
    requires SomeHas(MethodCallOf(b), BodyParts(item)) && b in ItemNames(items)
    ensures Edge(NodesOf(items, ItemNames(items)), item.name, b)
  {
    UniqueNodes(items, ItemNames(items), item);
    var body := if item.SpecFn? then item.body else item.fnBody.value;
    BlockRecords(body, ItemNames(items), b);
  }

  /** The callable item behind a callable name. */
  lemma {:induction false} CallableItem(items: seq<Item>, n: string) returns (item: Item)
    requires n in KindsOf(items)
    ensures item in items && item.name == n && (item.Fn? || item.SpecFn?)
  {
    var last, init := items[|items| - 1], items[..|items| - 1];
    if last.name == n && (last.Fn? || last.SpecFn?) {
      item := last;
    } else {
      item := CallableItem(init, n);
    }
  }

  /** The callable names of the two graphs are the same. */
  lemma {:induction false} SameCallables(items: seq<Item>, inFile: set<string>)
    ensures NodesOf(items, inFile).Keys == KindsOf(items).Keys
    ensures forall n :: n in KindsOf(items) ==> NodesOf(items, inFile)[n].isFn == KindsOf(items)[n]
  {
    if items != [] {
      SameCallables(items[..|items| - 1], inFile);
    }
  }

  /**
  The walkers agree: when the closure of `f` succeeds, every callable the assurance graph reaches
  from `f` is in the closure.
   */
  lemma WalkersAgree(items: seq<Item>, registry: set<string>, f: string, n: string)
    requires UniqueNames(items) && NoNameClash(items)
    requires f in KindsOf(items)
    requires var d := DependencyGraph(ContextOf(items, registry));
             forall m :: Reaches(d, f, m) ==> !CrossingAt(d, m)
    requires Reaches(NodesOf(items, ItemNames(items)), f, n) && n in KindsOf(items)
    ensures Reaches(DependencyGraph(ContextOf(items, registry)), f, n)
  {
    var a := NodesOf(items, ItemNames(items));
    var d := DependencyGraph(ContextOf(items, registry));
    SameCallables(items, ItemNames(items));
    var p :| PathBetween(a, p, f, n);
    var k := 0;
    ReachesSelf(d, f);
    while k < |p| - 1
      invariant 0 <= k < |p|
      invariant p[k] in KindsOf(items) && Reaches(d, f, p[k])
    {
      assert Edge(a, p[k], p[k + 1]);
      if k + 1 < |p| - 1 {
        assert Edge(a, p[k + 1], p[k + 1 + 1]);
      }
      EdgeAgrees(items, registry, p[k], p[k + 1]);
      ReachesExtend(d, f, p[k], p[k + 1]);
      k := k + 1;
    }
  }

  /** The same on the two entry points: the woven functions are among the verified ones. */
  lemma WovenFunctionsAreVerified(items: seq<Item>, registry: set<string>, f: string, cl: Dependencies, n: string)
    requires UniqueNames(items) && NoNameClash(items)
    requires f in KindsOf(items) && IsClosureOf(DependencyGraph(ContextOf(items, registry)), [f], cl)
    requires var g := NodesOf(items, ItemNames(items)); Reaches(g, f, n) && n in g && g[n].isFn
    ensures n in cl.functions
  {
    var d := DependencyGraph(ContextOf(items, registry));
    SameCallables(items, ItemNames(items));
    forall m | Reaches(d, f, m)
      ensures ReachedFrom(d, [f], m)
    {
      assert f in [f];
    }
    WalkersAgree(items, registry, f, n);
  }

  // ---------- Where the preconditions matter ----------

  function PlainFn(name: string, body: Expr): Item {
    Fn(name, false, false, BoolLit(true), [], None, Some(Block([], Some(body))))
  }

  /**
  With a struct of the same name in front, the calls of `f` are never read: the closure misses an unresolved
  call.
   */
  lemma DuplicateNameHidesCalls()
    ensures var f := PlainFn("f", Call(Path(["missing"]), []));
            var c := ContextOf([Struct("f", None), f], {});
            && CallsInItem(f) == [Named("missing")] && Unfollowable(c, Named("missing"))
            && IsFnRoot(c, "f") && !CrossingAt(DependencyGraph(c), "f") && DependencyGraph(c)["f"].callees == []
  {
    var f := PlainFn("f", Call(Path(["missing"]), []));
    var items := [Struct("f", None), f];
    assert items[..1] == [Struct("f", None)] && items[..1][..0] == [];
    assert KindsOf(items[..1]) == map[];
    assert KindsOf(items) == map["f" := true];
    assert FindItem(items, "f") == Some(items[0]);
    assert CallsNamed(items, "f") == [];
    assert "missing" !in NativeBuiltins();
  }

  /** A method named like an in-file function is an edge of the assurance walker only. */
  lemma MethodNameIsOneSided()
    ensures var f := PlainFn("f", MethodCall(Path(["x"]), "g", []));
            var items := [f, PlainFn("g", IntLit(0))];
            && Edge(NodesOf(items, ItemNames(items)), "f", "g")
            && !Edge(DependencyGraph(ContextOf(items, {})), "f", "g")
  {
    var f, g := PlainFn("f", MethodCall(Path(["x"]), "g", [])), PlainFn("g", IntLit(0));
    var items := [f, g];
    assert items[..1] == [f] && items[..1][..0] == [];
    assert g in items && "g" in ItemNames(items);
    assert WalkBlock(f.fnBody.value, ItemNames(items)) == ["g"];
    UniqueNodes(items, ItemNames(items), f);
    assert FindItem(items, "f") == Some(items[0]);
    assert CallsInItem(f) == [];
  }
}
