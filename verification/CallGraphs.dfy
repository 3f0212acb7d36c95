/**
The intra-file call graph of forge/src/closure.rs and its two explicit-stack walks, proved against
the recursive depth-first preorder.
 */
module CallGraphs {
  import opened Ast

  datatype Node = Node(isCrossing: bool, isFn: bool, callees: seq<string>)

  /** Callees may dangle: a name that is not a key is an in-file name with no node. */
  type CallGraph = map<string, Node>

  datatype Scope = EndToEnd | ToBoundary(via: string)

  function Elems(s: seq<string>): set<string> {
    set x | x in s
  }

  lemma ElemsSnoc(s: seq<string>, x: string)
    ensures Elems(s + [x]) == Elems(s) + {x}
  {
  }

  // ---------- Reachability ----------

  ghost predicate Edge(g: CallGraph, a: string, b: string) {
    a in g && b in g[a].callees
  }

  ghost predicate IsPath(g: CallGraph, p: seq<string>) {
    |p| > 0 && forall i, j :: 0 <= i && j == i + 1 && j < |p| ==> Edge(g, p[i], p[j])
  }

  ghost predicate PathBetween(g: CallGraph, p: seq<string>, a: string, b: string) {
    IsPath(g, p) && p[0] == a && p[|p| - 1] == b
  }

  ghost predicate Reaches(g: CallGraph, a: string, b: string) {
    exists p :: PathBetween(g, p, a, b)
  }

  ghost predicate ReachedFrom(g: CallGraph, roots: seq<string>, b: string) {
    exists r :: r in roots && Reaches(g, r, b)
  }

  lemma ReachesSelf(g: CallGraph, a: string)
    ensures Reaches(g, a, a)
  {
    assert PathBetween(g, [a], a, a);
  }

  lemma ReachesStep(g: CallGraph, a: string, b: string, c: string)
    requires Edge(g, a, b) && Reaches(g, b, c)
    ensures Reaches(g, a, c)
  {
    var p :| PathBetween(g, p, b, c);
    assert PathBetween(g, [a] + p, a, c);
  }

  lemma ReachesExtend(g: CallGraph, a: string, b: string, c: string)
    requires Reaches(g, a, b) && Edge(g, b, c)
    ensures Reaches(g, a, c)
  {
    var p :| PathBetween(g, p, a, b);
    var q := p + [c];
    assert PathBetween(g, q, a, c);
  }

  /** A set that holds `a` and is closed under call edges holds everything `a` reaches. */
  lemma {:induction false} ClosedContainsReach(g: CallGraph, closed: set<string>, p: seq<string>, a: string, b: string)
    requires PathBetween(g, p, a, b) && a in closed
    requires forall x, y :: x in closed && Edge(g, x, y) ==> y in closed
    ensures b in closed
    decreases |p|
  {
    if |p| > 1 {
      assert Edge(g, p[0], p[1]);
      assert PathBetween(g, p[1..], p[1], b);
      ClosedContainsReach(g, closed, p[1..], p[1], b);
    }
  }

  // ---------- The recursive depth-first preorder ----------

  /** The reference search: enter `name` unless it was entered before, then its callees in source order. */
  function Visit(g: CallGraph, name: string, order: seq<string>): (r: seq<string>)
    ensures order <= r
    decreases |g.Keys - Elems(order)|, 0
  {
    if name in order then order
    else if name !in g then order + [name]
    else
      Shrinks(g, name, order);
      VisitAll(g, g[name].callees, order + [name])
  }

  function VisitAll(g: CallGraph, names: seq<string>, order: seq<string>): (r: seq<string>)
    ensures order <= r
    decreases |g.Keys - Elems(order)|, |names|
  {
    if names == [] then order
    else
      var order' := Visit(g, names[0], order);
      Monotone(g, order, order');
      VisitAll(g, names[1..], order')
  }

  lemma Monotone(g: CallGraph, order: seq<string>, order': seq<string>)
    requires order <= order'
    ensures |g.Keys - Elems(order')| <= |g.Keys - Elems(order)|
  {
    SubsetSize(g.Keys - Elems(order'), g.Keys - Elems(order));
  }

  lemma Shrinks(g: CallGraph, name: string, order: seq<string>)
    requires name in g && name !in order
    ensures |g.Keys - Elems(order + [name])| < |g.Keys - Elems(order)|
  {
    var big := g.Keys - Elems(order);
    assert g.Keys - Elems(order + [name]) == big - {name};
    assert name in big;
  }

  lemma {:induction false} SubsetSize(a: set<string>, b: set<string>)
    requires a <= b
    ensures |a| <= |b|
  {
    if a != {} {
      var x :| x in a;
      SubsetSize(a - {x}, b - {x});
    }
  }

  function Preorder(g: CallGraph, start: string): seq<string> {
    Visit(g, start, [])
  }

  predicate CrossingAt(g: CallGraph, n: string) {
    n in g && g[n].isCrossing
  }

  /** The first crossing of a visiting order. */
  function FirstCrossing(g: CallGraph, order: seq<string>): (r: Option<string>)
    ensures r.Some? ==> r.value in order && CrossingAt(g, r.value)
    ensures r.None? <==> forall n :: n in order ==> !CrossingAt(g, n)
  {
    if order == [] then None
    else if CrossingAt(g, order[0]) then Some(order[0])
    else FirstCrossing(g, order[1..])
  }

  /** A crossing-free prefix followed by a crossing settles the first crossing of the whole order. */
  lemma {:induction false} FirstCrossingPrefix(g: CallGraph, clean: seq<string>, n: string, full: seq<string>)
    requires FirstCrossing(g, clean).None? && CrossingAt(g, n)
    requires clean + [n] <= full
    ensures FirstCrossing(g, full) == Some(n)
  {
    if clean == [] {
      assert full[0] == n;
    } else {
      assert full[0] == clean[0];
      assert clean[1..] + [n] == (clean + [n])[1..] <= full[1..];
      FirstCrossingPrefix(g, clean[1..], n, full[1..]);
    }
  }

  // ---------- Algebra of the search ----------

  lemma {:induction false} VisitAllAppend(g: CallGraph, a: seq<string>, b: seq<string>, order: seq<string>)
    ensures VisitAll(g, a + b, order) == VisitAll(g, b, VisitAll(g, a, order))
    decreases |a|
  {
    if a == [] {
      assert a + b == b;
    } else {
      assert (a + b)[1..] == a[1..] + b;
      VisitAllAppend(g, a[1..], b, Visit(g, a[0], order));
    }
  }

  /** `names` without the members of `seen`. */
  function Unseen(names: seq<string>, seen: set<string>): (r: seq<string>)
    ensures forall n :: n in r <==> n in names && n !in seen
  {
    if names == [] then []
    else if names[0] in seen then Unseen(names[1..], seen)
    else [names[0]] + Unseen(names[1..], seen)
  }

  /** Dropping names that were visited before the push does not change what the search does. */
  lemma {:induction false} VisitAllUnseen(g: CallGraph, names: seq<string>, seen: set<string>, order: seq<string>)
    requires seen <= Elems(order)
    ensures VisitAll(g, Unseen(names, seen), order) == VisitAll(g, names, order)
    decreases |names|
  {
    if names != [] {
      var u := Unseen(names[1..], seen);
      if names[0] in seen {
        VisitAllUnseen(g, names[1..], seen, order);
      } else {
        assert ([names[0]] + u)[1..] == u;
        VisitAllUnseen(g, names[1..], seen, Visit(g, names[0], order));
      }
    }
  }

  ghost predicate NoDuplicates(s: seq<string>) {
    forall i, j :: 0 <= i < j < |s| ==> s[i] != s[j]
  }

  /** Every name entered since `order` has all its callees in `r`. */
  ghost predicate NewAreClosed(g: CallGraph, order: seq<string>, r: seq<string>) {
    forall x, y :: x in r && x !in order && Edge(g, x, y) ==> y in r
  }

  lemma {:induction false} VisitFacts(g: CallGraph, name: string, order: seq<string>)
    requires NoDuplicates(order)
    ensures var r := Visit(g, name, order);
            && NoDuplicates(r) && name in r && NewAreClosed(g, order, r)
            && forall n :: n in r && n !in order ==> Reaches(g, name, n)
    decreases |g.Keys - Elems(order)|, 0
  {
    if name in order {
    } else if name !in g {
      ReachesSelf(g, name);
    } else {
      var order' := order + [name];
      Shrinks(g, name, order);
      VisitAllFacts(g, g[name].callees, order');
      var r := VisitAll(g, g[name].callees, order');
      assert order'[|order|] == name && order' <= r;
      forall n | n in r && n !in order
        ensures Reaches(g, name, n)
      {
        if n == name {
          ReachesSelf(g, name);
        } else {
          ReachedThrough(g, name, n);
        }
      }
    }
  }

  lemma ReachedThrough(g: CallGraph, name: string, n: string)
    requires name in g && ReachedFrom(g, g[name].callees, n)
    ensures Reaches(g, name, n)
  {
    var c :| c in g[name].callees && Reaches(g, c, n);
    ReachesStep(g, name, c, n);
  }

  lemma {:induction false} VisitAllFacts(g: CallGraph, names: seq<string>, order: seq<string>)
    requires NoDuplicates(order)
    ensures var r := VisitAll(g, names, order);
            && NoDuplicates(r) && (forall n :: n in names ==> n in r) && NewAreClosed(g, order, r)
            && forall n :: n in r && n !in order ==> ReachedFrom(g, names, n)
    decreases |g.Keys - Elems(order)|, |names|
  {
    if names != [] {
      var mid := Visit(g, names[0], order);
      VisitFacts(g, names[0], order);
      Monotone(g, order, mid);
      VisitAllFacts(g, names[1..], mid);
      var r := VisitAll(g, names[1..], mid);
      forall n | n in r && n !in order
        ensures ReachedFrom(g, names, n)
      {
        if n in mid {
          assert names[0] in names && Reaches(g, names[0], n);
        } else {
          var c :| c in names[1..] && Reaches(g, c, n);
          assert c in names;
        }
      }
    }
  }

  /** The search from a list of roots enters exactly the names the roots reach, each once. */
  lemma SearchIsReachability(g: CallGraph, roots: seq<string>)
    ensures NoDuplicates(VisitAll(g, roots, []))
    ensures forall n :: n in VisitAll(g, roots, []) <==> ReachedFrom(g, roots, n)
  {
    VisitAllFacts(g, roots, []);
    var r := VisitAll(g, roots, []);
    forall n | ReachedFrom(g, roots, n)
      ensures n in r
    {
      var a :| a in roots && Reaches(g, a, n);
      var p :| PathBetween(g, p, a, n);
      ClosedContainsReach(g, Elems(r), p, a, n);
    }
  }

  lemma PreorderIsReachability(g: CallGraph, start: string)
    ensures NoDuplicates(Preorder(g, start))
    ensures forall n :: n in Preorder(g, start) <==> Reaches(g, start, n)
  {
    SearchIsReachability(g, [start]);
    assert Visit(g, start, []) == VisitAll(g, [start], []);
    forall n
      ensures ReachedFrom(g, [start], n) <==> Reaches(g, start, n)
    {
      if Reaches(g, start, n) {
        assert start in [start];
      }
    }
  }

  // ---------- The explicit-stack walks ----------

  /** The pending names of a stack, top first. */
  function Pending(stack: seq<string>): seq<string> {
    if stack == [] then [] else [stack[|stack| - 1]] + Pending(stack[..|stack| - 1])
  }

  lemma PendingSnoc(stack: seq<string>, x: string)
    ensures Pending(stack + [x]) == [x] + Pending(stack)
  {
    assert (stack + [x])[..|stack|] == stack;
  }

  lemma UnseenStep(names: seq<string>, i: nat, seen: set<string>, rest: seq<string>)
    requires i < |names|
    ensures Unseen(names[i..], seen) + rest
         == (if names[i] in seen then [] else [names[i]]) + (Unseen(names[i + 1..], seen) + rest)
  {
    var tail := Unseen(names[i + 1..], seen);
    assert names[i..][1..] == names[i + 1..];
    assert [names[i]] + tail + rest == [names[i]] + (tail + rest);
    assert [] + (tail + rest) == tail + rest;
  }

  /** Push the callees that were not visited, last first, so that they pop in source order. */
  method PushCallees(stack: seq<string>, callees: seq<string>, visited: set<string>) returns (pushed: seq<string>)
    ensures Pending(pushed) == Unseen(callees, visited) + Pending(stack)
  {
    pushed := stack;
    ghost var rest := Pending(stack);
    var i := |callees|;
    while i > 0
      invariant 0 <= i <= |callees|
      invariant Pending(pushed) == Unseen(callees[i..], visited) + rest
    {
      i := i - 1;
      UnseenStep(callees, i, visited, rest);
      if callees[i] !in visited {
        PendingSnoc(pushed, callees[i]);
        pushed := pushed + [callees[i]];
      }
    }
    assert callees[0..] == callees;
  }

  /** The search still to run: `stack` is pending after `order` was entered, and together they make up `full`. */
  ghost predicate Resumes(g: CallGraph, stack: seq<string>, order: seq<string>, full: seq<string>) {
    VisitAll(g, Pending(stack), order) == full
  }

  function Pop(stack: seq<string>): seq<string>
    requires stack != []
  {
    stack[..|stack| - 1]
  }

  function Top(stack: seq<string>): string
    requires stack != []
  {
    stack[|stack| - 1]
  }

  /** A pop of a name that was visited before, which the walk skips. */
  lemma PopSeen(g: CallGraph, stack: seq<string>, order: seq<string>, full: seq<string>)
    requires stack != [] && Resumes(g, stack, order, full) && Top(stack) in order
    ensures Resumes(g, Pop(stack), order, full)
  {
    var pending := Pending(stack);
    assert pending == [Top(stack)] + Pending(Pop(stack));
    assert pending[1..] == Pending(Pop(stack));
    assert VisitAll(g, pending, order) == VisitAll(g, pending[1..], Visit(g, pending[0], order));
  }

  /** A pop of a new name: all its callees, pushed last first, take its place. */
  lemma PopNew(g: CallGraph, stack: seq<string>, order: seq<string>, full: seq<string>)
    requires stack != [] && Resumes(g, stack, order, full) && Top(stack) !in order
    ensures var name, order' := Top(stack), order + [Top(stack)];
            && |g.Keys - Elems(order')| <= |g.Keys - Elems(order)|
            && order' <= full
            && (name !in g ==> Resumes(g, Pop(stack), order', full))
            && (name in g ==>
                  && |g.Keys - Elems(order')| < |g.Keys - Elems(order)|
                  && VisitAll(g, g[name].callees + Pending(Pop(stack)), order') == full)
  {
    var name, rest, order' := Top(stack), Pending(Pop(stack)), order + [Top(stack)];
    var pending := Pending(stack);
    assert pending == [name] + rest && pending[1..] == rest;
    assert VisitAll(g, pending, order) == VisitAll(g, rest, Visit(g, name, order));
    assert order' <= Visit(g, name, order) <= full;
    Monotone(g, order, order');
    if name in g {
      Shrinks(g, name, order);
      VisitAllAppend(g, g[name].callees, rest, order');
    }
  }

  /** The same when the callees visited so far are not pushed. */
  lemma PushUnseen(g: CallGraph, callees: seq<string>, rest: seq<string>, order: seq<string>)
    ensures VisitAll(g, Unseen(callees, Elems(order)) + rest, order) == VisitAll(g, callees + rest, order)
  {
    VisitAllUnseen(g, callees, Elems(order), order);
    VisitAllAppend(g, callees, rest, order);
    VisitAllAppend(g, Unseen(callees, Elems(order)), rest, order);
  }

  /** A pop of a new name by a walk that pushes only the callees it has not visited. */
  lemma PopWalk(g: CallGraph, stack: seq<string>, order: seq<string>, full: seq<string>)
    requires stack != [] && Resumes(g, stack, order, full) && Top(stack) !in order
    ensures var name, order' := Top(stack), order + [Top(stack)];
            && order' <= full && Elems(order') == Elems(order) + {name}
            && |g.Keys - Elems(order')| <= |g.Keys - Elems(order)|
            && (name !in g ==> Resumes(g, Pop(stack), order', full))
            && (name in g ==>
                  && |g.Keys - Elems(order')| < |g.Keys - Elems(order)|
                  && VisitAll(g, Unseen(g[name].callees, Elems(order')) + Pending(Pop(stack)), order') == full)
  {
    PopNew(g, stack, order, full);
    ElemsSnoc(order, Top(stack));
    if Top(stack) in g {
      PushUnseen(g, g[Top(stack)].callees, Pending(Pop(stack)), order + [Top(stack)]);
    }
  }

  /**
  The walk with an explicit stack and a visited set returns the first crossing of the recursive
  preorder, and so `None` exactly when no crossing is reachable.
   */
  method ReachCrossing(g: CallGraph, start: string) returns (r: Option<string>)
    ensures r == FirstCrossing(g, Preorder(g, start))
    ensures r.None? <==> forall n :: Reaches(g, start, n) ==> !CrossingAt(g, n)
  {
    r := WalkToCrossing(g, start);
    PreorderIsReachability(g, start);
  }

  method WalkToCrossing(g: CallGraph, start: string) returns (r: Option<string>)
    ensures r == FirstCrossing(g, Preorder(g, start))
  {
    var visited: set<string> := {};
    var stack := [start];
    ghost var order: seq<string>, full := [], Preorder(g, start);
    assert Pending(stack) == [start];
    assert Resumes(g, stack, order, full);
    while stack != []
      invariant visited == Elems(order)
      invariant Resumes(g, stack, order, full)
      invariant FirstCrossing(g, order).None?
      decreases |g.Keys - Elems(order)|, |stack|
    {
      var name := Top(stack);
      if name in visited {
        PopSeen(g, stack, order, full);
        stack := Pop(stack);
        continue;
      }
      PopWalk(g, stack, order, full);
      stack := Pop(stack);
      visited := visited + {name};
      if name in g && g[name].isCrossing {
        FirstCrossingPrefix(g, order, name, full);
        return Some(name);
      }
      order := order + [name];
      if name in g {
        stack := PushCallees(stack, g[name].callees, visited);
      }
    }
    r := None;
  }

  /** The `fn` nodes reachable from `start`, without `start`. */
  method ReachableFns(g: CallGraph, start: string) returns (result: set<string>)
    ensures forall n :: n in result <==> Reaches(g, start, n) && n != start && n in g && g[n].isFn
  {
    result := WalkFns(g, start);
    PreorderIsReachability(g, start);
  }

  method WalkFns(g: CallGraph, start: string) returns (result: set<string>)
    ensures result == FnNames(g, start, Preorder(g, start))
  {
    var visited: set<string> := {};
    result := {};
    var stack := [start];
    ghost var order: seq<string>, full := [], Preorder(g, start);
    assert Pending(stack) == [start];
    assert Resumes(g, stack, order, full);
    while stack != []
      invariant visited == Elems(order)
      invariant Resumes(g, stack, order, full)
      invariant result == FnNames(g, start, order)
      decreases |g.Keys - Elems(order)|, |stack|
    {
      var name := Top(stack);
      if name in visited {
        PopSeen(g, stack, order, full);
        stack := Pop(stack);
        continue;
      }
      PopWalk(g, stack, order, full);
      stack := Pop(stack);
      visited := visited + {name};
      FnNamesSnoc(g, start, order, name);
      order := order + [name];
      if name in g {
        if name != start && g[name].isFn {
          result := result + {name};
        }
        stack := PushCallees(stack, g[name].callees, visited);
      }
    }
  }

  ghost function FnNames(g: CallGraph, start: string, order: seq<string>): set<string> {
    set n | n in order && n != start && n in g && g[n].isFn
  }

  lemma FnNamesSnoc(g: CallGraph, start: string, order: seq<string>, n: string)
    ensures var before, after := FnNames(g, start, order), FnNames(g, start, order + [n]);
            && (n != start && n in g && g[n].isFn ==> after == before + {n})
            && (!(n != start && n in g && g[n].isFn) ==> after == before)
  {
  }

  // ---------- Classification ----------

  function ScopeOf(g: CallGraph, n: string): Scope {
    match FirstCrossing(g, Preorder(g, n))
    case Some(via) => ToBoundary(via)
    case None => EndToEnd
  }

  method Classify(g: CallGraph) returns (scopes: map<string, Scope>)
    ensures scopes.Keys == g.Keys
    ensures forall n :: n in g ==> scopes[n] == ScopeOf(g, n)
  {
    scopes := map[];
    var todo := g.Keys;
    while todo != {}
      invariant todo <= g.Keys
      invariant scopes.Keys == g.Keys - todo
      invariant forall n :: n in scopes ==> scopes[n] == ScopeOf(g, n)
      decreases todo
    {
      var name :| name in todo;
      var crossing := ReachCrossing(g, name);
      scopes := scopes[name := match crossing case Some(via) => ToBoundary(via) case None => EndToEnd];
      todo := todo - {name};
    }
  }

  /** The recorded `via` is a crossing the function reaches, and end-to-end means that none is reached. */
  lemma ScopeMeaning(g: CallGraph, n: string)
    ensures ScopeOf(g, n).ToBoundary? ==> Reaches(g, n, ScopeOf(g, n).via) && CrossingAt(g, ScopeOf(g, n).via)
    ensures ScopeOf(g, n).EndToEnd? <==> forall m :: Reaches(g, n, m) ==> !CrossingAt(g, m)
  {
    PreorderIsReachability(g, n);
  }

  /** A set of nodes without crossings that contains every node its members call. */
  ghost predicate PureAndCallClosed(g: CallGraph, s: set<string>) {
    && s <= g.Keys
    && (forall n :: n in s ==> !CrossingAt(g, n))
    && forall a, b :: a in s && Edge(g, a, b) && b in g ==> b in s
  }

  ghost function EndToEndNodes(g: CallGraph): set<string> {
    set n | n in g && ScopeOf(g, n).EndToEnd?
  }

  /** The end-to-end functions are the greatest crossing-free call-closed set of nodes. */
  lemma EndToEndIsGreatest(g: CallGraph, s: set<string>)
    ensures PureAndCallClosed(g, EndToEndNodes(g))
    ensures PureAndCallClosed(g, s) ==> s <= EndToEndNodes(g)
  {
    var e := EndToEndNodes(g);
    forall n | n in e
      ensures !CrossingAt(g, n)
    {
      ScopeMeaning(g, n);
      ReachesSelf(g, n);
    }
    forall a, b | a in e && Edge(g, a, b) && b in g
      ensures b in e
    {
      ScopeMeaning(g, a);
      ScopeMeaning(g, b);
      forall m | Reaches(g, b, m)
        ensures !CrossingAt(g, m)
      {
        ReachesStep(g, a, b, m);
      }
    }
    if PureAndCallClosed(g, s) {
      forall n | n in s
        ensures n in e
      {
        ScopeMeaning(g, n);
        forall m | Reaches(g, n, m)
          ensures !CrossingAt(g, m)
        {
          var p :| PathBetween(g, p, n, m);
          var dangling := set a, c | a in g && c in g[a].callees && c !in g :: c;
          ClosedContainsReach(g, s + dangling, p, n, m);
        }
      }
    }
  }

  /** `h` has every node and call of `g`, possibly more calls and more crossings. */
  ghost predicate Weakens(g: CallGraph, h: CallGraph) {
    && (forall a, b :: Edge(g, a, b) ==> Edge(h, a, b))
    && (forall n :: CrossingAt(g, n) ==> CrossingAt(h, n))
  }

  /** Adding a call or marking a crossing never turns to-the-boundary into end-to-end. */
  lemma WeakeningKeepsToBoundary(g: CallGraph, h: CallGraph, n: string)
    requires Weakens(g, h) && ScopeOf(g, n).ToBoundary?
    ensures ScopeOf(h, n).ToBoundary?
  {
    ScopeMeaning(g, n);
    ScopeMeaning(h, n);
    var via := ScopeOf(g, n).via;
    var p :| PathBetween(g, p, n, via);
    assert PathBetween(h, p, n, via);
  }
}
