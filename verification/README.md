# Forge, modelled and verified

Forge drives Verus, Z3 and rustc over Thermite programs. Most of it starts processes; five parts decide
something themselves, with loops, state and arithmetic. This project models those parts in Dafny and proves
what their users rely on.

* **Call closures** (`CallGraphs`, `Occurrences`, `Collectors`, `Closures`). Forge builds a call graph from a program with
  one syntax walker and classifies every function as end-to-end or to-the-boundary by a depth-first search
  with an explicit stack. A second, independently written walker feeds a fail-closed dependency closure with
  error paths. Both walkers are measured against an occurrence relation on the syntax that knows neither. The searches are methods over a mutable stack and visited set, proved against a recursive
  depth-first preorder; reachability, fixpoints and the agreement of the two walkers are lemmas about that.
* **Covenant evaluator** (`Covenant`, `CovenantScope`, `CovenantLeaks`, `CovenantReturns`, `CovenantTypes`,
  `CovenantBounds`, `CovenantOperators`).
  Bodies are evaluated on `i128`. What an out-of-range result does depends on the build, so evaluation takes a
  mode: exact integers, a checked build that aborts, a release build that wraps. The evaluator threads one
  environment through nested branches and keeps a `return` inside an expression to that expression; it is
  compared with a lexically scoped semantics, with one in which `return` leaves the whole body, with a type
  system and with a magnitude bound.
* **Bit-vector route** (`Smt`, `BitVector`, `NoWrap`, `Discharge`, `Text`, `BvModel`, `ModelText`). The same
  expressions are lowered to SMT-LIB terms (theory FixedSizeBitVectors, logic QF_BV), with a separate
  no-overflow query. The solver is a parameter. The lowering is compared with the evaluator, proved verdicts
  are transferred to the unbounded integers, and printed models (sections 3.1 and 4.2.6 of the SMT-LIB
  Standard 2.6) are parsed back.
* **Proof cache** (`CacheKey`, `CacheFiles`, `CacheProtocol`, `CacheRuns`, `Accessibility`). Keys are hashes of
  length-prefixed field streams. Entries are written to a temporary file and renamed into place while other
  processes load, store, delete and crash; the cache is a state machine over those steps. The accessibility
  cache is a client of it, called in sequence.
* **Text engines** (`Splices`, `Regions`, `RegionSets`, `Newlines`, `Views`, `Registry`, `RegionText`, `Battery`). A writer
  replaces generated regions between marker lines, and a checker must accept what it wrote. A scanner strips
  comments and finds whole words in proof texts.

`Ast` holds the syntax trees and `Bits` the arithmetic of powers of two, residues and two's-complement
operations. `dafny verify dfyconfig.toml` checks the whole project.

## Findings

Where the code departs from what its documentation or its name suggests, the model follows the code; a lemma
shows an input and another one the exact condition. For the lowering the conditions add up: `NoWrap.ExactIff` says
of every renderable term when all of it is exact.

| departure | shown by | holds exactly when |
|---|---|---|
| A literal of 2^N or more is reduced modulo 2^N, so a false clause can be proved (`forge/src/bitvector.rs:229`). | `Discharge.LiteralEscapesWidth` | `NoWrap.LiteralExactIff`: the literal is below 2^N |
| The no-overflow query has no test for `<<`, whose result can leave the width (`forge/src/bitvector.rs:722-724`). | `Discharge.ShiftEscapesNowrap` | `NoWrap.OperatorExactIff`: the shift is by less than 128 and the exact result fits; over all values `NoWrap.ShiftAlwaysExactIff`: the shift is by 0 |
| A quotient by 0 is all ones at width N and a trap in the evaluator, and no query asks about the divisor (`forge/src/bitvector.rs:236`, `forge/src/covenant_eval.rs:285-298`). | `Discharge.DivisionEscapes` | `NoWrap.OperatorExactIff`: the divisor is not 0 |
| Prefix `!` is complement at width N and `-n - 1` in the evaluator (`forge/src/bitvector.rs:253-256`, `forge/src/covenant_eval.rs:218-221`). | `NoWrap.ComplementNeverExact` | never on an exact operand |
| `as` casts are erased by the lowering (`forge/src/bitvector.rs:257`). | `BitVector.CastErasureIff` | the cast's type keeps all N bits; at one value `NoWrap.CastExactIff`: or it holds the value |
| The scan for a 64-bit multiplier, which selects the tight budget, stops at a cast, which the lowering erases (`forge/src/bitvector.rs:187-200`). | `Discharge.CastHidesMultiplier` | `Discharge.ScanMeans`: the scan of the clause with its casts erased answers the same |
| The product of two `u64` values can leave `i128` (`forge/src/covenant_eval.rs:284`). | `CovenantBounds.ProductOverflows` | the product is below 2^127 |
| A `let` in a branch of a statement-`if` stays bound after the branch (`forge/src/covenant_eval.rs:448-454`). | `CovenantScope.BranchBindingLeaks` | `CovenantLeaks.UnboundLeakIff`: the branch that runs has no `let` of a name that was not bound; for any names `CovenantLeaks.LeakIff`: it ends with each name a continuation can see as it was before its own first `let` of it |
| A `return` inside an expression-`if` gives that `if` its value and the body goes on (`forge/src/covenant_eval.rs:225-230`, `forge/src/covenant_eval.rs:368-371`). | `CovenantScope.ReturnStaysInside` | `CovenantReturns.SafeIffNoReturnTaken`: no such `return` is taken |
| Calls are read off the first item of a name, kinds off the last (`forge/src/closure.rs:411`). | `Closures.DuplicateNameHidesCalls` | `Closures.DuplicatesJudgedIff`: both items make a call no registry explains, or neither does and they call the same unknown names |
| A method named like an in-file function is an edge of one walker only (`forge/src/closure.rs:735`, `forge/src/closure.rs:575-580`). | `Closures.MethodNameIsOneSided` | `Closures.MethodEdgesIff`: the item also calls it by its plain name |
| A start marker without an end marker is never repaired (`tooling/req-registry.py:1124-1127`). | `Regions.OrphanStaysStale` | `Registry.OneViewIff` |
| Files are read with universal newlines and written as they are: a carriage return in a rendered block is reported stale after every write (`tooling/req-registry.py:1067`, `tooling/req-registry.py:1112-1131`). | `Registry.CarriageReturnIsStale` | `Registry.OneViewIff`, `Registry.WholeFileIff`: nothing written holds one |
| The same reading loses carriage returns outside the regions (`tooling/req-registry.py:1116`, `tooling/req-registry.py:1131`). | `Registry.CarriageReturnIsLost` | `Registry.OutsideIsKeptIff`: there are none outside the regions |
| The accessibility entry is kept per relation and carrier, and the verdict is asked per item (`forge/src/accessibility.rs:93`, `forge/src/accessibility.rs:118`). | `Accessibility.FirstItemDecides` | `Accessibility.PassIsRightIff`: items with one pair have one verdict |
| A hit is called indistinguishable from a fresh run (`forge/src/cache.rs:9-12`), but it carries the solver time of the run that stored it; `forge/src/manifest.rs:14-15` sets that field apart for one comparison only. | `CacheRuns.StoredTimeIsServed` | `CacheRuns.HitTimeIff`: the fresh run takes the stored time |

## Model

| member | source | states |
|---|---|---|
| `CallGraphs.ReachCrossing` | forge/src/closure.rs:224-251 | on every graph the stack walk returns the first crossing of the recursive source-order preorder, and nothing exactly when no crossing is reachable |
| `CallGraphs.ReachableFns` | forge/src/closure.rs:189-213 | exactly the `fn` nodes reachable from the start, without the start |
| `CallGraphs.SearchIsReachability` | forge/src/closure.rs:224-251 | the recursive search enters exactly the names its roots reach, each once |
| `CallGraphs.Classify` | forge/src/closure.rs:267-278 | every node gets the scope of its first reachable crossing |
| `CallGraphs.ScopeMeaning` | forge/src/closure.rs:267-278 | the recorded crossing is reachable and a crossing; end-to-end means no crossing is reachable |
| `CallGraphs.EndToEndIsGreatest` | forge/src/closure.rs:267-278 | the end-to-end nodes are the greatest crossing-free call-closed set |
| `CallGraphs.WeakeningKeepsToBoundary` | forge/src/closure.rs:267-278 | adding a call or marking a crossing never turns to-the-boundary into end-to-end |
| `Closures.FromProgram` | forge/src/closure.rs:120-173 | a name is a node exactly when it is callable, the last item winning; it is a crossing exactly when that item is a `fn` marked boundary or slag; its callees are exactly the names in the file that its body calls, plainly, through a path or as a method |
| `Closures.ClassifyProgram` | forge/src/closure.rs:267-278 | every callable name gets the scope of its first reachable crossing in that graph |
| `Closures.ReachableInFileFns` | forge/src/closure.rs:298-300 | exactly the `fn` nodes that the assurance graph reaches |
| `Closures.SortedUniqueFacts` | forge/src/closure.rs:351-442 | the sorted, deduplicated roots are strictly ascending and are the exports |
| `Closures.LessMeans` | forge/src/closure.rs:351-442 | the order sorts a proper prefix first and otherwise decides at the first difference |
| `Closures.VerifiedClosure` | forge/src/closure.rs:351-442 | the graph is that of the calls that occur in contracts, measures and bodies; the closure succeeds exactly when the exports are functions and no unknown call occurs in the first item of a reachable name (in a reachable item, if first and recorded items have the same faults, as with unique names); the node sets and edges are the reachable items and their call relation; a root error names the first bad export, a call error a call chain to the first offending item and an unknown call that occurs there |
| `Closures.UniqueNamesFollowed` | forge/src/closure.rs:351-442 | with unique names that condition speaks of every reachable `fn` and `spec fn` of the program and all calls that occur in it |
| `Closures.DuplicatesJudgedIff` | forge/src/closure.rs:411 | with duplicate names a name is judged as the recorded item deserves, under every registry, exactly when the first item of the name has the same faults: a call no registry explains in both, or in neither and the same unknown names |
| `Closures.ClosureIsLeast` | forge/src/closure.rs:351-442 | the closure's items are the least call-closed set that holds the roots |
| `Closures.WovenFunctionsAreVerified` | forge/src/closure.rs:298-442 | every function woven for `f` is in the verified closure of `f`, if names are unique and no method name or native root hides a callable one |
| `Closures.MethodEdgesIff` | forge/src/closure.rs:484-638 | every callable callee of an accepted item in the assurance graph is one in the dependency graph exactly when its callable method names are also called by their plain names |
| `Closures.DuplicateNameHidesCalls` | forge/src/closure.rs:411 | a struct of the same name in front hides an unresolved call |
| `Closures.MethodNameIsOneSided` | forge/src/closure.rs:735 | a method named like an in-file function is an edge of the assurance graph only |
| `Collectors.ItemCalls` | forge/src/closure.rs:484-638 | a call is collected of an item exactly when such a call, plain, qualified or of something that is no path, occurs in its contract, measure, invariant or body |
| `Collectors.CallsAreInOrder` | forge/src/closure.rs:552-638 | the fail-closed walker lists the calls that occur, in source order |
| `Collectors.BlockNames` | forge/src/closure.rs:645-820 | a name is recorded of a body exactly when it is in the file and a call of a path that starts with it, or a method call of that name, occurs |
| `Collectors.WalkIsInOrder` | forge/src/closure.rs:711-820 | the assurance walker lists them in source order |
| `Collectors.BlockAgrees` | forge/src/closure.rs:552-820 | every callee the assurance walker records is one that the fail-closed walker recorded, or a method name |
| `Collectors.BlockRecords` | forge/src/closure.rs:711-820 | the assurance walker records every method name that is in the file |
| `Covenant.RunStmts` | forge/src/covenant_eval.rs:384-472 | the statement loop, one environment and one set of mutable names threaded, computes the recursive semantics |
| `CovenantOperators.EqualityMeans` | forge/src/covenant_eval.rs:330-342 | `==` and `!=` compare two integers or two truth values; two kinds are ill-typed |
| `CovenantOperators.AndMeans` | forge/src/covenant_eval.rs:253-266 | `&&` evaluates its right operand only after `true`, and takes truth values |
| `CovenantOperators.OrMeans` | forge/src/covenant_eval.rs:253-266 | the disjunction evaluates its right operand only after `false`, and takes truth values |
| `CovenantOperators.ArithmeticMeans` | forge/src/covenant_eval.rs:282-284 | `+ - *` are exact, checked against the signed 128-bit range, or reduced to it modulo 2^128 |
| `CovenantOperators.DivisionMeans` | forge/src/covenant_eval.rs:285-298 | quotient and remainder toward zero on operands of either sign, a trap at 0, an abort at the one overflow |
| `CovenantOperators.TowardZeroIsUnique` | forge/src/covenant_eval.rs:285-298 | these conditions determine quotient and remainder |
| `CovenantOperators.ShiftsMean` | forge/src/covenant_eval.rs:299-310 | shifts by 0 to 127, to the left as wrapping multiplication, to the right rounding down; others trap |
| `CovenantOperators.BitwiseMeans` | forge/src/covenant_eval.rs:311-313 | every bit of a bitwise and, or and xor is decided by the two bits at its place; and + or = a + b, or = xor + and |
| `CovenantOperators.ComparisonsMean` | forge/src/covenant_eval.rs:314-317 | the four comparisons order integers of either sign |
| `CovenantOperators.IntsOnly` | forge/src/covenant_eval.rs:280 | every other operator is ill-typed on a truth value |
| `CovenantOperators.NotMeans` | forge/src/covenant_eval.rs:208-223 | prefix `!` negates truth values and complements integers |
| `CovenantOperators.CastsMean` | forge/src/covenant_eval.rs:231-245 | a cast gives the value modulo 2^8, 2^16, 2^32 or 2^64; `bool` is no target and no operand |
| `CovenantScope.ThreadingIsLexical` | forge/src/covenant_eval.rs:361-472 | when no name bound in a branch is live after it, the threaded result is the lexically scoped one, value or error |
| `CovenantScope.ImmutableIsKept` | forge/src/covenant_eval.rs:384-472 | a parameter or non-`mut` binding keeps its value unless a `let` binds its name |
| `CovenantLeaks.LeakIff` | forge/src/covenant_eval.rs:448-454 | the branch that runs is right in front of every continuation that sees only given names exactly when it ends with each of them, value and mutability, as before its own first `let` of it |
| `CovenantLeaks.UnboundLeakIff` | forge/src/covenant_eval.rs:448-454 | a name unbound in front of the branch reads the same after it under both semantics exactly when the branch that runs has no `let` of it |
| `CovenantScope.BranchBindingLeaks` | forge/src/covenant_eval.rs:448-454 | a branch binding is visible after the branch, where lexically the name is unbound |
| `CovenantScope.ReturnStaysInside` | forge/src/covenant_eval.rs:361-378 | a `return` in an expression-`if` does not leave the body |
| `CovenantReturns.GuardedBodiesAgree` | forge/src/covenant_eval.rs:361-472 | a body without `return` in expression position evaluates as if every `return` left the whole body |
| `CovenantReturns.UntakenReturnsAgree` | forge/src/covenant_eval.rs:361-472 | the same for every run that takes no such `return` |
| `CovenantReturns.SafeIffNoReturnTaken` | forge/src/covenant_eval.rs:225-230 | an expression gives the right result in every body that binds it exactly when its evaluation takes no such `return` |
| `CovenantTypes.TypeSoundness` | forge/src/covenant_eval.rs:194-472 | a well-typed body gives a value of its type, traps, or aborts on overflow; it is never ill-typed, unbound or unsupported |
| `CovenantTypes.RebindingBreaksType` | forge/src/covenant_eval.rs:448-454 | a branch that rebinds a name at another type makes a later use ill-typed |
| `CovenantTypes.FreshBranchChecks` | forge/src/covenant_eval.rs:448-454 | a branch that binds only new names meets what the type rules ask of branches |
| `CovenantBounds.BodyIsExact` | forge/src/covenant_eval.rs:361-472 | with every magnitude bound of a body below 2^127, through bindings, assignments, branches and early returns, every build computes the exact result, within the bound |
| `CovenantBounds.BoundedIsExact` | forge/src/covenant_eval.rs:194-328 | the same for an expression, expression-`if`s with any blocks included |
| `CovenantBounds.SumsAreBounded` | forge/src/covenant_eval.rs:281-283 | sums and differences of at most 2^63 leaves below 2^64 are in range |
| `CovenantBounds.ProductOverflows` | forge/src/covenant_eval.rs:284 | a product of two 64-bit values aborts a checked build exactly when it reaches 2^127 |
| `BitVector.RingTermLowers` | forge/src/bitvector.rs:227-264 | the machine value of a rendered term of `+ - *`, bitwise operators, `!` and `<<` by a literal is the evaluator's value modulo 2^N |
| `BitVector.CastGivesMachineValue` | forge/src/covenant_eval.rs:231-245 | casting the evaluated term to the tag's type gives that machine value |
| `BitVector.CastErasureIff` | forge/src/bitvector.rs:257 | a cast may be erased exactly when its type keeps all N bits |
| `NoWrap.TestMeaning` | forge/src/bitvector.rs:716-741 | an overflow test, the doubled-width product test included, is true exactly when the exact result leaves [0, 2^N) |
| `NoWrap.OverflowIff` | forge/src/bitvector.rs:686-741 | the collected disjunction of a term is true exactly when some subterm's exact value leaves the width; when false, machine and evaluator agree on every subterm in every build |
| `NoWrap.ClauseOverflowIff` | forge/src/bitvector.rs:686-741 | the same for a whole clause |
| `NoWrap.LiteralExactIff` | forge/src/bitvector.rs:229 | a literal keeps its value exactly when it is below 2^N |
| `NoWrap.OperatorExactIff` | forge/src/bitvector.rs:227-264 | `/ % << >>` on exact operands, whatever terms they are, keep their value exactly when the divisor is not 0, or the shift is by less than 128 and, to the left, its result fits |
| `NoWrap.CastExactIff` | forge/src/bitvector.rs:257 | an erased cast of an exact term keeps its value exactly when its type has N bits or holds the value |
| `NoWrap.ShiftAlwaysExactIff` | forge/src/bitvector.rs:227-264 | over all N-bit values only the shift by 0 does |
| `NoWrap.ComplementNeverExact` | forge/src/bitvector.rs:253-256 | the complement of an exact term never is exact |
| `NoWrap.ExactIff` | forge/src/bitvector.rs:227-264 | of every renderable term: the machine computes every subterm's exact value exactly when no overflow test is true and every untested part meets the conditions above |
| `NoWrap.OverflowsMeans` | forge/src/bitvector.rs:686-741 | of every renderable expression: the collected disjunction is true exactly when some `+`, `-` or `*` in it wraps on its machine operands |
| `Discharge.DischargeBv` | forge/src/bitvector.rs:379-419 | the verdict of the validity query: proved, a pattern per variable, a timeout under the named profile, or a skip; a clause or precondition that does not render is always a skip |
| `Discharge.DischargeNowrap` | forge/src/bitvector.rs:478-557 | the verdict of the overflow query, proved without one when nothing can overflow; a precondition that does not render is a skip otherwise |
| `Discharge.BvCounterexampleIsReal` | forge/src/bitvector.rs:379-419 | a reported counterexample meets the precondition, which renders, and falsifies the clause at the width |
| `Discharge.NowrapCounterexampleMeetsReq` | forge/src/bitvector.rs:478-557 | a reported overflow witness meets the precondition, which renders, and makes a collected condition true |
| `Discharge.ScanMeans` | forge/src/bitvector.rs:187-213 | of every renderable expression: the multiplier scan over the expression with casts erased finds exactly the products of two terms that hold variables |
| `Discharge.CastHidesMultiplier` | forge/src/bitvector.rs:187-200 | the scan itself misses a product under a cast |
| `Discharge.Transfer` | forge/src/bitvector.rs:379-557 | when both routes return proved, the clause is true over the unbounded integers and in every build at every admissible assignment |
| `Discharge.SafeTransfer` | forge/src/bitvector.rs:379-557 | the same for every clause that renders, at every admissible assignment where its evaluated untested parts are safe |
| `Discharge.BothProvedIff` | forge/src/bitvector.rs:379-557 | with a deciding solver both routes prove a clause exactly when at every admissible assignment all its terms fit the width and it is true |
| `Discharge.MachineProvedIff` | forge/src/bitvector.rs:379-557 | of every clause that renders: both routes prove it exactly when at every admissible assignment it is true at the width and no `+`, `-` or `*` wraps |
| `Discharge.NowrapCounterexampleIsReal` | forge/src/bitvector.rs:478-557 | the reported overflow witness meets the precondition and drives some term out of the width |
| `Discharge.CounterexampleSatisfies` | forge/src/bitvector.rs:379-419 | the reported bit patterns are a satisfying assignment of the query |
| `Discharge.ShiftEscapesNowrap` | forge/src/bitvector.rs:722-724 | both routes prove a clause with `<<` that is false over the integers |
| `Discharge.LiteralEscapesWidth` | forge/src/bitvector.rs:229 | both routes prove a clause with a literal of 2^N that is false everywhere |
| `Discharge.DivisionEscapes` | forge/src/bitvector.rs:236 | both routes prove a clause with a division that traps when the divisor is 0 |
| `BvModel.CollectDefineFuns` | forge/src/bitvector.rs:803-828 | the scanning loop computes the recursive collection of bindings |
| `BvModel.MatchingParen` | forge/src/bitvector.rs:870-884 | the counting loop finds the parenthesis that brings the depth back to zero |
| `BvModel.RenderBits` | forge/src/bitvector.rs:888-895 | the loop from the top bit down yields the binary digits |
| `BvModel.ParseBvModel` | forge/src/bitvector.rs:783-797 | one pattern per variable, zero for an omitted one |
| `BvModel.FromRadixIff` | forge/src/bitvector.rs:849-868 | a number is read exactly when the text, without a leading `+`, spells it in digits of the radix, in either case, and it has 128 bits |
| `ModelText.RenderedBitsValue` | forge/src/bitvector.rs:888-895 | exactly N digits, whose binary value is the input |
| `ModelText.ModelRoundTrip` | forge/src/bitvector.rs:783-884 | printing bindings in hexadecimal, binary or indexed form and parsing them gives each variable its value back, the last binding of a name winning |
| `CacheKey.CacheKey` | forge/src/cache.rs:153-202 | the hasher, fed field by field, gives the hash of the field stream in lower-case hexadecimal |
| `CacheKey.HexMeans` | forge/src/cache.rs:191-202 | two lower-case digits a byte, the high half first |
| `CacheKey.FieldPrefixFree` | forge/src/cache.rs:184-189 | one encoded field is a prefix of another exactly when tag and value are the same |
| `CacheKey.ProofStreamInjective` | forge/src/cache.rs:153-189 | the byte stream determines source, seed, versions and check schema, for lengths below 2^64 |
| `CacheKey.AccessibilityStreamInjective` | forge/src/cache.rs:380-391 | the same for relation, carrier and check schema |
| `CacheKey.StreamsDisjoint` | forge/src/cache.rs:380-391 | no proof stream is an accessibility stream |
| `CacheKey.KeysSeparate` | forge/src/cache.rs:153-202 | with a collision-free hash keys are equal exactly when the inputs are |
| `CacheKey.KeySpacesDisjoint` | forge/src/cache.rs:380-391 | with such a hash no proof key is an accessibility key |
| `CacheFiles.FileNamesInjective` | forge/src/cache.rs:206-305 | no temporary file is an entry and no two stores share a temporary file |
| `CacheFiles.EntriesSeparate` | forge/src/cache.rs:206-398 | two entries are one file exactly when they are about the same subject |
| `CacheProtocol.StepKeeps` | forge/src/cache.rs:219-305 | every step of every task, crash and deletion keeps the invariant: published files are whole and never written again, writers own their files |
| `CacheProtocol.EveryHitIsFresh` | forge/src/cache.rs:219-305 | in every interleaving every hit is a fresh run's record apart from the `cached` flag |
| `CacheProtocol.NoTornRead` | forge/src/cache.rs:219-305 | a load that reaches the end of its file has read one whole stored record of its subject |
| `CacheProtocol.CompleteLoadHitsIff` | forge/src/cache.rs:219-261 | such a load misses exactly when the verdict is of an item that is not rejected and has a failed obligation |
| `CacheProtocol.PublishedIsForever` | forge/src/cache.rs:276-305 | no later step changes a published file's text |
| `CacheRuns.StoreIsKept` | forge/src/cache.rs:276-305 | a store that reaches its rename, in any reachable state, has its record in place through every later run that does not delete or replace that entry |
| `CacheRuns.LoadAnswersEntry` | forge/src/cache.rs:219-243 | a load that ends answers with the text its entry had when opened, under any steps of other tasks, deletion and replacement of the entry included |
| `CacheRuns.ServedIsStored` | forge/src/cache.rs:219-305 | what one task renames into place a later load serves, with the time of the storing run, under any interleaving that leaves the entry alone until the load opens it |
| `CacheRuns.HitTimeIff` | forge/src/cache.rs:9-12 | a hit with its flag cleared is the record of a fresh run exactly when that run takes the stored time |
| `CacheRuns.StoredTimeIsServed` | forge/src/cache.rs:9-12 | from every reachable state a store and a load can run whose hit is no fresh run's record of another duration |
| `CacheProtocol.StorePublishes` | forge/src/cache.rs:276-292 | a store can always run to its end, and alone it leaves its record in place |
| `CacheProtocol.LoadAnswers` | forge/src/cache.rs:219-243 | a load can always run to its end over an entry, and alone it answers with the parse of it |
| `Accessibility.Cache.Discharge` | forge/src/accessibility.rs:87-103 | serves a hit, otherwise derives and stores; what is returned, whether it derived and the new files |
| `Accessibility.Cache.CacheAll` | forge/src/accessibility.rs:110-121 | the loop over the items is the run of their discharges |
| `Accessibility.EveryVerdictIsDerived` | forge/src/accessibility.rs:87-103 | over every run, failing loads and stores included, every returned verdict is what deriving gives, if that depends only on the pair |
| `Accessibility.NeverDerivedTwice` | forge/src/accessibility.rs:87-103 | after a successful store a pair is not derived again while its entry can be read |
| `Accessibility.PassIsRightIff` | forge/src/accessibility.rs:110-121 | after the pass over an empty cache every item's answer is right exactly when items with one pair have one verdict |
| `Regions.WrittenIsCleanIff` | tooling/req-registry.py:1041-1131 | in the text read, the written region is up to date exactly when its block ends once and no start marker was without an end |
| `RegionSets.PutKeeps` | tooling/req-registry.py:1106-1131 | writing one region keeps markers paired, brings it up to date and leaves the other regions so |
| `Newlines.ReadIsIdentityIff` | tooling/req-registry.py:1116 | reading changes exactly the files that hold a carriage return |
| `Registry.Tree.WriteGenerated` | tooling/req-registry.py:1106-1131 | the writing loop over the views computes the specified tree of files |
| `RegionText.WrittenRegion` | tooling/req-registry.py:1007-1131 | after a write the file of a view holds its two marker lines with the lines of its text between them, each behind the comment prefix; taking the prefix off gives the text back |
| `RegionText.WrittenPlainRegion` | tooling/req-registry.py:1007-1131 | without a comment prefix it holds the text itself between them |
| `RegionText.NewFile` | tooling/req-registry.py:1056-1119 | a file that did not exist holds the block, after a heading if there is no prefix, and nothing else |
| `Registry.Tree.ValidateGenerated` | tooling/req-registry.py:1062-1103 | the checking loop lists the issues of the views in order |
| `Registry.PlainViewsAreReady` | tooling/req-registry.py:910-1015 | views with distinct plain names, one prefix a file and marker-free bodies meet what the next rows ask for |
| `Views.StartsDiffer` | tooling/req-registry.py:918-923 | start lines of different plain names do not contain each other |
| `Registry.WriteThenValidate` | tooling/req-registry.py:1062-1131 | writing any list of such views leaves the checker nothing to report |
| `Registry.SecondWriteIsIdle` | tooling/req-registry.py:1106-1131 | a second write changes no byte of any file |
| `Registry.OtherFilesUntouched` | tooling/req-registry.py:1106-1131 | a write changes no file that no view is generated into |
| `Registry.OutsideIsKeptIff` | tooling/req-registry.py:1106-1131 | the text outside the regions is kept, up to newlines before appended blocks, exactly when it holds no carriage return |
| `Registry.ReadTextIsKept` | tooling/req-registry.py:1106-1131 | the outside text as read is always kept, and exactly if every region was present |
| `Registry.OneViewIff` | tooling/req-registry.py:1041-1131 | one region in any existing file is accepted after a write exactly when its block has no carriage return and ends once, and no start marker was without an end |
| `Registry.WholeFileIff` | tooling/req-registry.py:1062-1113 | a whole-file view is accepted after a write exactly when its text has no carriage return |
| `Registry.CarriageReturnIsStale` | tooling/req-registry.py:1062-1131 | a view whose text holds a lone carriage return is reported in every file |
| `Registry.CarriageReturnIsLost` | tooling/req-registry.py:1106-1131 | a carriage return before an up-to-date region is lost |
| `Battery.StripComments` | forge/src/battery.rs:231-257 | the index loops compute the recursive stripping |
| `Battery.StrippedIsCommentFree` | forge/src/battery.rs:231-257 | stripped text opens no comment |
| `Battery.FixedIffCommentFree` | forge/src/battery.rs:231-257 | stripping leaves exactly the comment-free texts alone |
| `Battery.StripIsIdempotent` | forge/src/battery.rs:231-257 | stripping twice is stripping once |
| `Battery.LineCommentGoes` | forge/src/battery.rs:246-251 | the first comment, a line comment, goes; what precedes it and its newline stay |
| `Battery.BlockCommentGoes` | forge/src/battery.rs:236-244 | the first comment, a block comment, becomes one space |
| `Battery.UnclosedCommentGoes` | forge/src/battery.rs:236-244 | a block comment that is never closed takes the rest |
| `Battery.FindWord` | forge/src/battery.rs:471-483 | the least whole-word occurrence of an identifier, although the search skips a word's length |
| `Battery.FindBy` | forge/src/battery.rs:367-383 | the position past the last whole word `by` |
| `Battery.PositionsAreAll` | forge/src/battery.rs:450-467 | the walk visits exactly the whole words, in ascending order |
| `Battery.SimpLemmaCitations` | forge/src/battery.rs:450-467 | cutting the text after each `simp` gives the lists of all whole-word `simp`s, in order |
| `Battery.AnchorsAscend` | forge/src/battery.rs:450-467 | no bracket list is read for two `simp`s |
| `Battery.AnchorIsOwn` | forge/src/battery.rs:450-467 | a `simp` is given a bracket exactly when it is the first one after it and no whole-word `simp` starts before that |
| `Battery.WholeWordMeans` | forge/src/battery.rs:261-263 | a whole word has no alphanumeric character, underscore or prime on either side |

## Left out

- ThreadingIsLexical: sufficient for a whole body; the exact condition is stated for one branch at a time, in front of every continuation (`CovenantLeaks.LeakIff`).
- LeakIff: the code in front of the branch, and the branches nested in it, are taken to be scoped, so that one branch is judged at a time.
- MethodEdgesIff: the converse inclusion is not stated, since calls in contracts and measures are edges of the dependency graph alone.
- TypeSoundness: the overflow abort of a checked build is an allowed result beside the value and the trap.
- WovenFunctionsAreVerified: unique names are required, since the two graphs take different items of a name.
- SimpLemmaCitations: reading one bracketed list into lemma names is a parameter.
- The collectors of `forge/src/closure.rs` are functions that return sequences; the source pushes onto one growing vector.
- SMT-LIB scripts are syntax trees here, not text; only the model text that comes back is characters. The solver process, its budgets in seconds and its error texts are not modelled.
- SHA-256, JSON and the verdict of a run are parameters: a collision-free function, a codec that round-trips, and a function of the key inputs. `CacheProtocol` reads item records and accessibility records through one such codec.
- Losing data on power failure: a rename here never overtakes the writes before it.
- `Accessibility` models one process; concurrent ones are the matter of `CacheProtocol`. Extracting the relation and carrier from an item is left out, and so is `cargo`'s cleaning beyond deletion of files.
- The names of combinators and schemes that thermite-spec registers are a parameter of the closure.
- The order in which views are sorted before a pass: the results hold for every order. Rendering the registry's tables is left out; a view's text is given.
- Tactic heads, the frozen allowlists and the gate over citations in `forge/src/battery.rs`: independent checks of one word each.
- Command line, build, translation validation, audit and certificate records: process plumbing and projections of fields.
