/** The accessibility proofs of `dec wf` measures, served from the cache or derived and stored. */
module Accessibility {
  import opened Ast
  import opened CacheKey

  datatype Proof = Proof(relation: Bytes, carrier: Bytes, wellFounded: bool, cached: bool)

  /** The hash and the text format of a stored proof. */
  datatype Codec = Codec(digest: Digest, encode: Proof -> string, decode: string -> Option<Proof>)

  ghost predicate Sound(c: Codec) {
    CollisionFree(c.digest) && forall p :: c.decode(c.encode(p)) == Some(p)
  }

  function WfKey(c: Codec, relation: Bytes, carrier: Bytes): string {
    PairKeyOf(c.digest, Pair(relation, carrier, CHECK_SCHEMA_VERSION))
  }

  ghost predicate Fits(relation: Bytes, carrier: Bytes) {
    PairInRange(Pair(relation, carrier, CHECK_SCHEMA_VERSION))
  }

  // ---------- One discharge ----------

  /** A stored proof, flagged as cached; nothing when there is no entry, it cannot be read or it does not parse. */
  function Lookup(c: Codec, files: map<string, string>, key: string, readable: bool): Option<Proof> {
    if readable && key in files then
      match c.decode(files[key])
      case Some(p) => Some(p.(cached := true))
      case None => None
    else None
  }

  /** `verdict` is what deriving would answer now; `readable` and `writable` say whether the file system cooperates. */
  datatype Request = Request(relation: Bytes, carrier: Bytes, verdict: bool, readable: bool, writable: bool)

  function Hit(c: Codec, files: map<string, string>, call: Request): Option<Proof> {
    Lookup(c, files, WfKey(c, call.relation, call.carrier), call.readable)
  }

  function Derived(call: Request): Proof {
    Proof(call.relation, call.carrier, call.verdict, false)
  }

  function FilesAfter(c: Codec, files: map<string, string>, call: Request): map<string, string> {
    if Hit(c, files, call).Some? || !call.writable then files
    else files[WfKey(c, call.relation, call.carrier) := c.encode(Derived(call))]
  }

  function Returned(c: Codec, files: map<string, string>, call: Request): Proof {
    match Hit(c, files, call)
    case Some(p) => p
    case None => Derived(call)
  }

  class Cache {
    var files: map<string, string>

    constructor (initial: map<string, string>)
      ensures files == initial
    {
      files := initial;
    }

    method LoadAccessibility(c: Codec, key: string, readable: bool) returns (r: Option<Proof>)
      ensures r == Lookup(c, files, key, readable)
    {
      if !readable || key !in files {
        return None;
      }
      var parsed := c.decode(files[key]);
      match parsed
      case Some(p) => r := Some(p.(cached := true));
      case None => r := None;
    }

    method StoreAccessibility(c: Codec, key: string, proof: Proof, writable: bool) returns (ok: bool)
      modifies this
      ensures ok == writable
      ensures files == if writable then old(files)[key := c.encode(proof.(cached := false))] else old(files)
    {
      if writable {
        files := files[key := c.encode(proof.(cached := false))];
      }
      ok := writable;
    }

    /** `derived` says whether the derivation was run. */
    method Discharge(c: Codec, call: Request) returns (proof: Proof, derived: bool)
      modifies this
      ensures derived <==> Hit(c, old(files), call).None?
      ensures proof == Returned(c, old(files), call)
      ensures files == FilesAfter(c, old(files), call)
    {
      var key := AccessibilityCacheKey(c.digest, call.relation, call.carrier);
      var hit := LoadAccessibility(c, key, call.readable);
      if hit.Some? {
        return hit.value, false;
      }
      proof, derived := Derived(call), true;
      var _ := StoreAccessibility(c, key, proof, call.writable);
    }

    /** The write-through pass over the items of a file: those without a `dec wf` measure are skipped. */
    method CacheAll(c: Codec, items: seq<Item>, derive: string -> bool, readable: bool, writable: bool)
      modifies this
      ensures files == FilesAfterAll(c, old(files), CallsOf(items, derive, readable, writable))
    {
      ghost var start := files;
      for i := 0 to |items|
        invariant files == FilesAfterAll(c, start, CallsOf(items[..i], derive, readable, writable))
      {
        assert items[..i + 1] == items[..i] + [items[i]];
        CallsOfSnoc(items[..i], items[i], derive, readable, writable);
        match items[i].measure
        case Some(pair) =>
          var call := Request(pair.0, pair.1, derive(items[i].name), readable, writable);
          FilesSnoc(c, start, CallsOf(items[..i], derive, readable, writable), call);
          var _, _ := Discharge(c, call);
        case None =>
          assert CallsOf(items[..i + 1], derive, readable, writable) == CallsOf(items[..i], derive, readable, writable);
      }
      assert items[..|items|] == items;
    }
  }

  // ---------- Runs ----------

  function FilesAfterAll(c: Codec, files: map<string, string>, calls: seq<Request>): map<string, string>
    decreases |calls|
  {
    if calls == [] then files else FilesAfterAll(c, FilesAfter(c, files, calls[0]), calls[1..])
  }

  lemma {:induction false} FilesSnoc(c: Codec, files: map<string, string>, calls: seq<Request>, call: Request)
    ensures FilesAfterAll(c, files, calls + [call]) == FilesAfter(c, FilesAfterAll(c, files, calls), call)
    decreases |calls|
  {
    if calls == [] {
      assert calls + [call] == [call] && [call][1..] == [];
    } else {
      assert (calls + [call])[1..] == calls[1..] + [call];
      FilesSnoc(c, FilesAfter(c, files, calls[0]), calls[1..], call);
    }
  }

  /** The cache as the call at `i` finds it. */
  function Before(c: Codec, files: map<string, string>, calls: seq<Request>, i: nat): map<string, string>
    requires i <= |calls|
  {
    FilesAfterAll(c, files, calls[..i])
  }

  lemma BeforeStep(c: Codec, files: map<string, string>, calls: seq<Request>, i: nat)
    requires i < |calls|
    ensures Before(c, files, calls, i + 1) == FilesAfter(c, Before(c, files, calls, i), calls[i])
  {
    assert calls[..i + 1] == calls[..i] + [calls[i]];
    FilesSnoc(c, files, calls[..i], calls[i]);
  }

  /** Every readable entry is a proof of its own pair with the true verdict. */
  ghost predicate Truthful(c: Codec, files: map<string, string>, truth: (Bytes, Bytes) -> bool) {
    forall relation, carrier :: Fits(relation, carrier) ==> TruthfulAt(c, files, truth, relation, carrier)
  }

  ghost predicate TruthfulAt(c: Codec, files: map<string, string>, truth: (Bytes, Bytes) -> bool, relation: Bytes,
                             carrier: Bytes) {
    var stored := Lookup(c, files, WfKey(c, relation, carrier), true);
    stored.Some? ==> stored.value == Proof(relation, carrier, truth(relation, carrier), true)
  }

  ghost predicate TrueCall(call: Request, truth: (Bytes, Bytes) -> bool) {
    Fits(call.relation, call.carrier) && call.verdict == truth(call.relation, call.carrier)
  }

  lemma CallKeepsTruth(c: Codec, files: map<string, string>, truth: (Bytes, Bytes) -> bool, call: Request)
    requires Sound(c) && Truthful(c, files, truth) && TrueCall(call, truth)
    ensures Truthful(c, FilesAfter(c, files, call), truth)
    ensures Returned(c, files, call) == Proof(call.relation, call.carrier, call.verdict, Hit(c, files, call).Some?)
  {
    assert TruthfulAt(c, files, truth, call.relation, call.carrier);
    forall relation, carrier | Fits(relation, carrier)
      ensures TruthfulAt(c, FilesAfter(c, files, call), truth, relation, carrier)
    {
      assert TruthfulAt(c, files, truth, relation, carrier);
      PairKeysSeparate(c.digest, Pair(relation, carrier, CHECK_SCHEMA_VERSION),
          Pair(call.relation, call.carrier, CHECK_SCHEMA_VERSION));
    }
  }

  /**
  When the derivation depends only on the pair, every call of every run returns what deriving would,
  failing loads and stores included; only the `cached` flag tells a hit from a derivation.
   */
  lemma {:induction false} EveryVerdictIsDerived(c: Codec, files: map<string, string>,
                                                 truth: (Bytes, Bytes) -> bool, calls: seq<Request>, i: nat)
    requires Sound(c) && Truthful(c, files, truth) && i < |calls|
    requires forall k :: 0 <= k <= i ==> TrueCall(calls[k], truth)
    ensures Truthful(c, Before(c, files, calls, i), truth)
    ensures var now := Before(c, files, calls, i);
            Returned(c, now, calls[i])
            == Proof(calls[i].relation, calls[i].carrier, calls[i].verdict, Hit(c, now, calls[i]).Some?)
  {
    if i > 0 {
      EveryVerdictIsDerived(c, files, truth, calls, i - 1);
      BeforeStep(c, files, calls, i - 1);
      CallKeepsTruth(c, Before(c, files, calls, i - 1), truth, calls[i - 1]);
    }
    CallKeepsTruth(c, Before(c, files, calls, i), truth, calls[i]);
  }

  /** There is an entry that parses. */
  predicate HasEntry(c: Codec, files: map<string, string>, key: string) {
    Lookup(c, files, key, true).Some?
  }

  lemma {:induction false} EntryStays(c: Codec, files: map<string, string>, calls: seq<Request>, i: nat, j: nat,
                                      key: string)
    requires Sound(c) && i <= j <= |calls| && HasEntry(c, Before(c, files, calls, i), key)
    ensures HasEntry(c, Before(c, files, calls, j), key)
    decreases j
  {
    if i < j {
      EntryStays(c, files, calls, i, j - 1, key);
      BeforeStep(c, files, calls, j - 1);
    }
  }

  /**
  After a call that found or stored the proof of a pair, no later call on that pair derives again while the
  entry can be read.
   */
  lemma NeverDerivedTwice(c: Codec, files: map<string, string>, calls: seq<Request>, i: nat, j: nat)
    requires Sound(c) && i < j < |calls|
    requires calls[i].relation == calls[j].relation && calls[i].carrier == calls[j].carrier
    requires calls[i].writable || Hit(c, Before(c, files, calls, i), calls[i]).Some?
    requires calls[j].readable
    ensures Hit(c, Before(c, files, calls, j), calls[j]).Some?
  {
    BeforeStep(c, files, calls, i);
    EntryStays(c, files, calls, i + 1, j, WfKey(c, calls[i].relation, calls[i].carrier));
  }

  // ---------- A file's items ----------

  datatype Item = Item(name: string, measure: Option<(Bytes, Bytes)>)

  /** The discharges of the pass; the verdict is asked for the item, the entry is kept for its pair. */
  function CallsOf(items: seq<Item>, derive: string -> bool, readable: bool, writable: bool): seq<Request> {
    if items == [] then []
    else CallOf(items[0], derive, readable, writable) + CallsOf(items[1..], derive, readable, writable)
  }

  function CallOf(item: Item, derive: string -> bool, readable: bool, writable: bool): seq<Request> {
    match item.measure
    case Some(pair) => [Request(pair.0, pair.1, derive(item.name), readable, writable)]
    case None => []
  }

  lemma {:induction false} CallsOfSnoc(items: seq<Item>, item: Item, derive: string -> bool, readable: bool,
                                       writable: bool)
    ensures CallsOf(items + [item], derive, readable, writable)
            == CallsOf(items, derive, readable, writable) + CallOf(item, derive, readable, writable)
  {
    if items == [] {
      assert items + [item] == [item] && [item][1..] == [];
    } else {
      assert (items + [item])[1..] == items[1..] + [item];
      CallsOfSnoc(items[1..], item, derive, readable, writable);
    }
  }

  /** Items that share a pair have the same verdict. */
  ghost predicate Agree(items: seq<Item>, derive: string -> bool) {
    forall i, j ::
      0 <= i < |items| && 0 <= j < |items| && items[i].measure.Some? && items[i].measure == items[j].measure ==>
      derive(items[i].name) == derive(items[j].name)
  }

  /** Afterwards the cache answers, for every item with a measure, what deriving for that item answers. */
  ghost predicate AnswersAll(c: Codec, files: map<string, string>, items: seq<Item>, derive: string -> bool) {
    forall i :: 0 <= i < |items| && items[i].measure.Some? ==>
      var pair := items[i].measure.value;
      Lookup(c, files, WfKey(c, pair.0, pair.1), true) == Some(Proof(pair.0, pair.1, derive(items[i].name), true))
  }

  ghost predicate AllFit(items: seq<Item>) {
    forall i :: 0 <= i < |items| && items[i].measure.Some? ==> Fits(items[i].measure.value.0, items[i].measure.value.1)
  }

  /** An entry that parses is never replaced while loads succeed. */
  lemma {:induction false} EntryIsKept(c: Codec, files: map<string, string>, items: seq<Item>,
                                       derive: string -> bool, relation: Bytes, carrier: Bytes)
    requires Sound(c) && AllFit(items) && Fits(relation, carrier) && HasEntry(c, files, WfKey(c, relation, carrier))
    ensures Lookup(c, FilesAfterAll(c, files, CallsOf(items, derive, true, true)), WfKey(c, relation, carrier), true)
            == Lookup(c, files, WfKey(c, relation, carrier), true)
    decreases |items|
  {
    if items != [] {
      var rest := CallsOf(items[1..], derive, true, true);
      assert AllFit(items[1..]);
      match items[0].measure
      case Some(pair) =>
        var call := Request(pair.0, pair.1, derive(items[0].name), true, true);
        assert CallsOf(items, derive, true, true) == [call] + rest;
        assert ([call] + rest)[1..] == rest;
        PairKeysSeparate(c.digest, Pair(relation, carrier, CHECK_SCHEMA_VERSION),
            Pair(pair.0, pair.1, CHECK_SCHEMA_VERSION));
        EntryIsKept(c, FilesAfter(c, files, call), items[1..], derive, relation, carrier);
      case None =>
        assert CallsOf(items, derive, true, true) == rest;
        EntryIsKept(c, files, items[1..], derive, relation, carrier);
    }
  }

  /** The first item of a pair decides what the cache says about it. */
  lemma {:induction false} FirstItemDecides(c: Codec, files: map<string, string>, items: seq<Item>,
                                            derive: string -> bool, i: nat)
    requires Sound(c) && AllFit(items) && i < |items| && items[i].measure.Some?
    requires forall k :: 0 <= k < i ==> items[k].measure != items[i].measure
    requires !HasEntry(c, files, WfKey(c, items[i].measure.value.0, items[i].measure.value.1))
    ensures var pair := items[i].measure.value;
            Lookup(c, FilesAfterAll(c, files, CallsOf(items, derive, true, true)), WfKey(c, pair.0, pair.1), true)
            == Some(Proof(pair.0, pair.1, derive(items[i].name), true))
    decreases i
  {
    var target := items[i].measure.value;
    var rest := CallsOf(items[1..], derive, true, true);
    assert AllFit(items[1..]);
    match items[0].measure
    case Some(pair) =>
      var call := Request(pair.0, pair.1, derive(items[0].name), true, true);
      assert CallsOf(items, derive, true, true) == [call] + rest;
      assert ([call] + rest)[1..] == rest;
      PairKeysSeparate(c.digest, Pair(target.0, target.1, CHECK_SCHEMA_VERSION),
          Pair(pair.0, pair.1, CHECK_SCHEMA_VERSION));
      if i == 0 {
        EntryIsKept(c, FilesAfter(c, files, call), items[1..], derive, target.0, target.1);
      } else {
        FirstItemDecides(c, FilesAfter(c, files, call), items[1..], derive, i - 1);
      }
    case None =>
      assert CallsOf(items, derive, true, true) == rest;
      FirstItemDecides(c, files, items[1..], derive, i - 1);
  }

  lemma FirstOf(items: seq<Item>, i: nat) returns (k: nat)
    requires i < |items|
    ensures k <= i && items[k].measure == items[i].measure
    ensures forall j :: 0 <= j < k ==> items[j].measure != items[i].measure
  {
    k := 0;
    while items[k].measure != items[i].measure
      invariant k <= i
      invariant forall j :: 0 <= j < k ==> items[j].measure != items[i].measure
      decreases i - k
    {
      k := k + 1;
    }
  }

  /**
  The entry is kept per pair and not per item: after the pass over an empty cache, it answers every item
  rightly exactly when items with the same pair have the same verdict.
   */
  lemma PassIsRightIff(c: Codec, items: seq<Item>, derive: string -> bool)
    requires Sound(c) && AllFit(items)
    ensures AnswersAll(c, FilesAfterAll(c, map[], CallsOf(items, derive, true, true)), items, derive)
            <==> Agree(items, derive)
  {
    forall i | 0 <= i < |items| && items[i].measure.Some?
      ensures exists k ::
                && 0 <= k <= i && items[k].measure == items[i].measure
                && Lookup(c, FilesAfterAll(c, map[], CallsOf(items, derive, true, true)),
                          WfKey(c, items[i].measure.value.0, items[i].measure.value.1), true)
                   == Some(Proof(items[i].measure.value.0, items[i].measure.value.1, derive(items[k].name), true))
    {
      var k := FirstOf(items, i);
      FirstItemDecides(c, map[], items, derive, k);
    }
  }
}
