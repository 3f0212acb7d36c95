/**
Whole runs of the shared cache: what one task is promised while the others take any steps between its own.
A store that gets to its rename leaves its record in place until someone deletes or replaces that entry, and
a load answers with the entry it opened, whatever happens to the entry meanwhile.
 */
module CacheRuns {
  import opened Ast
  import opened CacheKey
  import opened CacheFiles
  import opened CacheProtocol

  lemma {:induction false} RunJoin(w: World, s: State, a: seq<Step>, b: seq<Step>)
    requires Run(w, s, a) && Run(w, After(w, s, a), b)
    ensures Run(w, s, a + b) && After(w, s, a + b) == After(w, After(w, s, a), b)
    decreases |a|
  {
    if a == [] {
      assert a + b == b;
    } else {
      assert (a + b)[1..] == a[1..] + b && (a + b)[0] == a[0];
      RunJoin(w, Apply(w, s, a[0]), a[1..], b);
    }
  }

  // ---------- Entries ----------

  /** The step deletes the entry of `x` or renames a record over it. */
  ghost predicate TouchesEntry(w: World, s: State, step: Step, x: Subject) {
    match step
    case Delete(path) => path == EntryOf(w, x)
    case Publish(id) => InStore(s, id) && EntryOf(w, s.tasks[id].x) == EntryOf(w, x)
    case _ => false
  }

  ghost predicate EntryUntouched(w: World, s: State, steps: seq<Step>, x: Subject)
    requires Run(w, s, steps)
    decreases |steps|
  {
    steps == [] ||
    (!TouchesEntry(w, s, steps[0], x) && EntryUntouched(w, Apply(w, s, steps[0]), steps[1..], x))
  }

  /** The entry of `x` is a file with this text. */
  ghost predicate Holds(w: World, s: State, x: Subject, text: string) {
    var path := EntryOf(w, x);
    path in s.files && s.files[path] in s.inodes && s.inodes[s.files[path]] == text
  }

  lemma EntryStays(w: World, s: State, step: Step, x: Subject)
    requires Enabled(w, s, step) && !TouchesEntry(w, s, step, x) && EntryOf(w, x) in s.files
    ensures EntryOf(w, x) in Apply(w, s, step).files
    ensures Apply(w, s, step).files[EntryOf(w, x)] == s.files[EntryOf(w, x)]
  {
  }

  /** An entry that no step deletes or replaces keeps its text. */
  lemma {:induction false} EntryIsKept(w: World, s: State, steps: seq<Step>, x: Subject, text: string)
    requires Sound(w) && Inv(w, s) && Run(w, s, steps) && EntryUntouched(w, s, steps, x) && Holds(w, s, x, text)
    ensures Holds(w, After(w, s, steps), x, text)
    decreases |steps|
  {
    if steps != [] {
      assert PathOk(w, s, EntryOf(w, x));
      EntryStays(w, s, steps[0], x);
      PublishedStays(w, s, steps[0], s.files[EntryOf(w, x)]);
      StepKeeps(w, s, steps[0]);
      EntryIsKept(w, Apply(w, s, steps[0]), steps[1..], x, text);
    }
  }

  lemma PublishPlaces(w: World, s: State, id: nat)
    requires Inv(w, s) && CanPublish(w, s, id)
    ensures Holds(w, DoPublish(w, s, id), s.tasks[id].x, ImageOf(w, s.tasks[id]))
  {
    assert TaskOk(w, s, s.tasks[id]);
  }

  /**
  A store that reaches its rename has its whole record in place from then on, for as long as nobody deletes or
  replaces the entry. What others did while it was writing does not matter: the state is any that a run reaches.
   */
  lemma StoreIsKept(w: World, s: State, id: nat, after: seq<Step>)
    requires Sound(w) && Inv(w, s) && CanPublish(w, s, id)
    requires Run(w, DoPublish(w, s, id), after) && EntryUntouched(w, DoPublish(w, s, id), after, s.tasks[id].x)
    ensures Run(w, s, [Publish(id)] + after)
    ensures Holds(w, After(w, s, [Publish(id)] + after), s.tasks[id].x, ImageOf(w, s.tasks[id]))
  {
    PublishPlaces(w, s, id);
    PublishKeeps(w, s, id);
    EntryIsKept(w, DoPublish(w, s, id), after, s.tasks[id].x, ImageOf(w, s.tasks[id]));
    RunCons(w, s, Publish(id), after);
  }

  // ---------- Loads ----------

  /** The step begins a task under this number. */
  predicate Begins(step: Step, id: nat) {
    match step
    case BeginLoad(i, _, _) => i == id
    case BeginStore(i, _, _, _) => i == id
    case _ => false
  }

  predicate NotBegunAgain(steps: seq<Step>, id: nat) {
    forall i :: 0 <= i < |steps| ==> !Begins(steps[i], id)
  }

  /** The task, while it lives, is a load of `x` from this inode. */
  ghost predicate ReadsFrom(s: State, id: nat, x: Subject, ino: nat) {
    id in s.tasks ==> s.tasks[id].Loading? && s.tasks[id].x == x && s.tasks[id].ino == ino
  }

  lemma StepReadsFrom(w: World, s: State, step: Step, id: nat, x: Subject, ino: nat)
    requires Enabled(w, s, step) && !Begins(step, id) && ReadsFrom(s, id, x, ino)
    ensures ReadsFrom(Apply(w, s, step), id, x, ino)
  {
  }

  lemma {:induction false} RunReadsFrom(w: World, s: State, steps: seq<Step>, id: nat, x: Subject, ino: nat)
    requires Run(w, s, steps) && NotBegunAgain(steps, id) && ReadsFrom(s, id, x, ino)
    ensures ReadsFrom(After(w, s, steps), id, x, ino)
    decreases |steps|
  {
    if steps != [] {
      StepReadsFrom(w, s, steps[0], id, x, ino);
      RunReadsFrom(w, Apply(w, s, steps[0]), steps[1..], id, x, ino);
    }
  }

  /** The load's task, opened on a published inode with this text, has read all of it when it is at the end. */
  lemma ReadsWhole(w: World, a: State, mid: seq<Step>, id: nat, x: Subject, ino: nat)
    requires Sound(w) && Inv(w, a) && Run(w, a, mid) && NotBegunAgain(mid, id) && ReadsFrom(a, id, x, ino)
    requires ino in a.published && AtEnd(After(w, a, mid), id)
    ensures ino in a.inodes
    ensures After(w, a, mid).tasks[id].x == x && After(w, a, mid).tasks[id].got == a.inodes[ino]
  {
    RunKeeps(w, a, mid);
    RunReadsFrom(w, a, mid, id, x, ino);
    PublishedIsForever(w, a, mid, ino);
    var b := After(w, a, mid);
    assert TaskOk(w, b, b.tasks[id]);
  }

  /**
  A load that gets to its end answers with the text its entry had when it was opened, whatever steps other
  tasks take in between, deletions and replacements of that very entry included.
   */
  lemma LoadAnswersEntry(w: World, s: State, id: nat, pid: nat, x: Subject, mid: seq<Step>, text: string)
    requires Sound(w) && Inv(w, s) && Holds(w, s, x, text) && NotBegunAgain(mid, id)
    requires Enabled(w, s, BeginLoad(id, pid, x)) && Run(w, DoBeginLoad(w, s, id, pid, x), mid)
    requires Enabled(w, After(w, DoBeginLoad(w, s, id, pid, x), mid), EndLoad(id))
    ensures var b := After(w, DoBeginLoad(w, s, id, pid, x), mid);
            Apply(w, b, EndLoad(id)).answers == b.answers + [(x, Parsed(w, text))]
  {
    var ino := s.files[EntryOf(w, x)];
    assert PathOk(w, s, EntryOf(w, x));
    BeginLoadKeeps(w, s, id, pid, x);
    ReadsWhole(w, DoBeginLoad(w, s, id, pid, x), mid, id, x, ino);
  }

  // ---------- The measured time of a hit ----------

  ghost predicate IsHitOf(w: World, x: Subject, stored: nat, a: Answer) {
    a.Hit? && a.r.cached && a.r.WithCached(false) == Fresh(w, x, stored)
  }

  /** Parsing a stored record hits exactly when its verdict is consistent, with the time it was stored with. */
  lemma StoredParses(w: World, x: Subject, stored: nat)
    requires Sound(w)
    ensures w.decode(Image(w, Origin(x, stored))) == Some(Record(w.verify(x), stored, false))
    ensures Parsed(w, Image(w, Origin(x, stored))).Hit? <==> IsInternallyConsistent(Fresh(w, x, stored))
    ensures Parsed(w, Image(w, Origin(x, stored))).Hit? ==>
              IsHitOf(w, x, stored, Parsed(w, Image(w, Origin(x, stored))))
  {
    var r := Fresh(w, x, stored).WithCached(false);
    assert w.decode(w.encode(r)) == Some(r);
  }

  /** A hit with the flag cleared is the record of a fresh run of `time` exactly when that time was stored. */
  lemma HitTimeIff(w: World, x: Subject, stored: nat, time: nat)
    requires Sound(w) && IsInternallyConsistent(Fresh(w, x, stored))
    ensures Parsed(w, Image(w, Origin(x, stored))).Hit?
    ensures Parsed(w, Image(w, Origin(x, stored))).r.WithCached(false) == Fresh(w, x, time) <==> stored == time
  {
    StoredParses(w, x, stored);
  }

  /** The state after a load of `x` has begun in `s`, run through `mid` and ended. */
  ghost predicate LoadedTo(w: World, s: State, id: nat, pid: nat, x: Subject, mid: seq<Step>, e: State) {
    && Enabled(w, s, BeginLoad(id, pid, x)) && Run(w, DoBeginLoad(w, s, id, pid, x), mid) && NotBegunAgain(mid, id)
    && var b := After(w, DoBeginLoad(w, s, id, pid, x), mid);
       Enabled(w, b, EndLoad(id)) && e == Apply(w, b, EndLoad(id))
  }

  ghost predicate LastAnswerHits(s: State, x: Subject, time: nat, w: World) {
    s.answers != [] && s.answers[|s.answers| - 1].0 == x && IsHitOf(w, x, time, s.answers[|s.answers| - 1].1)
  }

  /**
  End to end: what a task renames into place, in any state of any run, is what a later load serves, with the
  time the storing run measured, unless the entry is deleted or replaced before the load opens it.
   */
  lemma ServedIsStored(w: World, s: State, st: nat, between: seq<Step>, ld: nat, pid: nat, mid: seq<Step>, e: State)
    requires Sound(w) && Inv(w, s) && CanPublish(w, s, st)
    requires Run(w, DoPublish(w, s, st), between)
    requires EntryUntouched(w, DoPublish(w, s, st), between, s.tasks[st].x)
    requires LoadedTo(w, After(w, DoPublish(w, s, st), between), ld, pid, s.tasks[st].x, mid, e)
    requires IsInternallyConsistent(Fresh(w, s.tasks[st].x, s.tasks[st].time))
    ensures LastAnswerHits(e, s.tasks[st].x, s.tasks[st].time, w)
  {
    var t := s.tasks[st];
    var a := DoPublish(w, s, st);
    PublishPlaces(w, s, st);
    PublishKeeps(w, s, st);
    EntryIsKept(w, a, between, t.x, ImageOf(w, t));
    RunKeeps(w, a, between);
    LoadAnswersEntry(w, After(w, a, between), ld, pid, t.x, mid, ImageOf(w, t));
    StoredParses(w, t.x, t.time);
  }

  /**
  The departure: from every state a store of a run that took `stored` and a load after it can be made, and the
  load's hit is not the record of a fresh run of any other duration.
   */
  lemma StoredTimeIsServed(w: World, s: State, id: nat, pid: nat, x: Subject, stored: nat, time: nat)
    returns (steps: seq<Step>)
    requires Sound(w) && Inv(w, s) && id !in s.tasks && SubjectInRange(x) && stored != time
    requires IsInternallyConsistent(Fresh(w, x, stored))
    ensures Run(w, s, steps) && After(w, s, steps).answers != []
    ensures var answers := After(w, s, steps).answers;
            var a := answers[|answers| - 1].1;
            answers[|answers| - 1].0 == x && IsHitOf(w, x, stored, a) && a.r.WithCached(false) != Fresh(w, x, time)
  {
    var image := Image(w, Origin(x, stored));
    var store := [BeginStore(id, pid, x, stored), CreateTemp(id), WriteChunk(id, |image|), CloseTemp(id), Publish(id)];
    StorePublishes(w, s, id, pid, x, stored);
    var e := After(w, s, store);
    RunKeeps(w, s, store);
    var load := [BeginLoad(id, pid, x), ReadChunk(id, |image|), EndLoad(id)];
    LoadAnswers(w, e, id, pid, x);
    RunJoin(w, s, store, load);
    StoredParses(w, x, stored);
    steps := store + load;
  }
}
