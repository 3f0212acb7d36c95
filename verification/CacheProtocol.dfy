/**
The cache directory as processes share it: every load, store, crash and deletion is cut into the steps
between which another process may run. A file is a directory entry that names an inode; a rename moves
the entry, and a reader keeps the inode it opened.
 */
module CacheProtocol {
  import opened Ast
  import opened CacheKey
  import opened CacheFiles

  // ---------- Records ----------

  datatype Status = Discharged | Failed

  /** What a fresh run decides; `rest` stands for the fields the cache does not look at. */
  datatype Verdict =
    | ItemVerdict(rejected: bool, obligations: seq<Status>, rest: string)
    | Accessible(wellFounded: bool)

  /** A stored record; `time` is the measured solver time, which the inputs do not determine. */
  datatype Record = Record(verdict: Verdict, time: nat, cached: bool) {
    function WithCached(flag: bool): Record {
      this.(cached := flag)
    }
  }

  /** A clean certificate carries no failed obligation. */
  predicate IsInternallyConsistent(r: Record) {
    match r.verdict
    case ItemVerdict(rejected, obligations, _) => rejected || Failed !in obligations
    case Accessible(_) => true
  }

  /** What the cache is built on: a hash, a text codec for records, and the verdict of a fresh run. */
  datatype World = World(digest: Digest, encode: Record -> string, decode: string -> Option<Record>,
                         verify: Subject -> Verdict)

  ghost predicate Sound(w: World) {
    CollisionFree(w.digest) && forall r :: w.decode(w.encode(r)) == Some(r)
  }

  /** The record of a fresh run that took `time`, as it is returned. */
  function Fresh(w: World, x: Subject, time: nat): Record {
    Record(w.verify(x), time, false)
  }

  // ---------- State ----------

  /** A store goes from `Named` to `Opened`, which holds a file handle, to `Closed`. */
  datatype Phase = Named | Opened(ino: nat, written: nat) | Closed

  datatype Task =
    | Loading(pid: nat, x: Subject, ino: nat, got: string)
    | Storing(pid: nat, x: Subject, time: nat, n: nat, phase: Phase)

  /** What a published inode is the record of. */
  datatype Origin = Origin(x: Subject, time: nat)

  datatype Answer = Hit(r: Record) | Miss

  /**
  `files` is the directory and `inodes` the file contents. `counters` holds the temp-name counter of each
  live process. `published` and `answers` only record history: which inodes were renamed into place, and
  what every load returned.
   */
  datatype State = State(
    files: map<Path, nat>, inodes: map<nat, string>, next: nat,
    tasks: map<nat, Task>, counters: map<nat, nat>,
    published: map<nat, Origin>, answers: seq<(Subject, Answer)>)

  function CounterOf(s: State, pid: nat): nat {
    if pid in s.counters then s.counters[pid] else 0
  }

  function EntryOf(w: World, x: Subject): Path {
    Entry(Stem(w.digest, x))
  }

  function TempOf(w: World, t: Task): Path
    requires t.Storing?
  {
    Temp(Stem(w.digest, t.x), t.pid, t.n)
  }

  /** The text that a store of this record writes: its canonical form, not flagged as cached. */
  function Image(w: World, o: Origin): string {
    w.encode(Fresh(w, o.x, o.time).WithCached(false))
  }

  function ImageOf(w: World, t: Task): string
    requires t.Storing?
  {
    Image(w, Origin(t.x, t.time))
  }

  // ---------- Steps ----------

  /**
  `BeginLoad` opens the entry, or misses when there is none. `BeginStore` follows a fresh run of any
  duration and takes the next temp name; `CreateTemp` creates or truncates that file. `Delete` is anyone
  removing a file. After a crash a new process may have the same process id and counts from zero again.
   */
  datatype Step =
    | BeginLoad(id: nat, pid: nat, x: Subject)
    | ReadChunk(id: nat, k: nat)
    | EndLoad(id: nat)
    | AbortLoad(id: nat)
    | BeginStore(id: nat, pid: nat, x: Subject, time: nat)
    | CreateTemp(id: nat)
    | WriteChunk(id: nat, k: nat)
    | CloseTemp(id: nat)
    | FailStore(id: nat)
    | Publish(id: nat)
    | FailPublish(id: nat, removed: bool)
    | Crash(pid: nat)
    | Delete(path: Path)

  /** What a load that has read the whole text returns. */
  function Parsed(w: World, text: string): Answer {
    match w.decode(text)
    case Some(r) => if IsInternallyConsistent(r) then Hit(r.WithCached(true)) else Miss
    case None => Miss
  }

  predicate CanRead(s: State, id: nat, k: nat) {
    id in s.tasks && s.tasks[id].Loading? && s.tasks[id].ino in s.inodes
    && |s.tasks[id].got| + k <= |s.inodes[s.tasks[id].ino]|
  }

  /** The reader is at the end of its file. */
  predicate AtEnd(s: State, id: nat) {
    CanRead(s, id, 0) && |s.tasks[id].got| == |s.inodes[s.tasks[id].ino]|
  }

  predicate InStore(s: State, id: nat) {
    id in s.tasks && s.tasks[id].Storing?
  }

  predicate CanWrite(w: World, s: State, id: nat, k: nat) {
    InStore(s, id) && s.tasks[id].phase.Opened? && s.tasks[id].phase.ino in s.inodes
    && s.tasks[id].phase.written + k <= |ImageOf(w, s.tasks[id])|
  }

  predicate CanClose(w: World, s: State, id: nat) {
    CanWrite(w, s, id, 0) && s.tasks[id].phase.written == |ImageOf(w, s.tasks[id])|
  }

  predicate CanPublish(w: World, s: State, id: nat) {
    InStore(s, id) && s.tasks[id].phase.Closed? && TempOf(w, s.tasks[id]) in s.files
  }

  function EndTask(s: State, id: nat): State {
    s.(tasks := s.tasks - {id})
  }

  function SetPhase(s: State, id: nat, phase: Phase): State
    requires InStore(s, id)
  {
    s.(tasks := s.tasks[id := s.tasks[id].(phase := phase)])
  }

  function Reply(s: State, x: Subject, a: Answer): State {
    s.(answers := s.answers + [(x, a)])
  }

  function DoBeginLoad(w: World, s: State, id: nat, pid: nat, x: Subject): State {
    var path := EntryOf(w, x);
    if path in s.files then s.(tasks := s.tasks[id := Loading(pid, x, s.files[path], "")])
    else Reply(s, x, Miss)
  }

  function DoRead(s: State, id: nat, k: nat): State
    requires CanRead(s, id, k)
  {
    var t := s.tasks[id];
    s.(tasks := s.tasks[id := t.(got := t.got + s.inodes[t.ino][|t.got|..|t.got| + k])])
  }

  function DoBeginStore(s: State, id: nat, pid: nat, x: Subject, time: nat): State {
    s.(tasks := s.tasks[id := Storing(pid, x, time, CounterOf(s, pid), Named)],
       counters := s.counters[pid := CounterOf(s, pid) + 1])
  }

  function DoCreate(w: World, s: State, id: nat): State
    requires InStore(s, id)
  {
    var path := TempOf(w, s.tasks[id]);
    var ino := if path in s.files then s.files[path] else s.next;
    SetPhase(s, id, Opened(ino, 0)).(
      files := s.files[path := ino], inodes := s.inodes[ino := ""],
      next := if path in s.files then s.next else s.next + 1)
  }

  function DoWrite(w: World, s: State, id: nat, k: nat): State
    requires CanWrite(w, s, id, k)
  {
    var ino, at := s.tasks[id].phase.ino, s.tasks[id].phase.written;
    SetPhase(s, id, Opened(ino, at + k)).(
      inodes := s.inodes[ino := s.inodes[ino] + ImageOf(w, s.tasks[id])[at..at + k]])
  }

  function DoPublish(w: World, s: State, id: nat): State
    requires CanPublish(w, s, id)
  {
    var t := s.tasks[id];
    var ino := s.files[TempOf(w, t)];
    EndTask(s, id).(
      files := (s.files - {TempOf(w, t)})[EntryOf(w, t.x) := ino],
      published := s.published[ino := Origin(t.x, t.time)])
  }

  function DoFailPublish(w: World, s: State, id: nat, removed: bool): State
    requires InStore(s, id)
  {
    EndTask(s, id).(files := if removed then s.files - {TempOf(w, s.tasks[id])} else s.files)
  }

  function DoCrash(s: State, pid: nat): State {
    s.(tasks := map id | id in s.tasks && s.tasks[id].pid != pid :: s.tasks[id], counters := s.counters[pid := 0])
  }

  ghost predicate Enabled(w: World, s: State, step: Step) {
    match step
    case BeginLoad(id, _, x) => id !in s.tasks && SubjectInRange(x)
    case ReadChunk(id, k) => CanRead(s, id, k)
    case EndLoad(id) => AtEnd(s, id)
    case AbortLoad(id) => id in s.tasks && s.tasks[id].Loading?
    case BeginStore(id, _, x, _) => id !in s.tasks && SubjectInRange(x)
    case CreateTemp(id) => InStore(s, id) && s.tasks[id].phase.Named?
    case WriteChunk(id, k) => CanWrite(w, s, id, k)
    case CloseTemp(id) => CanClose(w, s, id)
    case FailStore(id) => InStore(s, id) && !s.tasks[id].phase.Closed?
    case Publish(id) => CanPublish(w, s, id)
    case FailPublish(id, _) => InStore(s, id) && s.tasks[id].phase.Closed?
    case Crash(_) => true
    case Delete(path) => path in s.files
  }

  ghost function Apply(w: World, s: State, step: Step): State
    requires Enabled(w, s, step)
  {
    match step
    case BeginLoad(id, pid, x) => DoBeginLoad(w, s, id, pid, x)
    case ReadChunk(id, k) => DoRead(s, id, k)
    case EndLoad(id) => Reply(EndTask(s, id), s.tasks[id].x, Parsed(w, s.tasks[id].got))
    case AbortLoad(id) => Reply(EndTask(s, id), s.tasks[id].x, Miss)
    case BeginStore(id, pid, x, time) => DoBeginStore(s, id, pid, x, time)
    case CreateTemp(id) => DoCreate(w, s, id)
    case WriteChunk(id, k) => DoWrite(w, s, id, k)
    case CloseTemp(id) => SetPhase(s, id, Closed)
    case FailStore(id) => EndTask(s, id)
    case Publish(id) => DoPublish(w, s, id)
    case FailPublish(id, removed) => DoFailPublish(w, s, id, removed)
    case Crash(pid) => DoCrash(s, pid)
    case Delete(path) => s.(files := s.files - {path})
  }

  // ---------- The invariant ----------

  /** A published inode holds the whole text of a fresh record. */
  ghost predicate PublishedWhole(w: World, s: State) {
    forall i :: i in s.published ==>
      && i in s.inodes && i < s.next && SubjectInRange(s.published[i].x)
      && s.inodes[i] == Image(w, s.published[i])
  }

  /** Every directory entry names an existing inode, of its own. */
  ghost predicate Linked(s: State) {
    && (forall p :: p in s.files ==> s.files[p] in s.inodes && s.files[p] < s.next)
    && (forall p, q :: p in s.files && q in s.files && s.files[p] == s.files[q] ==> p == q)
  }

  ghost predicate PathOk(w: World, s: State, p: Path) {
    p in s.files ==>
      if p.Temp? then s.files[p] !in s.published
      else s.files[p] in s.published && Stem(w.digest, s.published[s.files[p]].x) == p.stem
  }

  ghost predicate PathsOk(w: World, s: State) {
    forall p :: PathOk(w, s, p)
  }

  /** A reader has read a prefix of a published inode of its subject. */
  ghost predicate LoadOk(w: World, s: State, t: Task)
    requires t.Loading?
  {
    && SubjectInRange(t.x) && t.ino in s.published && t.ino in s.inodes
    && Stem(w.digest, s.published[t.ino].x) == Stem(w.digest, t.x)
    && t.got <= s.inodes[t.ino]
  }

  /** A writer owns the inode it writes: it is the file at its temporary path, if there is one, and no other file. */
  ghost predicate WriterOk(w: World, s: State, t: Task)
    requires t.Storing? && t.phase.Opened?
  {
    var ino, at := t.phase.ino, t.phase.written;
    && ino in s.inodes && ino < s.next && ino !in s.published
    && at <= |ImageOf(w, t)| && s.inodes[ino] == ImageOf(w, t)[..at]
    && forall p :: p in s.files ==> (s.files[p] == ino <==> p == TempOf(w, t))
  }

  ghost predicate StoreOk(w: World, s: State, t: Task)
    requires t.Storing?
  {
    && SubjectInRange(t.x) && t.n < CounterOf(s, t.pid)
    && (t.phase.Opened? ==> WriterOk(w, s, t))
    && (t.phase.Closed? && TempOf(w, t) in s.files ==>
          s.files[TempOf(w, t)] in s.inodes && s.inodes[s.files[TempOf(w, t)]] == ImageOf(w, t))
  }

  ghost predicate TaskOk(w: World, s: State, t: Task) {
    if t.Loading? then LoadOk(w, s, t) else StoreOk(w, s, t)
  }

  ghost predicate TasksOk(w: World, s: State) {
    forall id :: id in s.tasks ==> TaskOk(w, s, s.tasks[id])
  }

  /** Two live stores of one process have different numbers, and two writers different inodes. */
  ghost predicate Apart(t: Task, u: Task) {
    t.Storing? && u.Storing? ==>
      && (t.pid == u.pid ==> t.n != u.n)
      && (t.phase.Opened? && u.phase.Opened? ==> t.phase.ino != u.phase.ino)
  }

  ghost predicate TasksApart(s: State) {
    forall i, j :: i in s.tasks && j in s.tasks && i != j ==> Apart(s.tasks[i], s.tasks[j])
  }

  /** A hit is what a fresh run returns, apart from the flag that says it was served from the cache. */
  ghost predicate AnswerOk(w: World, x: Subject, a: Answer) {
    a.Hit? ==> a.r.cached && exists time :: a.r.WithCached(false) == Fresh(w, x, time)
  }

  ghost predicate AnswersOk(w: World, s: State) {
    forall i :: 0 <= i < |s.answers| ==> AnswerOk(w, s.answers[i].0, s.answers[i].1)
  }

  ghost predicate Inv(w: World, s: State) {
    && PublishedWhole(w, s) && Linked(s) && PathsOk(w, s) && TasksOk(w, s) && TasksApart(s) && AnswersOk(w, s)
  }

  // ---------- Framing ----------

  /** The directory, the files and the history of publications are untouched, and no counter goes back. */
  ghost predicate SameStore(s: State, s': State) {
    && s'.files == s.files && s'.inodes == s.inodes && s'.next == s.next && s'.published == s.published
    && forall pid :: CounterOf(s', pid) >= CounterOf(s, pid)
  }

  /** The tasks other than `id` are tasks of the state before. */
  ghost predicate OthersStay(s: State, s': State, id: nat) {
    forall j :: j in s'.tasks && j != id ==> j in s.tasks && s'.tasks[j] == s.tasks[j]
  }

  /** What a task relies on is untouched. */
  ghost predicate Undisturbed(w: World, s: State, s': State, t: Task) {
    if t.Loading? then
      t.ino in s.published && t.ino in s.inodes ==>
        && t.ino in s'.published && s'.published[t.ino] == s.published[t.ino]
        && t.ino in s'.inodes && s'.inodes[t.ino] == s.inodes[t.ino]
    else
      && CounterOf(s', t.pid) >= CounterOf(s, t.pid)
      && (t.phase.Opened? && t.phase.ino in s.inodes ==>
            && t.phase.ino in s'.inodes && s'.inodes[t.phase.ino] == s.inodes[t.phase.ino]
            && s'.next >= s.next && (t.phase.ino in s'.published ==> t.phase.ino in s.published)
            && forall p :: p in s'.files && (s'.files[p] == t.phase.ino || p == TempOf(w, t)) ==>
                 p in s.files && s'.files[p] == s.files[p])
      && (t.phase.Closed? && TempOf(w, t) in s'.files ==>
            && TempOf(w, t) in s.files && s'.files[TempOf(w, t)] == s.files[TempOf(w, t)]
            && (s.files[TempOf(w, t)] in s.inodes ==>
                  s.files[TempOf(w, t)] in s'.inodes
                      && s'.inodes[s.files[TempOf(w, t)]] == s.inodes[s.files[TempOf(w, t)]]))
  }

  lemma TaskFrame(w: World, s: State, s': State, t: Task)
    requires TaskOk(w, s, t) && Undisturbed(w, s, s', t)
    ensures TaskOk(w, s', t)
  {
  }

  lemma SameStoreUndisturbed(w: World, s: State, s': State, t: Task)
    requires SameStore(s, s')
    ensures Undisturbed(w, s, s', t)
  {
  }

  /** It remains to look at the task that moved. */
  lemma TasksFrame(w: World, s: State, s': State, id: nat)
    requires TasksOk(w, s) && OthersStay(s, s', id)
    requires forall j :: j in s'.tasks && j != id ==> Undisturbed(w, s, s', s'.tasks[j])
    requires id in s'.tasks ==> TaskOk(w, s', s'.tasks[id])
    ensures TasksOk(w, s')
  {
    forall j | j in s'.tasks
      ensures TaskOk(w, s', s'.tasks[j])
    {
      if j != id {
        TaskFrame(w, s, s', s'.tasks[j]);
      }
    }
  }

  lemma ApartFrame(s: State, s': State, id: nat)
    requires TasksApart(s) && OthersStay(s, s', id)
    requires forall j :: j in s'.tasks && id in s'.tasks && j != id ==> Apart(s'.tasks[id], s'.tasks[j])
    ensures TasksApart(s')
  {
    forall i, j | i in s'.tasks && j in s'.tasks && i != j
      ensures Apart(s'.tasks[i], s'.tasks[j])
    {
      if i != id && j == id {
        assert Apart(s'.tasks[id], s'.tasks[i]);
      }
    }
  }

  lemma PathsFrame(w: World, s: State, s': State)
    requires PathsOk(w, s) && s'.published == s.published
    requires forall p :: p in s'.files ==> p in s.files && s'.files[p] == s.files[p]
    ensures PathsOk(w, s')
  {
    forall p
      ensures PathOk(w, s', p)
    {
      assert PathOk(w, s, p);
    }
  }

  /** Steps of one task that only read the store. */
  lemma ReaderFrame(w: World, s: State, s': State, id: nat)
    requires Inv(w, s) && SameStore(s, s') && OthersStay(s, s', id)
    requires id in s'.tasks ==> TaskOk(w, s', s'.tasks[id])
    requires forall j :: j in s'.tasks && id in s'.tasks && j != id ==> Apart(s'.tasks[id], s'.tasks[j])
    requires AnswersOk(w, s')
    ensures Inv(w, s')
  {
    forall j | j in s'.tasks && j != id
      ensures Undisturbed(w, s, s', s'.tasks[j])
    {
      SameStoreUndisturbed(w, s, s', s'.tasks[j]);
    }
    TasksFrame(w, s, s', id);
    ApartFrame(s, s', id);
    PathsFrame(w, s, s');
  }

  /** Steps that end tasks, remove files or do both. */
  lemma ShrinkFrame(w: World, s: State, s': State)
    requires Inv(w, s) && s'.inodes == s.inodes && s'.next == s.next && s'.published == s.published
    requires forall p :: p in s'.files ==> p in s.files && s'.files[p] == s.files[p]
    requires forall j :: j in s'.tasks ==> j in s.tasks && s'.tasks[j] == s.tasks[j]
    requires forall j :: j in s'.tasks ==> CounterOf(s', s'.tasks[j].pid) >= CounterOf(s, s'.tasks[j].pid)
    requires AnswersOk(w, s')
    ensures Inv(w, s')
  {
    forall j | j in s'.tasks
      ensures TaskOk(w, s', s'.tasks[j])
    {
      TaskFrame(w, s, s', s'.tasks[j]);
    }
    PathsFrame(w, s, s');
  }

  // ---------- Every step keeps the invariant ----------

  lemma BeginLoadKeeps(w: World, s: State, id: nat, pid: nat, x: Subject)
    requires Inv(w, s) && id !in s.tasks && SubjectInRange(x)
    ensures Inv(w, DoBeginLoad(w, s, id, pid, x))
  {
    assert PathOk(w, s, EntryOf(w, x));
    ReaderFrame(w, s, DoBeginLoad(w, s, id, pid, x), id);
  }

  lemma PrefixGrows(got: string, all: string, k: nat)
    requires got <= all && |got| + k <= |all|
    ensures got + all[|got|..|got| + k] <= all
  {
  }

  lemma ReadChunkKeeps(w: World, s: State, id: nat, k: nat)
    requires Inv(w, s) && CanRead(s, id, k)
    ensures Inv(w, DoRead(s, id, k))
  {
    var t := s.tasks[id];
    assert TaskOk(w, s, t);
    PrefixGrows(t.got, s.inodes[t.ino], k);
    ReaderFrame(w, s, DoRead(s, id, k), id);
  }

  /** A load that has reached the end of its file has read one whole record of its subject: never a half-written one. */
  lemma WholeRead(w: World, s: State, id: nat)
    requires Sound(w) && Inv(w, s) && AtEnd(s, id)
    ensures var t := s.tasks[id];
            && t.ino in s.published && s.published[t.ino].x == t.x
            && t.got == Image(w, s.published[t.ino])
            && AnswerOk(w, t.x, Parsed(w, t.got))
  {
    var t := s.tasks[id];
    assert TaskOk(w, s, t);
    var o := s.published[t.ino];
    StemsSeparate(w.digest, o.x, t.x);
    assert Fresh(w, o.x, o.time).WithCached(true).WithCached(false) == Fresh(w, t.x, o.time);
  }

  lemma EndLoadKeeps(w: World, s: State, id: nat)
    requires Sound(w) && Inv(w, s) && AtEnd(s, id)
    ensures Inv(w, Reply(EndTask(s, id), s.tasks[id].x, Parsed(w, s.tasks[id].got)))
  {
    WholeRead(w, s, id);
    ShrinkFrame(w, s, Reply(EndTask(s, id), s.tasks[id].x, Parsed(w, s.tasks[id].got)));
  }

  lemma AbortLoadKeeps(w: World, s: State, id: nat)
    requires Inv(w, s) && id in s.tasks
    ensures Inv(w, Reply(EndTask(s, id), s.tasks[id].x, Miss))
  {
    ShrinkFrame(w, s, Reply(EndTask(s, id), s.tasks[id].x, Miss));
  }

  lemma BeginStoreKeeps(w: World, s: State, id: nat, pid: nat, x: Subject, time: nat)
    requires Inv(w, s) && id !in s.tasks && SubjectInRange(x)
    ensures Inv(w, DoBeginStore(s, id, pid, x, time))
  {
    var s' := DoBeginStore(s, id, pid, x, time);
    forall j | j in s'.tasks && j != id
      ensures Apart(s'.tasks[id], s'.tasks[j])
    {
      assert TaskOk(w, s, s.tasks[j]);
    }
    ReaderFrame(w, s, s', id);
  }

  /**
  The inode that `CreateTemp` opens is free or the leftover of a dead process: not published, and named by
  no other path.
   */
  lemma CreatedInode(w: World, s: State, id: nat)
    requires PublishedWhole(w, s) && Linked(s) && PathsOk(w, s) && InStore(s, id)
    ensures var path := TempOf(w, s.tasks[id]);
            var ino := DoCreate(w, s, id).files[path];
            && ino !in s.published && ino <= s.next && (ino == s.next <==> path !in s.files)
            && forall p :: p in s.files && s.files[p] == ino ==> p == path
  {
    assert PathOk(w, s, TempOf(w, s.tasks[id]));
  }

  lemma CreateDisturbsNone(w: World, s: State, id: nat, j: nat)
    requires PublishedWhole(w, s) && Linked(s) && PathsOk(w, s) && InStore(s, id)
    requires j in s.tasks && j != id && TaskOk(w, s, s.tasks[j]) && Apart(s.tasks[id], s.tasks[j])
    ensures var s' := DoCreate(w, s, id); Undisturbed(w, s, s', s.tasks[j]) && Apart(s'.tasks[id], s.tasks[j])
  {
    CreatedInode(w, s, id);
    if s.tasks[j].Storing? {
      assert TempOf(w, s.tasks[j]) != TempOf(w, s.tasks[id]);
    }
  }

  lemma CreatePaths(w: World, s: State, id: nat)
    requires PublishedWhole(w, s) && Linked(s) && PathsOk(w, s) && InStore(s, id)
    ensures PublishedWhole(w, DoCreate(w, s, id)) && Linked(DoCreate(w, s, id)) && PathsOk(w, DoCreate(w, s, id))
  {
    CreatedInode(w, s, id);
    forall p
      ensures PathOk(w, DoCreate(w, s, id), p)
    {
      assert PathOk(w, s, p);
    }
  }

  lemma CreatedTask(w: World, s: State, id: nat)
    requires PublishedWhole(w, s) && Linked(s) && PathsOk(w, s) && InStore(s, id) && TaskOk(w, s, s.tasks[id])
    ensures TaskOk(w, DoCreate(w, s, id), DoCreate(w, s, id).tasks[id])
  {
    CreatedInode(w, s, id);
  }

  lemma CreateTempKeeps(w: World, s: State, id: nat)
    requires Inv(w, s) && InStore(s, id)
    ensures Inv(w, DoCreate(w, s, id))
  {
    var s' := DoCreate(w, s, id);
    CreatePaths(w, s, id);
    CreatedTask(w, s, id);
    forall j | j in s'.tasks && j != id
      ensures Undisturbed(w, s, s', s'.tasks[j]) && Apart(s'.tasks[id], s'.tasks[j])
    {
      assert TaskOk(w, s, s.tasks[j]) && Apart(s.tasks[id], s.tasks[j]);
      CreateDisturbsNone(w, s, id, j);
    }
    TasksFrame(w, s, s', id);
    ApartFrame(s, s', id);
  }

  lemma WriteDisturbsNone(w: World, s: State, id: nat, k: nat, j: nat)
    requires Inv(w, s) && CanWrite(w, s, id, k) && j in s.tasks && j != id
    ensures var s' := DoWrite(w, s, id, k); Undisturbed(w, s, s', s.tasks[j]) && Apart(s'.tasks[id], s.tasks[j])
  {
    assert TaskOk(w, s, s.tasks[id]) && TaskOk(w, s, s.tasks[j]) && Apart(s.tasks[id], s.tasks[j]);
  }

  lemma WrittenTask(w: World, s: State, id: nat, k: nat)
    requires CanWrite(w, s, id, k) && TaskOk(w, s, s.tasks[id])
    ensures TaskOk(w, DoWrite(w, s, id, k), DoWrite(w, s, id, k).tasks[id])
  {
    var all, at := ImageOf(w, s.tasks[id]), s.tasks[id].phase.written;
    assert all[..at] + all[at..at + k] == all[..at + k];
  }

  lemma WriteStore(w: World, s: State, id: nat, k: nat)
    requires PublishedWhole(w, s) && Linked(s) && CanWrite(w, s, id, k) && TaskOk(w, s, s.tasks[id])
    ensures PublishedWhole(w, DoWrite(w, s, id, k)) && Linked(DoWrite(w, s, id, k))
  {
  }

  lemma WriteChunkKeeps(w: World, s: State, id: nat, k: nat)
    requires Inv(w, s) && CanWrite(w, s, id, k)
    ensures Inv(w, DoWrite(w, s, id, k))
  {
    var s' := DoWrite(w, s, id, k);
    WriteStore(w, s, id, k);
    WrittenTask(w, s, id, k);
    forall j | j in s'.tasks && j != id
      ensures Undisturbed(w, s, s', s'.tasks[j]) && Apart(s'.tasks[id], s'.tasks[j])
    {
      WriteDisturbsNone(w, s, id, k, j);
    }
    TasksFrame(w, s, s', id);
    ApartFrame(s, s', id);
    PathsFrame(w, s, s');
  }

  lemma CloseTempKeeps(w: World, s: State, id: nat)
    requires Inv(w, s) && CanClose(w, s, id)
    ensures Inv(w, SetPhase(s, id, Closed))
  {
    var s' := SetPhase(s, id, Closed);
    var t := s.tasks[id];
    assert TaskOk(w, s, t);
    forall j | j in s'.tasks && j != id
      ensures Apart(s'.tasks[id], s'.tasks[j])
    {
      assert Apart(t, s.tasks[j]);
    }
    ReaderFrame(w, s, s', id);
  }

  lemma PublishDisturbsNone(w: World, s: State, id: nat, j: nat)
    requires Inv(w, s) && CanPublish(w, s, id) && j in s.tasks && j != id
    ensures Undisturbed(w, s, DoPublish(w, s, id), s.tasks[j])
  {
    assert TaskOk(w, s, s.tasks[j]) && Apart(s.tasks[id], s.tasks[j]) && PathOk(w, s, TempOf(w, s.tasks[id]));
  }

  lemma PublishStore(w: World, s: State, id: nat)
    requires PublishedWhole(w, s) && Linked(s) && PathsOk(w, s) && CanPublish(w, s, id) && TaskOk(w, s, s.tasks[id])
    ensures PublishedWhole(w, DoPublish(w, s, id)) && Linked(DoPublish(w, s, id)) && PathsOk(w, DoPublish(w, s, id))
  {
    forall p
      ensures PathOk(w, DoPublish(w, s, id), p)
    {
      assert PathOk(w, s, p);
    }
  }

  lemma PublishKeeps(w: World, s: State, id: nat)
    requires Inv(w, s) && CanPublish(w, s, id)
    ensures Inv(w, DoPublish(w, s, id))
  {
    var s' := DoPublish(w, s, id);
    PublishStore(w, s, id);
    forall j | j in s'.tasks && j != id
      ensures Undisturbed(w, s, s', s'.tasks[j])
    {
      PublishDisturbsNone(w, s, id, j);
    }
    TasksFrame(w, s, s', id);
    ApartFrame(s, s', id);
  }

  lemma EndTaskKeeps(w: World, s: State, id: nat)
    requires Inv(w, s)
    ensures Inv(w, EndTask(s, id))
  {
    ShrinkFrame(w, s, EndTask(s, id));
  }

  lemma DeleteKeeps(w: World, s: State, path: Path)
    requires Inv(w, s)
    ensures Inv(w, s.(files := s.files - {path}))
  {
    ShrinkFrame(w, s, s.(files := s.files - {path}));
  }

  lemma CrashKeeps(w: World, s: State, pid: nat)
    requires Inv(w, s)
    ensures Inv(w, DoCrash(s, pid))
  {
    ShrinkFrame(w, s, DoCrash(s, pid));
  }

  lemma FailPublishKeeps(w: World, s: State, id: nat, removed: bool)
    requires Inv(w, s) && InStore(s, id)
    ensures Inv(w, DoFailPublish(w, s, id, removed))
  {
    EndTaskKeeps(w, s, id);
    DeleteKeeps(w, EndTask(s, id), TempOf(w, s.tasks[id]));
  }

  lemma StepKeeps(w: World, s: State, step: Step)
    requires Sound(w) && Inv(w, s) && Enabled(w, s, step)
    ensures Inv(w, Apply(w, s, step))
  {
    match step
    case BeginLoad(id, pid, x) => BeginLoadKeeps(w, s, id, pid, x);
    case ReadChunk(id, k) => ReadChunkKeeps(w, s, id, k);
    case EndLoad(id) => EndLoadKeeps(w, s, id);
    case AbortLoad(id) => AbortLoadKeeps(w, s, id);
    case BeginStore(id, pid, x, time) => BeginStoreKeeps(w, s, id, pid, x, time);
    case CreateTemp(id) => CreateTempKeeps(w, s, id);
    case WriteChunk(id, k) => WriteChunkKeeps(w, s, id, k);
    case CloseTemp(id) => CloseTempKeeps(w, s, id);
    case FailStore(id) => EndTaskKeeps(w, s, id);
    case Publish(id) => PublishKeeps(w, s, id);
    case FailPublish(id, removed) => FailPublishKeeps(w, s, id, removed);
    case Crash(pid) => CrashKeeps(w, s, pid);
    case Delete(path) => DeleteKeeps(w, s, path);
  }

  // ---------- Runs ----------

  /** An empty cache directory, or one that holds nothing but leftover temporary files. */
  ghost predicate Init(s: State) {
    && Linked(s) && (forall p :: p in s.files ==> p.Temp?)
    && s.tasks == map[] && s.counters == map[] && s.published == map[] && s.answers == []
  }

  ghost predicate Run(w: World, s: State, steps: seq<Step>)
    decreases |steps|
  {
    steps == [] || (Enabled(w, s, steps[0]) && Run(w, Apply(w, s, steps[0]), steps[1..]))
  }

  ghost function After(w: World, s: State, steps: seq<Step>): State
    requires Run(w, s, steps)
    decreases |steps|
  {
    if steps == [] then s else After(w, Apply(w, s, steps[0]), steps[1..])
  }

  lemma InitHolds(w: World, s: State)
    requires Init(s)
    ensures Inv(w, s)
  {
    forall p
      ensures PathOk(w, s, p)
    {
    }
  }

  lemma {:induction false} RunKeeps(w: World, s: State, steps: seq<Step>)
    requires Sound(w) && Inv(w, s) && Run(w, s, steps)
    ensures Inv(w, After(w, s, steps))
    decreases |steps|
  {
    if steps != [] {
      StepKeeps(w, s, steps[0]);
      RunKeeps(w, Apply(w, s, steps[0]), steps[1..]);
    }
  }

  /**
  In every interleaving of loads, stores, failures, deletions and crashes, every answer so far is a miss or a
  hit equal to what a fresh run on the same inputs returns, apart from the `cached` flag.
   */
  lemma EveryHitIsFresh(w: World, s: State, steps: seq<Step>, i: nat)
    requires Sound(w) && Init(s) && Run(w, s, steps) && i < |After(w, s, steps).answers|
    ensures AnswerOk(w, After(w, s, steps).answers[i].0, After(w, s, steps).answers[i].1)
  {
    InitHolds(w, s);
    RunKeeps(w, s, steps);
  }

  ghost predicate IsRecordOf(w: World, x: Subject, text: string) {
    exists time :: text == Image(w, Origin(x, time))
  }

  lemma ReadsRecord(w: World, s: State, id: nat)
    requires Sound(w) && Inv(w, s) && AtEnd(s, id)
    ensures IsRecordOf(w, s.tasks[id].x, s.tasks[id].got)
  {
    WholeRead(w, s, id);
    var o := s.published[s.tasks[id].ino];
    assert Origin(o.x, o.time) == o;
  }

  /**
  And no load that reaches the end of its file, at any point of any run, has read anything but one whole
  stored record.
   */
  lemma NoTornRead(w: World, s: State, steps: seq<Step>, id: nat)
    requires Sound(w) && Init(s) && Run(w, s, steps) && AtEnd(After(w, s, steps), id)
    ensures IsRecordOf(w, After(w, s, steps).tasks[id].x, After(w, s, steps).tasks[id].got)
  {
    InitHolds(w, s);
    RunKeeps(w, s, steps);
    ReadsRecord(w, After(w, s, steps), id);
  }

  /**
  A load that reads its file to the end misses exactly when the verdict contradicts itself: an item that is not
  rejected has a failed obligation.
   */
  lemma CompleteLoadHitsIff(w: World, s: State, steps: seq<Step>, id: nat)
    requires Sound(w) && Init(s) && Run(w, s, steps) && AtEnd(After(w, s, steps), id)
    ensures var t := After(w, s, steps).tasks[id];
            Parsed(w, t.got).Miss?
            <==> match w.verify(t.x)
                 case ItemVerdict(rejected, obligations, _) => !rejected && Failed in obligations
                 case Accessible(_) => false
  {
    InitHolds(w, s);
    RunKeeps(w, s, steps);
    WholeRead(w, After(w, s, steps), id);
  }

  /** A published record stays readable as it is: no later step of any kind changes the text of its inode. */
  lemma {:induction false} PublishedIsForever(w: World, s: State, steps: seq<Step>, i: nat)
    requires Sound(w) && Inv(w, s) && Run(w, s, steps) && i in s.published
    ensures i in After(w, s, steps).published && i in After(w, s, steps).inodes
    ensures After(w, s, steps).published[i] == s.published[i] && After(w, s, steps).inodes[i] == s.inodes[i]
    decreases |steps|
  {
    if steps != [] {
      var s' := Apply(w, s, steps[0]);
      StepKeeps(w, s, steps[0]);
      PublishedStays(w, s, steps[0], i);
      PublishedIsForever(w, s', steps[1..], i);
    }
  }

  ghost predicate StillPublished(s: State, s': State, i: nat) {
    i in s.published && i in s.inodes ==>
      i in s'.published && s'.published[i] == s.published[i] && i in s'.inodes && s'.inodes[i] == s.inodes[i]
  }

  lemma CreateLeaves(w: World, s: State, id: nat, i: nat)
    requires Inv(w, s) && InStore(s, id)
    ensures StillPublished(s, DoCreate(w, s, id), i)
  {
    CreatedInode(w, s, id);
  }

  lemma WriteLeaves(w: World, s: State, id: nat, k: nat, i: nat)
    requires CanWrite(w, s, id, k) && TaskOk(w, s, s.tasks[id])
    ensures StillPublished(s, DoWrite(w, s, id, k), i)
  {
  }

  lemma PublishLeaves(w: World, s: State, id: nat, i: nat)
    requires CanPublish(w, s, id) && PathOk(w, s, TempOf(w, s.tasks[id]))
    ensures StillPublished(s, DoPublish(w, s, id), i)
  {
  }

  lemma PublishedStays(w: World, s: State, step: Step, i: nat)
    requires Inv(w, s) && Enabled(w, s, step)
    ensures StillPublished(s, Apply(w, s, step), i)
  {
    match step
    case CreateTemp(id) => CreateLeaves(w, s, id, i);
    case WriteChunk(id, k) =>
      assert TaskOk(w, s, s.tasks[id]);
      WriteLeaves(w, s, id, k, i);
    case Publish(id) =>
      assert PathOk(w, s, TempOf(w, s.tasks[id]));
      PublishLeaves(w, s, id, i);
    case _ =>
  }

  // ---------- The cache does serve what is stored ----------

  /** A store that runs to its end leaves the entry of its subject in place, with the text of its record. */
  lemma StorePublishes(w: World, s: State, id: nat, pid: nat, x: Subject, time: nat)
    requires Inv(w, s) && id !in s.tasks && SubjectInRange(x)
    ensures var image := Image(w, Origin(x, time));
            var steps := [BeginStore(id, pid, x, time), CreateTemp(id), WriteChunk(id, |image|),
                          CloseTemp(id), Publish(id)];
            && Run(w, s, steps)
            && var e := After(w, s, steps);
               id !in e.tasks && EntryOf(w, x) in e.files && e.files[EntryOf(w, x)] in e.inodes
                   && e.inodes[e.files[EntryOf(w, x)]] == image
  {
    var image := Image(w, Origin(x, time));
    var a := DoBeginStore(s, id, pid, x, time);
    var b := DoCreate(w, a, id);
    var c := DoWrite(w, b, id, |image|);
    var d := SetPhase(c, id, Closed);
    Written(w, a, id);
    RunOf5(w, s, BeginStore(id, pid, x, time), a, CreateTemp(id), b, WriteChunk(id, |image|), c,
           CloseTemp(id), d, Publish(id));
  }

  lemma Written(w: World, a: State, id: nat)
    requires InStore(a, id)
    ensures var b := DoCreate(w, a, id);
            var image := ImageOf(w, a.tasks[id]);
            && CanWrite(w, b, id, |image|)
            && var c := DoWrite(w, b, id, |image|);
               CanClose(w, c, id) && TempOf(w, a.tasks[id]) in c.files && c.files[TempOf(w, a.tasks[id])] in c.inodes
               && c.inodes[c.files[TempOf(w, a.tasks[id])]] == image
  {
    var image := ImageOf(w, a.tasks[id]);
    assert "" + image[0..0 + |image|] == image;
  }

  lemma RunOf5(w: World, s: State, p1: Step, a: State, p2: Step, b: State, p3: Step, c: State, p4: Step, d: State,
               p5: Step)
    requires Enabled(w, s, p1) && Apply(w, s, p1) == a
    requires Enabled(w, a, p2) && Apply(w, a, p2) == b
    requires Enabled(w, b, p3) && Apply(w, b, p3) == c
    requires Enabled(w, c, p4) && Apply(w, c, p4) == d
    requires Enabled(w, d, p5)
    ensures Run(w, s, [p1, p2, p3, p4, p5]) && After(w, s, [p1, p2, p3, p4, p5]) == Apply(w, d, p5)
  {
    RunOf3(w, b, p3, c, p4, d, p5);
    RunCons(w, a, p2, [p3, p4, p5]);
    RunCons(w, s, p1, [p2, p3, p4, p5]);
  }

  lemma RunOf3(w: World, b: State, p3: Step, c: State, p4: Step, d: State, p5: Step)
    requires Enabled(w, b, p3) && Apply(w, b, p3) == c
    requires Enabled(w, c, p4) && Apply(w, c, p4) == d
    requires Enabled(w, d, p5)
    ensures Run(w, b, [p3, p4, p5]) && After(w, b, [p3, p4, p5]) == Apply(w, d, p5)
  {
    RunCons(w, d, p5, []);
    RunCons(w, c, p4, [p5]);
    RunCons(w, b, p3, [p4, p5]);
  }

  lemma RunCons(w: World, s: State, p: Step, rest: seq<Step>)
    requires Enabled(w, s, p) && Run(w, Apply(w, s, p), rest)
    ensures Run(w, s, [p] + rest) && After(w, s, [p] + rest) == After(w, Apply(w, s, p), rest)
  {
    assert ([p] + rest)[1..] == rest;
  }

  /** A load that runs to its end over an entry answers with the parse of its text. */
  lemma LoadAnswers(w: World, s: State, id: nat, pid: nat, x: Subject)
    requires Inv(w, s) && id !in s.tasks && SubjectInRange(x) && EntryOf(w, x) in s.files
    ensures s.files[EntryOf(w, x)] in s.inodes
    ensures var text := s.inodes[s.files[EntryOf(w, x)]];
            var steps := [BeginLoad(id, pid, x), ReadChunk(id, |text|), EndLoad(id)];
            Run(w, s, steps) && After(w, s, steps).answers == s.answers + [(x, Parsed(w, text))]
  {
    var text := s.inodes[s.files[EntryOf(w, x)]];
    var a := DoBeginLoad(w, s, id, pid, x);
    var b := DoRead(a, id, |text|);
    assert "" + text[0..0 + |text|] == text;
    RunOf3(w, s, BeginLoad(id, pid, x), a, ReadChunk(id, |text|), b, EndLoad(id));
  }
}
