/** Several generated regions in one file: writing one leaves the others, and the text around them, alone. */
module RegionSets {
  import opened Ast
  import opened Text
  import opened Splices
  import opened Regions

  /** One-line markers, blocks that end once, and no region's start marker in another's block. */
  ghost predicate Compatible(ms: seq<Marks>) {
    && (forall i :: 0 <= i < |ms| ==> OneLineMarks(ms[i]) && EndsOnce(ms[i]))
    && forall i, j :: 0 <= i < |ms| && 0 <= j < |ms| && i != j ==> !Contains(BlockOf(ms[j]), ms[i].start)
  }

  /** Bodies of whole lines free of markers, and marker lines that do not contain each other, are enough. */
  ghost predicate MarkerFree(ms: seq<Marks>) {
    && (forall i :: 0 <= i < |ms| ==>
          && OneLineMarks(ms[i]) && (ms[i].body == [] || EndsLine(ms[i].body))
          && !Contains(ms[i].body, ms[i].end) && !Contains(ms[i].start, ms[i].end))
    && forall i, j :: 0 <= i < |ms| && 0 <= j < |ms| && i != j ==>
         !Contains(ms[j].start, ms[i].start) && !Contains(ms[j].body, ms[i].start) && !Contains(ms[j].end, ms[i].start)
  }

  lemma MarkerFreeIsCompatible(ms: seq<Marks>)
    requires MarkerFree(ms)
    ensures Compatible(ms)
  {
    forall i | 0 <= i < |ms|
      ensures OneLineMarks(ms[i]) && EndsOnce(ms[i])
    {
      MarkerFreeBody(ms[i]);
    }
    forall i, j | 0 <= i < |ms| && 0 <= j < |ms| && i != j
      ensures !Contains(BlockOf(ms[j]), ms[i].start)
    {
      BlockLacks(ms[j], ms[i].start);
    }
  }

  ghost predicate Disjoint(a: Option<Span>, b: Option<Span>) {
    a.Some? && b.Some? ==> a.value.hi <= b.value.lo || b.value.hi <= a.value.lo
  }

  /** Every start marker has its end, and no two regions overlap. */
  ghost predicate Paired(t: string, ms: seq<Marks>) {
    && (forall i :: 0 <= i < |ms| ==> !Orphan(t, ms[i]))
    && forall i, j :: 0 <= i < |ms| && 0 <= j < |ms| && i != j ==> Disjoint(SpanOf(t, ms[i]), SpanOf(t, ms[j]))
  }

  predicate Clean(t: string, m: Marks) {
    Region(t, m) == Some(BlockOf(m))
  }

  // ---------- Where another region goes ----------

  /** A span left of the splice stays, one right of it moves. */
  function Moved(s: Option<Span>, b: nat, c: nat, k: string): Option<Span>
    requires b <= c
  {
    match s
    case None => None
    case Some(r) =>
      if r.hi <= b then s
      else if c <= r.lo <= r.hi then Some(Span(r.lo + Shift(b, c, k), r.hi + Shift(b, c, k)))
      else None
  }

  ghost predicate Apart(s: Option<Span>, b: nat, c: nat) {
    s.Some? ==> s.value.hi <= b || c <= s.value.lo
  }

  ghost predicate SpanIs(t: string, m: Marks, lo: nat, hi: nat) {
    SpanOf(t, m) == Some(Span(lo, hi))
  }

  lemma SpanFrom(t: string, m: Marks, a: nat, e: nat, hi: nat)
    requires FindFrom(t, m.start, 0) == a && FindFrom(t, m.end, a) == e && RegionEnd(t, m, e) == hi
    ensures SpanIs(t, m, a, hi)
  {
  }

  /** The end of a region left of the splice stays: the block does not start with a newline. */
  lemma EndStays(t: string, b: nat, c: nat, k: string, u: string, m: Marks, e: nat)
    requires IsSplice(t, b, c, k, u) && k != [] && k[0] != '\n' && RegionEnd(t, m, e) <= b && e + |m.end| <= |t|
    requires b < c || EndsLine(t)
    requires e + |m.end| > 0 && e + |m.end| <= b && t[e + |m.end| - 1] != '\n'
    ensures RegionEnd(u, m, e) == RegionEnd(t, m, e)
  {
    var q := e + |m.end|;
    if q < b {
      assert u[q] == t[q];
    } else {
      assert u[q] == k[0];
    }
  }

  lemma EndMoves(t: string, b: nat, c: nat, k: string, u: string, m: Marks, e: nat)
    requires IsSplice(t, b, c, k, u) && c <= e && e + |m.end| <= |t|
    ensures RegionEnd(u, m, e + Shift(b, c, k)) == RegionEnd(t, m, e) + Shift(b, c, k)
  {
    var q, d := e + |m.end|, Shift(b, c, k);
    if q < |t| {
      assert u[q + d] == t[q];
    }
  }

  lemma EndChar(t: string, m: Marks, e: nat)
    requires OneLine(m.end) && OccursAt(t, m.end, e)
    ensures t[e + |m.end| - 1] != '\n'
  {
    OccurrenceChar(t, m.end, e, |m.end| - 1);
    assert m.end[|m.end| - 1] in m.end;
  }

  /** The end marker does not stand inside the start marker. */
  lemma EndAfterStart(t: string, m: Marks, a: nat, e: nat)
    requires OneLineMarks(m) && EndsOnce(m)
    requires OccursAt(t, m.start, a) && OccursAt(t, m.end, e) && a <= e
    ensures a + |m.start| < e + |m.end|
  {
    if e + |m.end| <= a + |m.start| {
      SliceOfSlice(t, a, a + |m.start|, e - a, e - a + |m.end|);
      EndInStart(m, e - a);
    }
  }

  lemma EndInStart(m: Marks, p: nat)
    requires OneLineMarks(m) && EndsOnce(m) && p + |m.end| <= |m.start|
    ensures m.start[p..p + |m.end|] != m.end
  {
    var k := BlockOf(m);
    assert k[p..p + |m.end|] == m.start[p..p + |m.end|];
    NotBefore(k, m.end, 0, p);
  }

  /** What a splice does to a region it does not touch. */
  lemma SpanMoves(t: string, b: nat, c: nat, k: string, u: string, head: string, m: Marks)
    requires IsSplice(t, b, c, k, u) && OneLineMarks(m) && EndsOnce(m) && OneLine(head) && LinesFrom(k, head)
             && StartsClean(t, b, head)
    requires !Contains(k, m.start) && !Orphan(t, m) && Apart(SpanOf(t, m), b, c) && (b < c || EndsLine(t))
    ensures SpanOf(u, m) == Moved(SpanOf(t, m), b, c, k)
  {
    var a := FindFrom(t, m.start, 0);
    if a < 0 {
      StillAbsent(t, b, c, k, u, head, m.start);
    } else {
      var e := FindFrom(t, m.end, a);
      SpanFrom(t, m, a, e, RegionEnd(t, m, e));
      FoundAt(t, m.start, 0);
      FoundAt(t, m.end, a);
      EndAfterStart(t, m, a, e);
      if RegionEnd(t, m, e) <= b {
        SpanStays(t, b, c, k, u, head, m, a, e);
      } else {
        SpanGoes(t, b, c, k, u, head, m, a, e, Shift(b, c, k));
      }
    }
  }

  lemma SpanGoes(t: string, b: nat, c: nat, k: string, u: string, head: string, m: Marks, a: nat, e: nat, d: int)
    requires IsSplice(t, b, c, k, u) && OneLineMarks(m) && LinesFrom(k, head) && StartsClean(t, b, head)
             && !Contains(k, m.start)
    requires FindFrom(t, m.start, 0) == a && FindFrom(t, m.end, a) == e && c <= a
    requires d == Shift(b, c, k)
    ensures 0 <= a + d && SpanIs(u, m, a + d, RegionEnd(t, m, e) + d)
  {
    FindsGo(t, b, c, k, u, head, m, a, e, d);
    SpanFrom(u, m, a + d, e + d, RegionEnd(t, m, e) + d);
  }

  lemma FindsGo(t: string, b: nat, c: nat, k: string, u: string, head: string, m: Marks, a: nat, e: nat, d: int)
    requires IsSplice(t, b, c, k, u) && OneLineMarks(m) && LinesFrom(k, head) && StartsClean(t, b, head)
             && !Contains(k, m.start)
    requires FindFrom(t, m.start, 0) == a && FindFrom(t, m.end, a) == e && c <= a
    requires d == Shift(b, c, k)
    ensures 0 <= a + d <= e + d && FindFrom(u, m.start, 0) == a + d && FindFrom(u, m.end, a + d) == e + d
    ensures RegionEnd(u, m, e + d) == RegionEnd(t, m, e) + d
  {
    FoundAfter(t, b, c, k, u, head, m.start);
    FindRight(t, b, c, k, u, m.end, a);
    EndMoves(t, b, c, k, u, m, e);
  }

  lemma SpanStays(t: string, b: nat, c: nat, k: string, u: string, head: string, m: Marks, a: nat, e: nat)
    requires IsSplice(t, b, c, k, u) && OneLineMarks(m) && OneLine(head) && LinesFrom(k, head)
    requires FindFrom(t, m.start, 0) == a && FindFrom(t, m.end, a) == e && RegionEnd(t, m, e) <= b
    requires a + |m.start| <= b && (b < c || EndsLine(t))
    ensures SpanIs(u, m, a, RegionEnd(t, m, e))
  {
    FoundAt(t, m.end, a);
    EndChar(t, m, e);
    assert k[..|head|][0] in head;
    FindLeft(t, b, c, k, u, m.start, 0);
    FindLeft(t, b, c, k, u, m.end, a);
    EndStays(t, b, c, k, u, m, e);
    SpanFrom(u, m, a, e, RegionEnd(t, m, e));
  }

  /** Its text is the same. */
  lemma MovedText(t: string, b: nat, c: nat, k: string, u: string, s: Span)
    requires IsSplice(t, b, c, k, u) && s.lo <= s.hi <= |t| && Apart(Some(s), b, c)
    ensures var r := Moved(Some(s), b, c, k);
            r.Some? && r.value.lo <= r.value.hi <= |u|
            && u[r.value.lo..r.value.hi] == t[s.lo..s.hi]
  {
    var d := Shift(b, c, k);
    if s.hi <= b {
      assert u[s.lo..s.hi] == t[s.lo..s.hi];
    } else {
      assert u[s.lo + d..s.hi + d] == t[s.lo..s.hi];
    }
  }

  // ---------- Padding before an append ----------

  function PaddedSpan(t: string, s: Option<Span>): Option<Span> {
    match s
    case None => None
    case Some(r) => if r.hi == |t| && !EndsLine(t) then Some(Span(r.lo, r.hi + 1)) else s
  }

  /** Padding moves no region; one that ended with the file gets the newline. */
  lemma PaddingKeeps(t: string, m: Marks)
    requires OneLineMarks(m)
    ensures SpanOf(Padded(t), m) == PaddedSpan(t, SpanOf(t, m))
    ensures Orphan(Padded(t), m) <==> Orphan(t, m)
  {
    var a := FindFrom(t, m.start, 0);
    PaddedFind(t, m.start, 0);
    if a >= 0 {
      var e := FindFrom(t, m.end, a);
      PaddedFind(t, m.end, a);
      if e >= 0 {
        FoundAt(t, m.end, a);
        EndChar(t, m, e);
        SpanFrom(t, m, a, e, RegionEnd(t, m, e));
        PaddedEnd(t, m, e);
        SpanFrom(Padded(t), m, a, e, RegionEnd(Padded(t), m, e));
      }
    }
  }

  lemma PaddingKeepsClean(t: string, m: Marks)
    requires OneLineMarks(m) && Clean(t, m)
    ensures Clean(Padded(t), m)
  {
    PaddingKeeps(t, m);
    CleanEndsLine(t, m);
    var s := SpanOf(t, m).value;
    assert Padded(t)[s.lo..s.hi] == t[s.lo..s.hi];
  }

  lemma CleanEndsLine(t: string, m: Marks)
    requires Clean(t, m)
    ensures SpanOf(t, m).value.hi == |t| ==> EndsLine(t)
  {
    var s := SpanOf(t, m).value;
    var k := BlockOf(m);
    assert k[|k| - 1] == '\n';
    assert t[s.lo..s.hi][|k| - 1] == t[s.lo + |k| - 1];
  }

  lemma PaddedEnd(t: string, m: Marks, e: nat)
    requires e + |m.end| <= |t| && m.end != [] && t[e + |m.end| - 1] != '\n'
    ensures RegionEnd(Padded(t), m, e)
            == if RegionEnd(t, m, e) == |t| && !EndsLine(t) then RegionEnd(t, m, e) + 1 else RegionEnd(t, m, e)
  {
    var q := e + |m.end|;
    if q < |t| {
      assert Padded(t)[q] == t[q];
    } else {
      assert Padded(t)[q] == '\n';
    }
  }

  lemma PaddingPaired(t: string, ms: seq<Marks>)
    requires Compatible(ms) && Paired(t, ms)
    ensures Paired(Padded(t), ms)
    ensures forall i :: 0 <= i < |ms| && Clean(t, ms[i]) ==> Clean(Padded(t), ms[i])
  {
    forall i | 0 <= i < |ms|
      ensures SpanOf(Padded(t), ms[i]) == PaddedSpan(t, SpanOf(t, ms[i]))
      ensures !Orphan(Padded(t), ms[i])
      ensures Clean(t, ms[i]) ==> Clean(Padded(t), ms[i])
    {
      PaddingKeeps(t, ms[i]);
      if Clean(t, ms[i]) {
        PaddingKeepsClean(t, ms[i]);
      }
    }
    forall i, j | 0 <= i < |ms| && 0 <= j < |ms| && i != j
      ensures Disjoint(SpanOf(Padded(t), ms[i]), SpanOf(Padded(t), ms[j]))
    {
      PaddedDisjoint(t, ms[i], ms[j]);
    }
  }

  lemma PaddedDisjoint(t: string, m: Marks, n: Marks)
    requires OneLineMarks(m) && OneLineMarks(n) && Disjoint(SpanOf(t, m), SpanOf(t, n))
    ensures Disjoint(PaddedSpan(t, SpanOf(t, m)), PaddedSpan(t, SpanOf(t, n)))
  {
    SpanInside(t, m);
    SpanInside(t, n);
  }

  lemma SpanInside(t: string, m: Marks)
    requires OneLineMarks(m)
    ensures SpanOf(t, m).Some? ==> SpanOf(t, m).value.lo < |t| && SpanOf(t, m).value.lo < SpanOf(t, m).value.hi
  {
  }

  // ---------- One write among several regions ----------

  /** Where the writer puts the block of `m`, in which text. */
  function Base(t: string, m: Marks): string {
    if SpanOf(t, m).Some? then t else Padded(t)
  }

  function Place(t: string, m: Marks): Span {
    match SpanOf(t, m)
    case Some(s) => s
    case None => Span(|Padded(t)|, |Padded(t)|)
  }

  lemma PutAtPlace(t: string, m: Marks)
    requires OneLineMarks(m)
    ensures Place(t, m).lo <= Place(t, m).hi <= |Base(t, m)|
    ensures IsSplice(Base(t, m), Place(t, m).lo, Place(t, m).hi, BlockOf(m), Put(t, m))
    ensures StartsClean(Base(t, m), Place(t, m).lo, m.start)
    ensures Place(t, m).lo < Place(t, m).hi || EndsLine(Base(t, m))
  {
    PutIsSplice(t, m);
    SpanInside(t, m);
  }

  /** The other regions lie apart from the place of the write. */
  lemma OthersApart(t: string, ms: seq<Marks>, j: nat, i: nat)
    requires Compatible(ms) && Paired(t, ms) && i < |ms| && j < |ms| && i != j
    ensures Paired(Base(t, ms[j]), ms) && Apart(SpanOf(Base(t, ms[j]), ms[i]), Place(t, ms[j]).lo, Place(t, ms[j]).hi)
    ensures Clean(t, ms[i]) ==> Clean(Base(t, ms[j]), ms[i])
  {
    if SpanOf(t, ms[j]).None? {
      PaddingPaired(t, ms);
    }
  }

  lemma OtherMoves(t: string, ms: seq<Marks>, j: nat, i: nat)
    requires Compatible(ms) && Paired(t, ms) && i < |ms| && j < |ms| && i != j
    ensures SpanOf(Put(t, ms[j]), ms[i])
            == Moved(SpanOf(Base(t, ms[j]), ms[i]), Place(t, ms[j]).lo, Place(t, ms[j]).hi, BlockOf(ms[j]))
    ensures SpanOf(Put(t, ms[j]), ms[i]).Some? <==> SpanOf(Base(t, ms[j]), ms[i]).Some?
  {
    PutAtPlace(t, ms[j]);
    OthersApart(t, ms, j, i);
    BlockShape(ms[j]);
    SpanMoves(Base(t, ms[j]), Place(t, ms[j]).lo, Place(t, ms[j]).hi, BlockOf(ms[j]), Put(t, ms[j]), ms[j].start,
        ms[i]);
  }

  /** A region that is up to date stays so when another one is written. */
  lemma OtherStaysClean(t: string, ms: seq<Marks>, j: nat, i: nat)
    requires Compatible(ms) && Paired(t, ms) && i < |ms| && j < |ms| && i != j && Clean(t, ms[i])
    ensures Clean(Put(t, ms[j]), ms[i])
  {
    OthersApart(t, ms, j, i);
    OtherMoves(t, ms, j, i);
    PutAtPlace(t, ms[j]);
    MovedText(Base(t, ms[j]), Place(t, ms[j]).lo, Place(t, ms[j]).hi, BlockOf(ms[j]), Put(t, ms[j]),
              SpanOf(Base(t, ms[j]), ms[i]).value);
  }

  /** An absent region stays absent, so that no orphan marker comes about. */
  lemma OtherStaysWhole(t: string, ms: seq<Marks>, j: nat, i: nat)
    requires Compatible(ms) && Paired(t, ms) && i < |ms| && j < |ms| && i != j
    ensures !Orphan(Put(t, ms[j]), ms[i])
  {
    PutAtPlace(t, ms[j]);
    OthersApart(t, ms, j, i);
    OtherMoves(t, ms, j, i);
    BlockShape(ms[j]);
    if !Contains(Base(t, ms[j]), ms[i].start) {
      StillAbsent(Base(t, ms[j]), Place(t, ms[j]).lo, Place(t, ms[j]).hi, BlockOf(ms[j]), Put(t, ms[j]),
          ms[j].start, ms[i].start);
    }
  }

  /** The written region itself. */
  lemma WrittenPlace(t: string, ms: seq<Marks>, j: nat)
    requires Compatible(ms) && Paired(t, ms) && j < |ms|
    ensures Clean(Put(t, ms[j]), ms[j])
    ensures SpanOf(Put(t, ms[j]), ms[j]) == Some(Span(Place(t, ms[j]).lo, Place(t, ms[j]).lo + |BlockOf(ms[j])|))
  {
    WrittenSpan(t, ms[j]);
  }

  /** The region of `m` is its block, at `lo`. */
  ghost predicate BlockAt(u: string, m: Marks, lo: nat) {
    Clean(u, m) && SpanOf(u, m) == Some(Span(lo, lo + |BlockOf(m)|))
  }

  lemma WrittenSpan(t: string, m: Marks)
    requires OneLineMarks(m) && EndsOnce(m) && !Orphan(t, m)
    ensures BlockAt(Put(t, m), m, Place(t, m).lo)
  {
    match SpanOf(t, m)
    case Some(s) => Replaced(t, m, s);
    case None => Appended(t, m);
  }

  lemma Replaced(t: string, m: Marks, s: Span)
    requires OneLineMarks(m) && EndsOnce(m) && SpanOf(t, m) == Some(s)
    ensures BlockAt(Put(t, m), m, s.lo)
  {
    PutIsSplice(t, m);
    WrittenAt(t, s.lo, s.hi, m, Put(t, m));
  }

  lemma Appended(t: string, m: Marks)
    requires OneLineMarks(m) && EndsOnce(m) && !Contains(t, m.start)
    ensures BlockAt(Put(t, m), m, |Padded(t)|)
  {
    PutIsSplice(t, m);
    PaddedFind(t, m.start, 0);
    WrittenAt(Padded(t), |Padded(t)|, |Padded(t)|, m, Put(t, m));
  }

  lemma WrittenAt(t: string, b: nat, c: nat, m: Marks, u: string)
    requires IsSplice(t, b, c, BlockOf(m), u) && OneLineMarks(m) && StartsClean(t, b, m.start) && EndsOnce(m)
    requires FindFrom(t, m.start, 0) < 0 || FindFrom(t, m.start, 0) == b
    ensures BlockAt(u, m, b)
  {
    RegionAtBlock(t, b, c, m, u);
  }

  /** A write keeps the file paired, brings its own region up to date and leaves the others so. */
  lemma PutKeeps(t: string, ms: seq<Marks>, j: nat)
    requires Compatible(ms) && Paired(t, ms) && j < |ms|
    ensures Paired(Put(t, ms[j]), ms) && Clean(Put(t, ms[j]), ms[j])
    ensures forall i :: 0 <= i < |ms| && Clean(t, ms[i]) ==> Clean(Put(t, ms[j]), ms[i])
  {
    var u := Put(t, ms[j]);
    WrittenPlace(t, ms, j);
    forall i | 0 <= i < |ms|
      ensures !Orphan(u, ms[i]) && (Clean(t, ms[i]) ==> Clean(u, ms[i]))
    {
      if i != j {
        OtherStaysWhole(t, ms, j, i);
        if Clean(t, ms[i]) {
          OtherStaysClean(t, ms, j, i);
        }
      }
    }
    forall i, h | 0 <= i < |ms| && 0 <= h < |ms| && i != h
      ensures Disjoint(SpanOf(u, ms[i]), SpanOf(u, ms[h]))
    {
      PutDisjoint(t, ms, j, i, h);
    }
  }

  lemma PutDisjoint(t: string, ms: seq<Marks>, j: nat, i: nat, h: nat)
    requires Compatible(ms) && Paired(t, ms) && j < |ms| && i < |ms| && h < |ms| && i != h
    ensures Disjoint(SpanOf(Put(t, ms[j]), ms[i]), SpanOf(Put(t, ms[j]), ms[h]))
  {
    if i == j {
      DisjointFromWritten(t, ms, j, h);
    } else if h == j {
      DisjointFromWritten(t, ms, j, i);
    } else {
      OthersDisjoint(t, ms, j, i, h);
    }
  }

  lemma DisjointFromWritten(t: string, ms: seq<Marks>, j: nat, i: nat)
    requires Compatible(ms) && Paired(t, ms) && j < |ms| && i < |ms| && i != j
    ensures Disjoint(SpanOf(Put(t, ms[j]), ms[i]), SpanOf(Put(t, ms[j]), ms[j]))
  {
    WrittenPlace(t, ms, j);
    OthersApart(t, ms, j, i);
    OtherMoves(t, ms, j, i);
    MovedApart(SpanOf(Base(t, ms[j]), ms[i]), Place(t, ms[j]).lo, Place(t, ms[j]).hi, BlockOf(ms[j]));
  }

  lemma MovedApart(s: Option<Span>, b: nat, c: nat, k: string)
    requires b <= c && Apart(s, b, c)
    ensures Disjoint(Moved(s, b, c, k), Some(Span(b, b + |k|)))
  {
  }

  lemma OthersDisjoint(t: string, ms: seq<Marks>, j: nat, i: nat, h: nat)
    requires Compatible(ms) && Paired(t, ms) && j < |ms| && i < |ms| && h < |ms| && i != h && i != j && h != j
    ensures Disjoint(SpanOf(Put(t, ms[j]), ms[i]), SpanOf(Put(t, ms[j]), ms[h]))
  {
    OthersApart(t, ms, j, i);
    OtherMoves(t, ms, j, i);
    OthersApart(t, ms, j, h);
    OtherMoves(t, ms, j, h);
    MovedDisjoint(SpanOf(Base(t, ms[j]), ms[i]), SpanOf(Base(t, ms[j]), ms[h]),
                  Place(t, ms[j]).lo, Place(t, ms[j]).hi, BlockOf(ms[j]));
  }

  lemma MovedDisjoint(r: Option<Span>, s: Option<Span>, b: nat, c: nat, k: string)
    requires b <= c && Apart(r, b, c) && Apart(s, b, c) && Disjoint(r, s)
    ensures Disjoint(Moved(r, b, c, k), Moved(s, b, c, k))
  {
  }

  // ---------- Writing all regions of a file ----------

  function PutAll(t: string, ms: seq<Marks>, i: nat): string
    requires i <= |ms|
    decreases |ms| - i
  {
    if i == |ms| then t else PutAll(Put(t, ms[i]), ms, i + 1)
  }

  /** After all writes every region of the file is up to date. */
  lemma {:induction false} AllClean(t: string, ms: seq<Marks>, i: nat)
    requires Compatible(ms) && Paired(t, ms) && i <= |ms|
    requires forall h :: 0 <= h < i ==> Clean(t, ms[h])
    ensures Paired(PutAll(t, ms, i), ms)
    ensures forall h :: 0 <= h < |ms| ==> Clean(PutAll(t, ms, i), ms[h])
    decreases |ms| - i
  {
    if i < |ms| {
      PutKeeps(t, ms, i);
      AllClean(Put(t, ms[i]), ms, i + 1);
    }
  }

  /** Writing a region that is up to date changes nothing. */
  lemma PutClean(t: string, m: Marks)
    requires Clean(t, m)
    ensures Put(t, m) == t
  {
    var s := SpanOf(t, m).value;
    assert t == t[..s.lo] + t[s.lo..s.hi] + t[s.hi..];
  }

  // ---------- The text around the regions ----------

  ghost predicate Within(s: Option<Span>, p: int) {
    s.Some? && s.value.lo <= p < s.value.hi
  }

  ghost predicate Inside(p: int, spans: seq<Option<Span>>) {
    exists i :: 0 <= i < |spans| && Within(spans[i], p)
  }

  /** The characters from `lo` to `hi` that lie in none of the regions. */
  ghost function Keep(t: string, lo: nat, hi: nat, spans: seq<Option<Span>>): string
    requires lo <= hi <= |t|
    decreases hi - lo
  {
    if lo == hi then [] else (if Inside(lo, spans) then [] else [t[lo]]) + Keep(t, lo + 1, hi, spans)
  }

  ghost function Around(t: string, spans: seq<Option<Span>>): string {
    Keep(t, 0, |t|, spans)
  }

  ghost function SpansOf(t: string, ms: seq<Marks>): seq<Option<Span>> {
    seq(|ms|, i requires 0 <= i < |ms| => SpanOf(t, ms[i]))
  }

  /** The text of a file outside its regions. */
  ghost function Outside(t: string, ms: seq<Marks>): string {
    Around(t, SpansOf(t, ms))
  }

  lemma {:induction false} KeepSplit(t: string, lo: nat, mid: nat, hi: nat, spans: seq<Option<Span>>)
    requires lo <= mid <= hi <= |t|
    ensures Keep(t, lo, hi, spans) == Keep(t, lo, mid, spans) + Keep(t, mid, hi, spans)
    decreases mid - lo
  {
    if lo < mid {
      KeepSplit(t, lo + 1, mid, hi, spans);
    }
  }

  /** The character at `p` stands `d` further in `u`, and is inside a region in both or in neither. */
  ghost predicate AlignedAt(t: string, ss: seq<Option<Span>>, u: string, d: int, ss': seq<Option<Span>>, p: int) {
    0 <= p < |t| && 0 <= p + d < |u| && t[p] == u[p + d] && (Inside(p, ss) <==> Inside(p + d, ss'))
  }

  lemma {:induction false} KeepAligned(t: string, lo: nat, hi: nat, ss: seq<Option<Span>>, u: string, d: int,
                                       at: nat, end: nat, ss': seq<Option<Span>>)
    requires lo <= hi <= |t| && at == lo + d && end == hi + d && end <= |u|
    requires forall p :: lo <= p < hi ==> AlignedAt(t, ss, u, d, ss', p)
    ensures Keep(u, at, end, ss') == Keep(t, lo, hi, ss)
    decreases hi - lo
  {
    if lo < hi {
      assert AlignedAt(t, ss, u, d, ss', lo);
      KeepAligned(t, lo + 1, hi, ss, u, d, at + 1, end, ss');
    }
  }

  lemma {:induction false} KeepNothing(t: string, lo: nat, hi: nat, spans: seq<Option<Span>>)
    requires lo <= hi <= |t| && forall p :: lo <= p < hi ==> Inside(p, spans)
    ensures Keep(t, lo, hi, spans) == []
    decreases hi - lo
  {
    if lo < hi {
      assert Inside(lo, spans);
      KeepNothing(t, lo + 1, hi, spans);
    }
  }

  lemma {:induction false} KeepNewlines(t: string, lo: nat, hi: nat, spans: seq<Option<Span>>)
    requires lo <= hi <= |t| && forall p :: lo <= p < hi ==> t[p] == '\n'
    ensures forall ch :: ch in Keep(t, lo, hi, spans) ==> ch == '\n'
    decreases hi - lo
  {
    if lo < hi {
      KeepNewlines(t, lo + 1, hi, spans);
    }
  }

  /** How a splice moves the regions: the written one takes the block's place, the others move. */
  ghost predicate SpansMove(ss: seq<Option<Span>>, ss': seq<Option<Span>>, j: nat, b: nat, c: nat, k: string) {
    && b <= c && |ss| == |ss'| && j < |ss|
    && ss[j] == (if b < c then Some(Span(b, c)) else None) && ss'[j] == Some(Span(b, b + |k|))
    && (forall i :: 0 <= i < |ss| && ss[i].Some? ==> ss[i].value.lo <= ss[i].value.hi)
    && forall i :: 0 <= i < |ss| && i != j ==> Apart(ss[i], b, c) && ss'[i] == Moved(ss[i], b, c, k)
  }

  lemma InsideLeft(ss: seq<Option<Span>>, ss': seq<Option<Span>>, j: nat, b: nat, c: nat, k: string, p: nat)
    requires SpansMove(ss, ss', j, b, c, k) && p < b
    ensures Inside(p, ss) <==> Inside(p, ss')
  {
    forall i | 0 <= i < |ss|
      ensures Within(ss[i], p) <==> Within(ss'[i], p)
    {
    }
  }

  lemma InsideRight(ss: seq<Option<Span>>, ss': seq<Option<Span>>, j: nat, b: nat, c: nat, k: string, p: nat)
    requires SpansMove(ss, ss', j, b, c, k) && c <= p
    ensures Inside(p, ss) <==> Inside(p + Shift(b, c, k), ss')
  {
    var d := Shift(b, c, k);
    forall i | 0 <= i < |ss|
      ensures Within(ss[i], p) <==> Within(ss'[i], p + d)
    {
    }
  }

  lemma AlignedLeft(t: string, b: nat, c: nat, k: string, u: string, ss: seq<Option<Span>>,
                    ss': seq<Option<Span>>, j: nat, p: nat)
    requires IsSplice(t, b, c, k, u) && SpansMove(ss, ss', j, b, c, k) && p < b
    ensures AlignedAt(t, ss, u, 0, ss', p)
  {
    InsideLeft(ss, ss', j, b, c, k, p);
  }

  lemma AlignedRight(t: string, b: nat, c: nat, k: string, u: string, ss: seq<Option<Span>>,
                     ss': seq<Option<Span>>, j: nat, p: nat)
    requires IsSplice(t, b, c, k, u) && SpansMove(ss, ss', j, b, c, k) && c <= p < |t|
    ensures AlignedAt(t, ss, u, b + |k| - c, ss', p)
  {
    InsideRight(ss, ss', j, b, c, k, p);
    assert p + Shift(b, c, k) == p + (b + |k| - c);
  }

  /**
  What a splice leaves of the text and of the regions: everything before `b`, and from `c` on everything,
  `d` further.
   */
  ghost predicate SpliceAligned(t: string, b: nat, c: nat, ss: seq<Option<Span>>, u: string, e: nat, d: int,
                                ss': seq<Option<Span>>, j: nat) {
    && b <= c <= |t| && b <= e <= |u| && e == c + d && |u| == |t| + d && j < |ss| && j < |ss'|
    && (b < c ==> ss[j] == Some(Span(b, c))) && (b < e ==> ss'[j] == Some(Span(b, e)))
    && (forall p :: 0 <= p < b ==> AlignedAt(t, ss, u, 0, ss', p))
    && forall p :: c <= p < |t| ==> AlignedAt(t, ss, u, d, ss', p)
  }

  lemma SpliceAligns(t: string, b: nat, c: nat, k: string, u: string, ss: seq<Option<Span>>,
                     ss': seq<Option<Span>>, j: nat)
    requires IsSplice(t, b, c, k, u) && SpansMove(ss, ss', j, b, c, k)
    ensures SpliceAligned(t, b, c, ss, u, b + |k|, b + |k| - c, ss', j)
  {
    var d := b + |k| - c;
    forall p | 0 <= p < b
      ensures AlignedAt(t, ss, u, 0, ss', p)
    {
      AlignedLeft(t, b, c, k, u, ss, ss', j, p);
    }
    forall p | c <= p < |t|
      ensures AlignedAt(t, ss, u, d, ss', p)
    {
      AlignedRight(t, b, c, k, u, ss, ss', j, p);
    }
  }

  lemma SpanKeepsNothing(t: string, ss: seq<Option<Span>>, j: nat, b: nat, c: nat)
    requires b <= c <= |t| && j < |ss| && (b < c ==> ss[j] == Some(Span(b, c)))
    ensures Keep(t, b, c, ss) == []
  {
    forall p | b <= p < c
      ensures Inside(p, ss)
    {
      assert Within(ss[j], p);
    }
    KeepNothing(t, b, c, ss);
  }

  lemma KeepAround(t: string, b: nat, c: nat, ss: seq<Option<Span>>)
    requires b <= c <= |t| && Keep(t, b, c, ss) == []
    ensures Keep(t, 0, |t|, ss) == Keep(t, 0, b, ss) + Keep(t, c, |t|, ss)
  {
    KeepSplit(t, 0, b, |t|, ss);
    KeepSplit(t, b, c, |t|, ss);
  }

  lemma KeepJoined(t: string, u: string, b: nat, c: nat, e: nat, ss: seq<Option<Span>>, ss': seq<Option<Span>>)
    requires b <= c <= |t| && b <= e <= |u| && Keep(t, b, c, ss) == [] && Keep(u, b, e, ss') == []
    requires Keep(u, 0, b, ss') == Keep(t, 0, b, ss) && Keep(u, e, |u|, ss') == Keep(t, c, |t|, ss)
    ensures Keep(u, 0, |u|, ss') == Keep(t, 0, |t|, ss)
  {
    KeepAround(t, b, c, ss);
    KeepAround(u, b, e, ss');
  }

  lemma OutsideSplice(t: string, b: nat, c: nat, ss: seq<Option<Span>>, u: string, e: nat, d: int,
                      ss': seq<Option<Span>>, j: nat)
    requires SpliceAligned(t, b, c, ss, u, e, d, ss', j)
    ensures Around(u, ss') == Around(t, ss)
  {
    SpanKeepsNothing(t, ss, j, b, c);
    SpanKeepsNothing(u, ss', j, b, e);
    KeepAligned(t, 0, b, ss, u, 0, 0, b, ss');
    KeepAligned(t, c, |t|, ss, u, d, e, |u|, ss');
    KeepJoined(t, u, b, c, e, ss, ss');
  }

  /** The second text is the first with newlines added at its end. */
  ghost predicate GrownByNewlines(a: string, b: string) {
    |a| <= |b| && b[..|a|] == a && forall p :: |a| <= p < |b| ==> b[p] == '\n'
  }

  lemma PaddingOutside(t: string, ms: seq<Marks>)
    requires Compatible(ms)
    ensures GrownByNewlines(Outside(t, ms), Outside(Padded(t), ms))
  {
    var u, ss, ss' := Padded(t), SpansOf(t, ms), SpansOf(Padded(t), ms);
    forall p | 0 <= p < |t|
      ensures AlignedAt(t, ss, u, 0, ss', p)
    {
      PaddingInside(t, ms, p);
    }
    KeepAligned(t, 0, |t|, ss, u, 0, 0, |t|, ss');
    KeepSplit(u, 0, |t|, |u|, ss');
    KeepNewlines(u, |t|, |u|, ss');
    var tail := Keep(u, |t|, |u|, ss');
    forall p | 0 <= p < |tail|
      ensures tail[p] == '\n'
    {
      assert tail[p] in tail;
    }
  }

  lemma PaddingInside(t: string, ms: seq<Marks>, p: nat)
    requires Compatible(ms) && p < |t|
    ensures Inside(p, SpansOf(t, ms)) <==> Inside(p, SpansOf(Padded(t), ms))
  {
    var ss, ss' := SpansOf(t, ms), SpansOf(Padded(t), ms);
    forall i | 0 <= i < |ms|
      ensures Within(ss[i], p) <==> Within(ss'[i], p)
    {
      PaddingKeeps(t, ms[i]);
    }
  }

  lemma PutMovesSpans(t: string, ms: seq<Marks>, j: nat)
    requires Compatible(ms) && Paired(t, ms) && j < |ms|
    ensures SpansMove(SpansOf(Base(t, ms[j]), ms), SpansOf(Put(t, ms[j]), ms), j, Place(t, ms[j]).lo,
            Place(t, ms[j]).hi, BlockOf(ms[j]))
  {
    var m := ms[j];
    WrittenPlace(t, ms, j);
    PutAtPlace(t, m);
    WrittenBefore(t, m);
    forall i | 0 <= i < |ms| && i != j
      ensures Apart(SpanOf(Base(t, m), ms[i]), Place(t, m).lo, Place(t, m).hi)
      ensures SpanOf(Put(t, m), ms[i]) == Moved(SpanOf(Base(t, m), ms[i]), Place(t, m).lo, Place(t, m).hi, BlockOf(m))
    {
      OthersApart(t, ms, j, i);
      OtherMoves(t, ms, j, i);
    }
  }

  lemma WrittenBefore(t: string, m: Marks)
    requires OneLineMarks(m) && !Orphan(t, m)
    ensures SpanOf(Base(t, m), m) == if Place(t, m).lo < Place(t, m).hi then Some(Place(t, m)) else None
  {
    SpanInside(t, m);
    PaddedFind(t, m.start, 0);
  }

  /** One write leaves the text around the regions alone, up to the newlines before an appended block. */
  lemma PutOutside(t: string, ms: seq<Marks>, j: nat)
    requires Compatible(ms) && Paired(t, ms) && j < |ms|
    ensures GrownByNewlines(Outside(t, ms), Outside(Put(t, ms[j]), ms))
    ensures SpanOf(t, ms[j]).Some? ==> Outside(Put(t, ms[j]), ms) == Outside(t, ms)
  {
    var m := ms[j];
    PutAligns(t, ms, j);
    PaddingOutside(t, ms);
  }

  lemma AroundSplice(t: string, b: nat, c: nat, k: string, u: string, ss: seq<Option<Span>>,
                     ss': seq<Option<Span>>, j: nat)
    requires IsSplice(t, b, c, k, u) && SpansMove(ss, ss', j, b, c, k)
    ensures Around(u, ss') == Around(t, ss)
  {
    SpliceAligns(t, b, c, k, u, ss, ss', j);
    OutsideSplice(t, b, c, ss, u, b + |k|, b + |k| - c, ss', j);
  }

  lemma PutAligns(t: string, ms: seq<Marks>, j: nat)
    requires Compatible(ms) && Paired(t, ms) && j < |ms|
    ensures Outside(Put(t, ms[j]), ms) == Outside(Base(t, ms[j]), ms)
  {
    var m := ms[j];
    PutAtPlace(t, m);
    PutMovesSpans(t, ms, j);
    AroundSplice(Base(t, m), Place(t, m).lo, Place(t, m).hi, BlockOf(m), Put(t, m), SpansOf(Base(t, m), ms),
        SpansOf(Put(t, m), ms), j);
  }

  lemma GrownTwice(a: string, b: string, c: string)
    requires GrownByNewlines(a, b) && GrownByNewlines(b, c)
    ensures GrownByNewlines(a, c)
  {
    assert c[..|a|] == c[..|b|][..|a|];
    forall p | |a| <= p < |c|
      ensures c[p] == '\n'
    {
      if p < |b| {
        assert c[..|b|][p] == b[p];
      }
    }
  }

  ghost predicate AllPresent(t: string, ms: seq<Marks>) {
    forall h :: 0 <= h < |ms| ==> SpanOf(t, ms[h]).Some?
  }

  lemma PresentStays(t: string, ms: seq<Marks>, j: nat)
    requires Compatible(ms) && Paired(t, ms) && j < |ms| && AllPresent(t, ms)
    ensures AllPresent(Put(t, ms[j]), ms)
  {
    WrittenPlace(t, ms, j);
    forall i | 0 <= i < |ms|
      ensures SpanOf(Put(t, ms[j]), ms[i]).Some?
    {
      if i != j {
        OtherMoves(t, ms, j, i);
      }
    }
  }

  /** All the writes together leave the text around the regions alone, up to newlines where blocks were appended. */
  lemma {:induction false} AllOutside(t: string, ms: seq<Marks>, i: nat)
    requires Compatible(ms) && Paired(t, ms) && i <= |ms|
    ensures GrownByNewlines(Outside(t, ms), Outside(PutAll(t, ms, i), ms))
    decreases |ms| - i
  {
    if i < |ms| {
      var u := Put(t, ms[i]);
      PutKeeps(t, ms, i);
      PutOutside(t, ms, i);
      AllOutside(u, ms, i + 1);
      GrownTwice(Outside(t, ms), Outside(u, ms), Outside(PutAll(u, ms, i + 1), ms));
    }
  }

  /** With every region present, nothing is added at all. */
  lemma {:induction false} PresentOutside(t: string, ms: seq<Marks>, i: nat)
    requires Compatible(ms) && Paired(t, ms) && i <= |ms| && AllPresent(t, ms)
    ensures Outside(PutAll(t, ms, i), ms) == Outside(t, ms)
    decreases |ms| - i
  {
    if i < |ms| {
      PutKeeps(t, ms, i);
      PutOutside(t, ms, i);
      PresentStays(t, ms, i);
      PresentOutside(Put(t, ms[i]), ms, i + 1);
    }
  }
}
