/**
The generated regions of the requirement registry: a writer that replaces the region between two marker
lines, or appends it, and the checker it must satisfy, for any number of regions in one file.
 */
module Regions {
  import opened Ast
  import opened Text
  import opened Splices

  // ---------- One region ----------

  /** The two marker lines of a region and what the generator puts between them. */
  datatype Marks = Marks(start: string, end: string, body: string)

  function BlockOf(m: Marks): string {
    m.start + ("\n" + (m.body + (m.end + "\n")))
  }

  /** The stretch of a region, its final newline included. */
  datatype Span = Span(lo: nat, hi: nat)

  /** The end of a region whose end marker is at `e`. */
  function RegionEnd(text: string, m: Marks, e: nat): nat {
    if e + |m.end| < |text| && text[e + |m.end|] == '\n' then e + |m.end| + 1 else e + |m.end|
  }

  /** The first start marker, and the first end marker from there on. */
  function SpanOf(text: string, m: Marks): (r: Option<Span>)
    ensures r.Some? ==> r.value.lo <= r.value.hi <= |text|
  {
    var a := FindFrom(text, m.start, 0);
    if a < 0 then None
    else
      var e := FindFrom(text, m.end, a);
      if e < 0 then None else Some(Span(a, RegionEnd(text, m, e)))
  }

  function Region(text: string, m: Marks): Option<string> {
    match SpanOf(text, m)
    case Some(s) => Some(text[s.lo..s.hi])
    case None => None
  }

  /** The text that an appended block follows. */
  function Padded(text: string): string {
    text + (if EndsLine(text) then "" else "\n") + "\n"
  }

  /** What the writer makes of an existing file. */
  function Put(text: string, m: Marks): string {
    match SpanOf(text, m)
    case Some(s) => text[..s.lo] + BlockOf(m) + text[s.hi..]
    case None => Padded(text) + BlockOf(m)
  }

  /** A start marker that no end marker follows. */
  predicate Orphan(text: string, m: Marks) {
    Contains(text, m.start) && SpanOf(text, m).None?
  }

  /** In its block the end marker is found at the end only. */
  predicate EndsOnce(m: Marks) {
    FindFrom(BlockOf(m), m.end, 0) == |BlockOf(m)| - 1 - |m.end|
  }

  predicate OneLineMarks(m: Marks) {
    OneLine(m.start) && OneLine(m.end)
  }

  lemma BlockShape(m: Marks)
    requires OneLineMarks(m)
    ensures LinesFrom(BlockOf(m), m.start) && Contains(BlockOf(m), m.end)
    ensures var e := |BlockOf(m)| - 1 - |m.end|;
            e >= 0 && BlockOf(m)[e..e + |m.end|] == m.end && FindFrom(BlockOf(m), m.end, 0) <= e
  {
    var k := BlockOf(m);
    var e := |k| - 1 - |m.end|;
    assert k[..|m.start|] == m.start;
    assert k == (m.start + ("\n" + m.body)) + (m.end + "\n");
    assert k[e..e + |m.end|] == m.end;
    assert OccursAt(k, m.end, e);
    FindMeans(k, m.end, 0);
  }

  /** A body of whole lines without the end marker, and a start marker without it, are enough. */
  lemma MarkerFreeBody(m: Marks)
    requires OneLineMarks(m) && (m.body == [] || EndsLine(m.body)) && !Contains(m.body, m.end)
             && !Contains(m.start, m.end)
    ensures EndsOnce(m)
  {
    BlockShape(m);
    var k := BlockOf(m);
    var e := |k| - 1 - |m.end|;
    forall p {:trigger OccursAt(k, m.end, p)} | 0 <= p < e
      ensures !OccursAt(k, m.end, p)
    {
      NoMarkerInside(m, m.end, p);
    }
    FindIs(k, m.end, 0, e);
  }

  /** Before the end marker of a block there is no marker that neither its first line nor its body contains. */
  lemma NoMarkerInside(m: Marks, x: string, p: nat)
    requires OneLineMarks(m) && OneLine(x) && (m.body == [] || EndsLine(m.body)) && !Contains(m.body, x)
             && !Contains(m.start, x)
    requires p < |BlockOf(m)| - 1 - |m.end|
    ensures !OccursAt(BlockOf(m), x, p)
  {
    var k := BlockOf(m);
    var at := |m.start| + 1;
    BlockParts(m);
    if p + |x| <= |m.start| {
      PartLacks(k, m.start, 0, x, p);
    } else if p <= |m.start| {
      NoNewlineInside(k, x, p, |m.start|);
    } else if p + |x| <= at + |m.body| {
      PartLacks(k, m.body, at, x, p);
    } else {
      NoNewlineInside(k, x, p, at + |m.body| - 1);
    }
  }

  lemma BlockParts(m: Marks)
    ensures var k := BlockOf(m);
            var at := |m.start| + 1;
            && |k| == at + |m.body| + |m.end| + 1 && k[|m.start|] == '\n' && k[|k| - 1] == '\n'
            && k[0..0 + |m.start|] == m.start && k[at..at + |m.body|] == m.body
            && k[at + |m.body|..at + |m.body| + |m.end|] == m.end
            && (EndsLine(m.body) ==> k[at + |m.body| - 1] == '\n')
  {
  }

  /** A marker that stands in neither marker line nor the body does not stand in the block. */
  lemma BlockLacks(m: Marks, x: string)
    requires OneLineMarks(m) && OneLine(x) && (m.body == [] || EndsLine(m.body))
    requires !Contains(m.body, x) && !Contains(m.start, x) && !Contains(m.end, x)
    ensures !Contains(BlockOf(m), x)
  {
    var k := BlockOf(m);
    forall p {:trigger OccursAt(k, x, p)} | 0 <= p
      ensures !OccursAt(k, x, p)
    {
      NotAnywhere(m, x, p);
    }
    FindNone(k, x, 0);
  }

  lemma NotAnywhere(m: Marks, x: string, p: nat)
    requires OneLineMarks(m) && OneLine(x) && (m.body == [] || EndsLine(m.body))
    requires !Contains(m.body, x) && !Contains(m.start, x) && !Contains(m.end, x)
    ensures !OccursAt(BlockOf(m), x, p)
  {
    var k := BlockOf(m);
    if p < |k| - 1 - |m.end| {
      NoMarkerInside(m, x, p);
    } else if p + |x| < |k| {
      NotInEnd(m, x, p);
    } else if p < |k| {
      assert k[|k| - 1] == '\n';
      NoNewlineInside(k, x, p, |k| - 1);
    }
  }

  lemma NotInEnd(m: Marks, x: string, p: nat)
    requires !Contains(m.end, x) && |BlockOf(m)| - 1 - |m.end| <= p && p + |x| < |BlockOf(m)|
    ensures !OccursAt(BlockOf(m), x, p)
  {
    BlockParts(m);
    PartLacks(BlockOf(m), m.end, |m.start| + 1 + |m.body|, x, p);
  }

  // ---------- Writing, then checking ----------

  /** The region that the checker finds where the writer put a block. */
  lemma RegionAtBlock(t: string, b: nat, c: nat, m: Marks, u: string)
    requires IsSplice(t, b, c, BlockOf(m), u) && OneLineMarks(m) && StartsClean(t, b, m.start)
    requires FindFrom(t, m.start, 0) < 0 || FindFrom(t, m.start, 0) == b
    ensures && SpanOf(u, m).Some? && SpanOf(u, m).value.lo == b
            && (Region(u, m) == Some(BlockOf(m)) <==> EndsOnce(m))
            && (EndsOnce(m) ==> SpanOf(u, m).value.hi == b + |BlockOf(m)|)
  {
    var k := BlockOf(m);
    BlockShape(m);
    FindOwn(t, b, c, k, u, m.start);
    FindInBlock(t, b, c, k, u, m.end);
    BlockInPlace(t, b, c, k, u);
    RegionInBlock(u, b, m, k, FindFrom(k, m.end, 0));
  }

  lemma RegionInBlock(u: string, b: nat, m: Marks, k: string, e: nat)
    requires b + |k| <= |u| && u[b..b + |k|] == k && EndsLine(k) && e <= |k| - 1 - |m.end|
    requires FindFrom(u, m.start, 0) == b && FindFrom(u, m.end, b) == b + e
    ensures SpanOf(u, m).Some? && SpanOf(u, m).value.lo == b
    ensures Region(u, m) == Some(k) <==> e == |k| - 1 - |m.end|
    ensures e == |k| - 1 - |m.end| ==> SpanOf(u, m).value.hi == b + |k|
  {
    Stretch(u, b, k, m, e);
  }

  lemma Stretch(u: string, b: nat, k: string, m: Marks, e: nat)
    requires b + |k| <= |u| && u[b..b + |k|] == k && EndsLine(k) && e <= |k| - 1 - |m.end|
    ensures var hi := RegionEnd(u, m, b + e);
            && b <= hi <= |u| && (u[b..hi] == k <==> e == |k| - 1 - |m.end|)
            && (e == |k| - 1 - |m.end| ==> hi == b + |k|)
  {
    var hi := RegionEnd(u, m, b + e);
    assert u[b + |k| - 1] == u[b..b + |k|][|k| - 1];
    if e < |k| - 1 - |m.end| {
      assert |u[b..hi]| < |k|;
    }
  }

  lemma PutIsSplice(t: string, m: Marks)
    requires OneLineMarks(m)
    ensures match SpanOf(t, m)
            case Some(s) => IsSplice(t, s.lo, s.hi, BlockOf(m), Put(t, m)) && StartsClean(t, s.lo, m.start)
            case None =>
              && IsSplice(Padded(t), |Padded(t)|, |Padded(t)|, BlockOf(m), Put(t, m))
              && StartsClean(Padded(t), |Padded(t)|, m.start)
  {
    match SpanOf(t, m)
    case Some(s) =>
      FoundAt(t, m.start, 0);
      SpliceIs(t, s.lo, s.hi, BlockOf(m));
    case None =>
      var n := |Padded(t)|;
      SpliceIs(Padded(t), n, n, BlockOf(m));
      assert Padded(t)[..n] + BlockOf(m) + Padded(t)[n..] == Put(t, m);
  }

  function Newlines(t: string): string {
    (if EndsLine(t) then "" else "\n") + "\n"
  }

  lemma PaddedFind(t: string, x: string, a: nat)
    requires OneLine(x)
    ensures FindFrom(Padded(t), x, a) == FindFrom(t, x, a)
  {
    assert Padded(t) == t + Newlines(t);
    FindBeforeNewlines(t, Newlines(t), x, a);
  }

  /**
  One region: after a write of the text read, the region is found up to date in the result exactly when the
  end marker stands in the block only at its end and the file had no start marker without an end.
   */
  lemma WrittenIsCleanIff(t: string, m: Marks)
    requires OneLineMarks(m)
    ensures Region(Put(t, m), m) == Some(BlockOf(m)) <==> EndsOnce(m) && !Orphan(t, m)
  {
    PutIsSplice(t, m);
    match SpanOf(t, m)
    case Some(s) => RegionAtBlock(t, s.lo, s.hi, m, Put(t, m));
    case None =>
      PaddedFind(t, m.start, 0);
      var n := |Padded(t)|;
      if !Orphan(t, m) {
        RegionAtBlock(Padded(t), n, n, m, Put(t, m));
      } else {
        OrphanStaysStale(t, m);
      }
  }

  /** The end marker of the appended block closes the orphan: the region is longer than a block, and stale. */
  lemma OrphanStaysStale(t: string, m: Marks)
    requires OneLineMarks(m) && Orphan(t, m)
    ensures Region(Put(t, m), m) != Some(BlockOf(m))
  {
    var a := FindFrom(t, m.start, 0);
    var u, n, k := Put(t, m), |Padded(t)|, BlockOf(m);
    PutIsSplice(t, m);
    BlockShape(m);
    PaddedFind(t, m.start, 0);
    PaddedFind(t, m.end, a);
    FindLeft(Padded(t), n, n, k, u, m.start, 0);
    FindInBlock(Padded(t), n, n, k, u, m.end);
    var e := n + FindFrom(k, m.end, 0);
    forall p {:trigger OccursAt(u, m.end, p)} | a <= p < n
      ensures !OccursAt(u, m.end, p)
    {
      NoEndBeforeBlock(t, m, p);
    }
    SkipTo(u, m.end, a, n);
    LateEnd(u, m, a, e, k);
  }

  /** The region ends further from its start than a block does. */
  lemma LateEnd(u: string, m: Marks, a: nat, e: nat, k: string)
    requires FindFrom(u, m.start, 0) == a && FindFrom(u, m.end, a) == e && Contains(k, m.end)
    requires e > a + FindFrom(k, m.end, 0)
    ensures Region(u, m) != Some(k)
  {
    if Region(u, m) == Some(k) {
      FirstEndInside(u, a, RegionEnd(u, m, e), k, m.end);
      NotBefore(u, m.end, a, a + FindFrom(k, m.end, 0));
    }
  }

  /** A stretch that equals a block has its first end marker where the block has it. */
  lemma FirstEndInside(u: string, a: nat, hi: nat, k: string, x: string)
    requires a <= hi <= |u| && u[a..hi] == k && Contains(k, x)
    ensures OccursAt(u, x, a + FindFrom(k, x, 0))
  {
    var f := FindFrom(k, x, 0);
    FoundAt(k, x, 0);
    SliceOfSlice(u, a, hi, f, f + |x|);
  }

  lemma NoEndBeforeBlock(t: string, m: Marks, p: nat)
    requires OneLineMarks(m) && Orphan(t, m) && FindFrom(t, m.start, 0) <= p < |Padded(t)|
    ensures !OccursAt(Put(t, m), m.end, p)
  {
    var n := |Padded(t)|;
    PaddedFind(t, m.end, FindFrom(t, m.start, 0));
    NotBefore(Padded(t), m.end, FindFrom(t, m.start, 0), p);
    PutIsSplice(t, m);
    if p + |m.end| <= n {
      SpliceLeft(Padded(t), n, n, BlockOf(m), Put(t, m), m.end, p);
    } else {
      assert Put(t, m)[n - 1] == '\n';
      NoNewlineInside(Put(t, m), m.end, p, n - 1);
    }
  }
}
