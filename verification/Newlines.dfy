/**
Reading a text file with universal newlines: a carriage return, alone or before a newline, is read as a
newline. How that moves markers, regions and the text around the regions.
 */
module Newlines {
  import opened Ast
  import opened Text
  import opened Splices
  import opened Regions
  import opened RegionSets

  predicate NoReturn(s: string) {
    '\r' !in s
  }

  /** The character at `p` is the newline of a pair, which gives nothing of its own. */
  predicate Skipped(s: string, p: nat) {
    0 < p < |s| && s[p] == '\n' && s[p - 1] == '\r'
  }

  function ReadFrom(s: string, p: nat): string
    requires p <= |s|
    decreases |s| - p
  {
    if p == |s| then []
    else if Skipped(s, p) then ReadFrom(s, p + 1)
    else [if s[p] == '\r' then '\n' else s[p]] + ReadFrom(s, p + 1)
  }

  /** What reading a file gives, from what the file holds. */
  function ReadText(s: string): string {
    ReadFrom(s, 0)
  }

  lemma {:induction false} ReadHasNoReturn(s: string, p: nat)
    requires p <= |s|
    ensures NoReturn(ReadFrom(s, p))
    decreases |s| - p
  {
    if p < |s| {
      ReadHasNoReturn(s, p + 1);
    }
  }

  lemma {:induction false} ReadPlainFrom(s: string, p: nat)
    requires NoReturn(s) && p <= |s|
    ensures ReadFrom(s, p) == s[p..]
    decreases |s| - p
  {
    if p < |s| {
      assert s[p] in s && (p > 0 ==> s[p - 1] in s);
      ReadPlainFrom(s, p + 1);
    }
  }

  /** Reading changes exactly the files that hold a carriage return. */
  lemma ReadIsIdentityIff(s: string)
    ensures ReadText(s) == s <==> NoReturn(s)
  {
    if NoReturn(s) {
      ReadPlainFrom(s, 0);
    } else {
      ReadHasNoReturn(s, 0);
    }
  }

  // ---------- Positions ----------

  /** How many characters have been read before position `p`. */
  function At(s: string, p: nat): nat
    requires p <= |s|
  {
    if p == 0 then 0 else At(s, p - 1) + (if Skipped(s, p - 1) then 0 else 1)
  }

  lemma {:induction false} ReadSuffix(s: string, p: nat)
    requires p <= |s|
    ensures At(s, p) <= |ReadText(s)| && ReadText(s)[At(s, p)..] == ReadFrom(s, p)
  {
    if p > 0 {
      ReadSuffix(s, p - 1);
      var t, q := ReadText(s), At(s, p - 1);
      if !Skipped(s, p - 1) {
        assert t[q..][1..] == t[q + 1..];
      }
    }
  }

  /** A character that is not skipped is read at its position; only a carriage return changes. */
  lemma ReadChar(s: string, p: nat)
    requires p < |s| && !Skipped(s, p)
    ensures At(s, p + 1) == At(s, p) + 1 && At(s, p) < |ReadText(s)|
    ensures ReadText(s)[At(s, p)] == if s[p] == '\r' then '\n' else s[p]
  {
    ReadSuffix(s, p);
    assert ReadText(s)[At(s, p)] == ReadText(s)[At(s, p)..][0];
  }

  lemma {:induction false} AtMonotone(s: string, p: nat, q: nat)
    requires p <= q <= |s|
    ensures At(s, p) <= At(s, q)
    decreases q - p
  {
    if p < q {
      AtMonotone(s, p, q - 1);
    }
  }

  lemma AtStrict(s: string, p: nat, q: nat)
    requires p < q <= |s| && !Skipped(s, p)
    ensures At(s, p) < At(s, q)
  {
    ReadChar(s, p);
    AtMonotone(s, p + 1, q);
  }

  lemma AtEnd(s: string)
    ensures At(s, |s|) == |ReadText(s)|
  {
    ReadSuffix(s, |s|);
  }

  /** Every character read comes from one of the file. */
  lemma {:induction false} Source(s: string, q: nat, n: nat) returns (p: nat)
    requires n <= |s| && q < At(s, n)
    ensures p < n && !Skipped(s, p) && At(s, p) == q
    decreases n
  {
    if q < At(s, n - 1) {
      p := Source(s, q, n - 1);
    } else {
      p := n - 1;
    }
  }

  // ---------- Markers ----------

  /** A marker without line breaks of any kind. */
  predicate PlainMark(x: string) {
    OneLine(x) && NoReturn(x)
  }

  lemma MarkChar(x: string, k: nat)
    requires PlainMark(x) && k < |x|
    ensures x[k] != '\n' && x[k] != '\r'
  {
    assert x[k] in x;
  }

  /** An occurrence in the file is read in one piece. */
  lemma {:induction false} OccurrenceRead(s: string, x: string, p: nat, k: nat)
    requires PlainMark(x) && OccursAt(s, x, p) && k <= |x|
    ensures At(s, p + k) == At(s, p) + k
    ensures At(s, p) + k <= |ReadText(s)|
    ensures forall i {:trigger x[i]} :: 0 <= i < k ==> ReadText(s)[At(s, p) + i] == x[i]
  {
    ReadSuffix(s, p);
    if k > 0 {
      OccurrenceRead(s, x, p, k - 1);
      MarkChar(x, k - 1);
      OccurrenceChar(s, x, p, k - 1);
      ReadChar(s, p + k - 1);
    }
  }

  lemma OccursRead(s: string, x: string, p: nat)
    requires PlainMark(x) && OccursAt(s, x, p)
    ensures OccursAt(ReadText(s), x, At(s, p)) && At(s, p + |x|) == At(s, p) + |x| && !Skipped(s, p)
  {
    OccurrenceRead(s, x, p, |x|);
    MarkChar(x, 0);
    OccurrenceChar(s, x, p, 0);
  }

  /** From where its first character comes, the whole occurrence comes. */
  lemma {:induction false} OccurrenceSource(s: string, x: string, q: nat, p: nat, k: nat)
    requires PlainMark(x) && OccursAt(ReadText(s), x, q) && k <= |x|
    requires p <= |s| && At(s, p) == q && !Skipped(s, p)
    ensures p + k <= |s| && At(s, p + k) == q + k && !Skipped(s, p + k)
    ensures forall i {:trigger x[i]} :: 0 <= i < k ==> s[p + i] == x[i]
  {
    if k > 0 {
      OccurrenceSource(s, x, q, p, k - 1);
      AtEnd(s);
      MarkChar(x, k - 1);
      OccurrenceChar(ReadText(s), x, q, k - 1);
      ReadChar(s, p + k - 1);
    }
  }

  lemma OccursSource(s: string, x: string, q: nat) returns (p: nat)
    requires PlainMark(x) && OccursAt(ReadText(s), x, q)
    ensures OccursAt(s, x, p) && At(s, p) == q
  {
    AtEnd(s);
    p := Source(s, q, |s|);
    OccurrenceSource(s, x, q, p, |x|);
  }

  /** Searching what was read is searching the file. */
  lemma FindRead(s: string, x: string, a: nat)
    requires PlainMark(x) && a <= |s|
    ensures FindFrom(ReadText(s), x, At(s, a)) == if FindFrom(s, x, a) < 0 then -1 else At(s, FindFrom(s, x, a))
  {
    var t, e := ReadText(s), FindFrom(s, x, a);
    var e' := if e < 0 then |t| + 1 else At(s, e);
    forall q {:trigger OccursAt(t, x, q)} | At(s, a) <= q < e'
      ensures !OccursAt(t, x, q)
    {
      if OccursAt(t, x, q) {
        NotReadBefore(s, x, a, q);
      }
    }
    if e < 0 {
      forall q {:trigger OccursAt(t, x, q)} | At(s, a) <= q
        ensures !OccursAt(t, x, q)
      {
      }
      FindNone(t, x, At(s, a));
    } else {
      FoundAt(s, x, a);
      OccursRead(s, x, e);
      AtMonotone(s, a, e);
      FindIs(t, x, At(s, a), At(s, e));
    }
  }

  lemma NotReadBefore(s: string, x: string, a: nat, q: nat)
    requires PlainMark(x) && a <= |s| && OccursAt(ReadText(s), x, q) && At(s, a) <= q
    ensures FindFrom(s, x, a) >= 0 && At(s, FindFrom(s, x, a)) <= q
  {
    var p := OccursSource(s, x, q);
    OccursRead(s, x, p);
    if p < a {
      AtStrict(s, p, a);
    }
    FindMeans(s, x, a);
    AtMonotone(s, FindFrom(s, x, a), p);
  }

  // ---------- Regions ----------

  ghost predicate PlainMarks(m: Marks) {
    PlainMark(m.start) && PlainMark(m.end)
  }

  /** No carriage return follows the end marker directly. */
  ghost predicate EndsPlain(s: string, m: Marks) {
    SpanOf(s, m).Some? ==> SpanOf(s, m).value.hi < |s| ==> s[SpanOf(s, m).value.hi] != '\r'
  }

  function ReadSpan(s: string, r: Option<Span>): Option<Span> {
    match r
    case Some(v) => if v.lo <= |s| && v.hi <= |s| then Some(Span(At(s, v.lo), At(s, v.hi))) else None
    case None => None
  }

  lemma EndRead(s: string, m: Marks, e: nat)
    requires PlainMark(m.end) && OccursAt(s, m.end, e)
    requires e + |m.end| < |s| ==> s[e + |m.end|] != '\r'
    ensures RegionEnd(ReadText(s), m, At(s, e)) == At(s, RegionEnd(s, m, e))
  {
    OccursRead(s, m.end, e);
    var q := e + |m.end|;
    MarkChar(m.end, |m.end| - 1);
    OccurrenceChar(s, m.end, e, |m.end| - 1);
    if q < |s| {
      ReadChar(s, q);
    } else {
      AtEnd(s);
    }
  }

  /** A region of the file is read as a region. */
  lemma SpanRead(s: string, m: Marks)
    requires PlainMarks(m) && EndsPlain(s, m)
    ensures SpanOf(ReadText(s), m) == ReadSpan(s, SpanOf(s, m))
  {
    FindRead(s, m.start, 0);
    var a := FindFrom(s, m.start, 0);
    if a >= 0 {
      FindRead(s, m.end, a);
      var e := FindFrom(s, m.end, a);
      if e >= 0 {
        FoundAt(s, m.end, a);
        SpanFrom(s, m, a, e, RegionEnd(s, m, e));
        EndRead(s, m, e);
        SpanFrom(ReadText(s), m, At(s, a), At(s, e), At(s, RegionEnd(s, m, e)));
      }
    }
  }

  /** Without that condition the region read is as long or one newline longer. */
  lemma SpanReadLoose(s: string, m: Marks)
    requires PlainMarks(m) && SpanOf(s, m).Some?
    ensures var r := SpanOf(s, m).value;
            && SpanOf(ReadText(s), m).Some?
            && SpanOf(ReadText(s), m).value.lo == At(s, r.lo) && At(s, r.hi) <= SpanOf(ReadText(s), m).value.hi
  {
    var a := FindFrom(s, m.start, 0);
    var e := FindFrom(s, m.end, a);
    FindRead(s, m.start, 0);
    FindRead(s, m.end, a);
    FoundAt(s, m.end, a);
    OccursRead(s, m.end, e);
    var q := e + |m.end|;
    SpanFrom(s, m, a, e, RegionEnd(s, m, e));
    SpanFrom(ReadText(s), m, At(s, a), At(s, e), RegionEnd(ReadText(s), m, At(s, e)));
    if RegionEnd(s, m, e) == q + 1 {
      EndRead(s, m, e);
    }
  }

  /** A region starts with a character that is read, and does not end with a carriage return. */
  lemma SpanEdges(s: string, m: Marks)
    requires PlainMarks(m) && SpanOf(s, m).Some?
    ensures var r := SpanOf(s, m).value;
            r.lo < r.hi && !Skipped(s, r.lo) && s[r.lo] != '\r' && s[r.hi - 1] != '\r'
  {
    var a := FindFrom(s, m.start, 0);
    var e := FindFrom(s, m.end, a);
    FoundAt(s, m.start, 0);
    FoundAt(s, m.end, a);
    OccursRead(s, m.start, a);
    MarkChar(m.start, 0);
    OccurrenceChar(s, m.start, a, 0);
    MarkChar(m.end, |m.end| - 1);
    OccurrenceChar(s, m.end, e, |m.end| - 1);
    SpanFrom(s, m, a, e, RegionEnd(s, m, e));
  }

  // ---------- The text around the regions ----------

  ghost predicate AllPlain(ms: seq<Marks>) {
    forall i :: 0 <= i < |ms| ==> PlainMarks(ms[i])
  }

  /** A carriage return can only stand inside a region. */
  ghost predicate ReturnsInside(s: string, spans: seq<Option<Span>>) {
    forall p :: 0 <= p < |s| && s[p] == '\r' ==> Inside(p, spans)
  }

  lemma {:induction false} KeptChar(s: string, lo: nat, spans: seq<Option<Span>>, p: nat)
    requires lo <= p < |s| && !Inside(p, spans)
    ensures s[p] in Keep(s, lo, |s|, spans)
    decreases p - lo
  {
    if lo < p {
      KeptChar(s, lo + 1, spans, p);
    }
  }

  lemma NoReturnOutside(s: string, spans: seq<Option<Span>>)
    requires NoReturn(Around(s, spans))
    ensures ReturnsInside(s, spans)
  {
    forall p | 0 <= p < |s| && s[p] == '\r'
      ensures Inside(p, spans)
    {
      if !Inside(p, spans) {
        KeptChar(s, 0, spans, p);
      }
    }
  }

  /** No two regions of the file itself overlap, since those read do not. */
  lemma NoOverlap(s: string, m: Marks, n: Marks)
    requires PlainMarks(m) && PlainMarks(n) && SpanOf(s, m).Some? && SpanOf(s, n).Some?
    requires Disjoint(SpanOf(ReadText(s), m), SpanOf(ReadText(s), n))
    ensures Disjoint(SpanOf(s, m), SpanOf(s, n))
  {
    var a, b := SpanOf(s, m).value, SpanOf(s, n).value;
    SpanReadLoose(s, m);
    SpanReadLoose(s, n);
    SpanEdges(s, m);
    SpanEdges(s, n);
    if b.lo < a.hi {
      AtStrict(s, b.lo, a.hi);
    }
    if a.lo < b.hi {
      AtStrict(s, a.lo, b.hi);
    }
  }

  lemma EndsArePlain(s: string, ms: seq<Marks>, i: nat)
    requires AllPlain(ms) && Paired(ReadText(s), ms) && ReturnsInside(s, SpansOf(s, ms)) && i < |ms|
    ensures EndsPlain(s, ms[i])
  {
    if SpanOf(s, ms[i]).Some? {
      var hi := SpanOf(s, ms[i]).value.hi;
      if hi < |s| && s[hi] == '\r' {
        assert Inside(hi, SpansOf(s, ms));
        var j :| 0 <= j < |ms| && Within(SpansOf(s, ms)[j], hi);
        SpanEdges(s, ms[i]);
        SpanEdges(s, ms[j]);
        NoOverlap(s, ms[i], ms[j]);
      }
    }
  }

  /** The regions of the file and those of the text read correspond. */
  ghost predicate SpansRead(s: string, ss: seq<Option<Span>>, ss': seq<Option<Span>>) {
    && |ss| == |ss'|
    && forall i :: 0 <= i < |ss| ==>
         && ss'[i] == ReadSpan(s, ss[i])
         && (ss[i].Some? ==>
               var r := ss[i].value;
               r.lo < r.hi <= |s| && !Skipped(s, r.lo) && s[r.hi - 1] != '\r')
  }

  lemma AllSpansRead(s: string, ms: seq<Marks>)
    requires AllPlain(ms) && Paired(ReadText(s), ms) && ReturnsInside(s, SpansOf(s, ms))
    ensures SpansRead(s, SpansOf(s, ms), SpansOf(ReadText(s), ms))
  {
    forall i | 0 <= i < |ms|
      ensures SpanOf(ReadText(s), ms[i]) == ReadSpan(s, SpanOf(s, ms[i]))
      ensures SpanOf(s, ms[i]).Some? ==>
                var r := SpanOf(s, ms[i]).value;
                r.lo < r.hi <= |s| && !Skipped(s, r.lo) && s[r.hi - 1] != '\r'
    {
      EndsArePlain(s, ms, i);
      SpanRead(s, ms[i]);
      if SpanOf(s, ms[i]).Some? {
        SpanEdges(s, ms[i]);
      }
    }
  }

  lemma WithinRead(s: string, r: Span, p: nat)
    requires p < |s| && !Skipped(s, p) && r.lo <= r.hi <= |s|
    ensures r.lo <= p < r.hi <==> At(s, r.lo) <= At(s, p) < At(s, r.hi)
  {
    if p < r.lo {
      AtStrict(s, p, r.lo);
    } else {
      AtMonotone(s, r.lo, p);
    }
    if p < r.hi {
      AtStrict(s, p, r.hi);
    } else {
      AtMonotone(s, r.hi, p);
    }
  }

  lemma InsideRead(s: string, ss: seq<Option<Span>>, ss': seq<Option<Span>>, p: nat)
    requires SpansRead(s, ss, ss') && p < |s| && !Skipped(s, p)
    ensures Inside(p, ss) <==> Inside(At(s, p), ss')
  {
    forall i | 0 <= i < |ss|
      ensures Within(ss[i], p) <==> Within(ss'[i], At(s, p))
    {
      if ss[i].Some? {
        WithinRead(s, ss[i].value, p);
      }
    }
  }

  /** The newline of a pair is inside where its carriage return is. */
  lemma SkippedInside(s: string, ss: seq<Option<Span>>, ss': seq<Option<Span>>, p: nat)
    requires SpansRead(s, ss, ss') && ReturnsInside(s, ss) && Skipped(s, p)
    ensures Inside(p, ss)
  {
    assert Inside(p - 1, ss);
    var i :| 0 <= i < |ss| && Within(ss[i], p - 1);
    assert Within(ss[i], p);
  }

  lemma {:induction false} KeepRead(s: string, ss: seq<Option<Span>>, ss': seq<Option<Span>>, p: nat)
    requires SpansRead(s, ss, ss') && ReturnsInside(s, ss) && p <= |s|
    ensures At(s, p) <= |ReadText(s)| && Keep(ReadText(s), At(s, p), |ReadText(s)|, ss') == Keep(s, p, |s|, ss)
    decreases |s| - p
  {
    ReadSuffix(s, p);
    if p == |s| {
      AtEnd(s);
    } else {
      KeepRead(s, ss, ss', p + 1);
      if Skipped(s, p) {
        SkippedInside(s, ss, ss', p);
      } else {
        InsideRead(s, ss, ss', p);
        ReadChar(s, p);
      }
    }
  }

  /** With no carriage return outside the regions, reading leaves the text outside them as it is. */
  lemma OutsideRead(s: string, ms: seq<Marks>)
    requires AllPlain(ms) && Paired(ReadText(s), ms) && NoReturn(Outside(s, ms))
    ensures Outside(ReadText(s), ms) == Outside(s, ms)
  {
    var ss, ss' := SpansOf(s, ms), SpansOf(ReadText(s), ms);
    NoReturnOutside(s, ss);
    AllSpansRead(s, ms);
    KeepRead(s, ss, ss', 0);
  }

  lemma {:induction false} KeepHasNoReturn(t: string, lo: nat, spans: seq<Option<Span>>)
    requires NoReturn(t) && lo <= |t|
    ensures NoReturn(Keep(t, lo, |t|, spans))
    decreases |t| - lo
  {
    if lo < |t| {
      assert t[lo] in t;
      KeepHasNoReturn(t, lo + 1, spans);
    }
  }

  /** A write of a plain block into plain text gives plain text. */
  lemma PutHasNoReturn(t: string, m: Marks)
    requires NoReturn(t) && NoReturn(BlockOf(m))
    ensures NoReturn(Put(t, m))
  {
    match SpanOf(t, m)
    case Some(s) => assert forall c :: c in t[..s.lo] || c in t[s.hi..] ==> c in t;
    case None =>
  }

  lemma {:induction false} PutAllHasNoReturn(t: string, ms: seq<Marks>, i: nat)
    requires NoReturn(t) && i <= |ms| && forall h :: 0 <= h < |ms| ==> NoReturn(BlockOf(ms[h]))
    ensures NoReturn(PutAll(t, ms, i))
    decreases |ms| - i
  {
    if i < |ms| {
      PutHasNoReturn(t, ms[i]);
      PutAllHasNoReturn(Put(t, ms[i]), ms, i + 1);
    }
  }
}
