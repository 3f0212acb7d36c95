/**
Rendering the generated views of the requirement registry, and the conditions on views under which their
regions do not interfere.
 */
module Views {
  import opened Text
  import opened Splices
  import opened Regions
  import opened RegionSets
  import opened Newlines

  /** A rendered view. `region` views own a region of their file, the others the whole file. */
  datatype View = View(path: string, name: string, region: bool, title: string, text: string, prefix: string)

  // ---------- Rendering a region ----------

  /** The characters Python's `str.isspace` accepts. */
  predicate IsBlank(c: char) {
    || c == ' ' || '\t' <= c <= '\r' || '\U{1C}' <= c <= '\U{1F}' || c == '\U{85}' || c == '\U{A0}'
    || c == '\U{1680}' || '\U{2000}' <= c <= '\U{200A}' || c == '\U{2028}' || c == '\U{2029}'
    || c == '\U{202F}' || c == '\U{205F}' || c == '\U{3000}'
  }

  function RStrip(s: string): string {
    if s != [] && IsBlank(s[|s| - 1]) then RStrip(s[..|s| - 1]) else s
  }

  function CommentLine(prefix: string, line: string): string {
    if prefix == [] then line
    else if line == [] then RStrip(prefix)
    else prefix + line
  }

  function Start(v: View): string {
    CommentLine(v.prefix, "<!-- generated:reqs view=" + v.name + " -->")
  }

  function End(v: View): string {
    CommentLine(v.prefix, "<!-- /generated:reqs -->")
  }

  /** The characters that end a line. */
  predicate IsBreak(c: char) {
    '\n' <= c <= '\r' || '\U{1C}' <= c <= '\U{1E}' || c == '\U{85}' || c == '\U{2028}' || c == '\U{2029}'
  }

  /** The index of the first line break, or the length. */
  function LineLength(s: string): (n: nat)
    ensures n <= |s|
  {
    if s == [] || IsBreak(s[0]) then 0 else 1 + LineLength(s[1..])
  }

  /** The lines of a text; a carriage return and a newline together end one line. */
  function SplitLines(s: string): seq<string>
    decreases |s|
  {
    if s == [] then []
    else
      var n := LineLength(s);
      if n == |s| then [s]
      else if s[n] == '\r' && n + 1 < |s| && s[n + 1] == '\n' then [s[..n]] + SplitLines(s[n + 2..])
      else [s[..n]] + SplitLines(s[n + 1..])
  }

  /** The lines, each behind the comment prefix, joined by newlines. */
  function JoinPrefixed(prefix: string, lines: seq<string>): string {
    if lines == [] then []
    else if |lines| == 1 then CommentLine(prefix, lines[0])
    else CommentLine(prefix, lines[0]) + "\n" + JoinPrefixed(prefix, lines[1..])
  }

  function Body(v: View): string {
    if v.prefix == [] then v.text else JoinPrefixed(v.prefix, SplitLines(v.text)) + "\n"
  }

  function MarksOf(v: View): Marks {
    Marks(Start(v), End(v), Body(v))
  }

  function Heading(v: View): string {
    "# " + v.title + "\n"
  }

  function DefaultDocument(v: View): string {
    if v.prefix != [] then BlockOf(MarksOf(v)) else Heading(v) + "\n" + BlockOf(MarksOf(v))
  }

  const HEAD := "<!-- generated:reqs view="
  const TAIL := " -->"

  lemma StartParts(v: View)
    ensures Start(v) == v.prefix + (HEAD + (v.name + TAIL))
  {
  }

  predicate PlainWord(s: string) {
    ' ' !in s && '<' !in s
  }

  /** With one comment prefix, different names make start lines that do not contain each other. */
  lemma StartsDiffer(v: View, w: View)
    requires v.prefix == w.prefix && v.name != w.name && '<' !in v.prefix && PlainWord(v.name) && PlainWord(w.name)
    ensures !Contains(Start(w), Start(v))
  {
    if Contains(Start(w), Start(v)) {
      FoundAt(Start(w), Start(v), 0);
      OnlyAtZero(v, w, FindFrom(Start(w), Start(v), 0));
      SameNames(v, w);
    }
  }

  lemma OnlyAtZero(v: View, w: View, p: nat)
    requires v.prefix == w.prefix && '<' !in w.prefix && PlainWord(w.name) && OccursAt(Start(w), Start(v), p)
    ensures p == 0
  {
    StartParts(v);
    assert Start(v)[|v.prefix|] == HEAD[0];
    OccurrenceChar(Start(w), Start(v), p, |v.prefix|);
    if p != 0 {
      OnlyBracket(w, p + |v.prefix|);
    }
  }

  /** The opening bracket of a start line follows the prefix and nothing else. */
  lemma OnlyBracket(w: View, q: nat)
    requires '<' !in w.prefix && PlainWord(w.name) && q < |Start(w)| && q != |w.prefix|
    ensures Start(w)[q] != '<'
  {
    StartParts(w);
    var h := |w.prefix| + |HEAD|;
    if q < |w.prefix| {
      assert Start(w)[q] == w.prefix[q];
    } else if h <= q < h + |w.name| {
      assert Start(w)[q] == w.name[q - h];
    }
  }

  lemma NameEnds(v: View, i: nat)
    requires PlainWord(v.name) && i <= |v.name|
    ensures |v.prefix| + |HEAD| + i < |Start(v)|
    ensures Start(v)[|v.prefix| + |HEAD| + i] == (if i == |v.name| then ' ' else v.name[i])
    ensures i < |v.name| ==> v.name[i] != ' '
  {
    StartParts(v);
    if i < |v.name| {
      assert v.name[i] in v.name;
    }
  }

  lemma SameNames(v: View, w: View)
    requires v.prefix == w.prefix && PlainWord(v.name) && PlainWord(w.name) && OccursAt(Start(w), Start(v), 0)
    ensures v.name == w.name
  {
    var h := |v.prefix| + |HEAD|;
    var n := if |v.name| <= |w.name| then |v.name| else |w.name|;
    forall i | 0 <= i <= n
      ensures (if i == |v.name| then ' ' else v.name[i]) == (if i == |w.name| then ' ' else w.name[i])
    {
      NameEnds(v, i);
      NameEnds(w, i);
      assert Start(v)[h + i] == Start(w)[h + i];
    }
    NameEnds(v, n);
    NameEnds(w, n);
    assert |v.name| == |w.name|;
  }

  // ---------- Marker-free views ----------

  const CLOSE := "<!-- /generated:reqs -->"

  lemma EndParts(v: View)
    ensures End(v) == v.prefix + CLOSE
  {
  }

  /** A text that contains a string contains every part of it. */
  lemma ContainsPart(s: string, x: string, y: string, d: nat)
    requires OccursAt(x, y, d) && Contains(s, x)
    ensures Contains(s, y)
  {
    var p := FindFrom(s, x, 0);
    FoundAt(s, x, 0);
    forall k {:trigger y[k]} | 0 <= k < |y|
      ensures s[p + d + k] == y[k]
    {
      assert x[d + k] == y[k];
    }
    assert OccursAt(s, y, p + d);
    FindMeans(s, y, 0);
  }

  lemma StartHasHead(v: View)
    ensures OccursAt(Start(v), HEAD, |v.prefix|)
  {
    StartParts(v);
    forall k {:trigger HEAD[k]} | 0 <= k < |HEAD|
      ensures Start(v)[|v.prefix| + k] == HEAD[k]
    {
    }
  }

  lemma EndHasClose(v: View)
    ensures OccursAt(End(v), CLOSE, |v.prefix|)
  {
    EndParts(v);
    forall k {:trigger CLOSE[k]} | 0 <= k < |CLOSE|
      ensures End(v)[|v.prefix| + k] == CLOSE[k]
    {
    }
  }

  /** The marker lines part at their sixth character. */
  lemma HeadIsNotClose()
    ensures HEAD[0] == '<' && CLOSE[0] == '<' && HEAD[5] == 'g' && CLOSE[5] == '/'
  {
  }

  lemma CloseHasOneBracket(v: View, q: nat)
    requires '<' !in v.prefix && q < |End(v)| && q != |v.prefix|
    ensures End(v)[q] != '<'
  {
    EndParts(v);
    if q < |v.prefix| {
      assert End(v)[q] == v.prefix[q];
    } else {
      assert End(v)[q] == CLOSE[q - |v.prefix|];
    }
  }

  lemma StartChars(v: View)
    ensures |Start(v)| > |v.prefix| + 5 && Start(v)[|v.prefix|] == '<' && Start(v)[|v.prefix| + 5] == 'g'
  {
    StartHasHead(v);
    HeadIsNotClose();
    OccurrenceChar(Start(v), HEAD, |v.prefix|, 0);
    OccurrenceChar(Start(v), HEAD, |v.prefix|, 5);
  }

  lemma EndChars(v: View)
    ensures |End(v)| > |v.prefix| + 5 && End(v)[|v.prefix|] == '<' && End(v)[|v.prefix| + 5] == '/'
  {
    EndHasClose(v);
    HeadIsNotClose();
    OccurrenceChar(End(v), CLOSE, |v.prefix|, 0);
    OccurrenceChar(End(v), CLOSE, |v.prefix|, 5);
  }

  lemma EndLacksStart(v: View, w: View)
    requires v.prefix == w.prefix && '<' !in v.prefix
    ensures !Contains(End(w), Start(v))
  {
    StartChars(v);
    EndChars(w);
    forall p {:trigger OccursAt(End(w), Start(v), p)} | 0 <= p
      ensures !OccursAt(End(w), Start(v), p)
    {
      if 0 < p && p + |v.prefix| < |End(w)| {
        CloseHasOneBracket(w, p + |v.prefix|);
      }
      Mismatch(End(w), Start(v), p, if p == 0 then |v.prefix| + 5 else |v.prefix|);
    }
    FindNone(End(w), Start(v), 0);
  }

  lemma StartLacksEnd(v: View)
    requires '<' !in v.prefix && PlainWord(v.name)
    ensures !Contains(Start(v), End(v))
  {
    StartChars(v);
    EndChars(v);
    forall p {:trigger OccursAt(Start(v), End(v), p)} | 0 <= p
      ensures !OccursAt(Start(v), End(v), p)
    {
      if 0 < p && p + |v.prefix| < |Start(v)| {
        OnlyBracket(v, p + |v.prefix|);
      }
      Mismatch(Start(v), End(v), p, if p == 0 then |v.prefix| + 5 else |v.prefix|);
    }
    FindNone(Start(v), End(v), 0);
  }

  predicate OneLineWord(s: string) {
    '\n' !in s && '\r' !in s
  }

  /**
  A region view with a one-line prefix and name, no `<` in either, no space in the name, and a body of
  whole lines without carriage returns, start markers or end markers.
   */
  ghost predicate PlainView(v: View) {
    && v.region && '<' !in v.prefix && OneLineWord(v.prefix) && PlainWord(v.name) && OneLineWord(v.name)
    && (Body(v) == [] || EndsLine(Body(v))) && NoReturn(Body(v))
    && !Contains(Body(v), HEAD) && !Contains(Body(v), CLOSE)
  }

  /** Views of one file: one comment prefix and different names. */
  ghost predicate PlainViews(vs: seq<View>) {
    && (forall i :: 0 <= i < |vs| ==> PlainView(vs[i]))
    && forall i, j :: 0 <= i < |vs| && 0 <= j < |vs| && i != j ==>
         vs[i].prefix == vs[j].prefix && vs[i].name != vs[j].name
  }

  function AllMarks(vs: seq<View>): (r: seq<Marks>)
    ensures |r| == |vs|
  {
    seq(|vs|, i requires 0 <= i < |vs| => MarksOf(vs[i]))
  }

  lemma FixedPartsPlain()
    ensures OneLineWord(HEAD) && OneLineWord(TAIL) && OneLineWord(CLOSE)
  {
  }

  lemma JoinPlain(a: string, b: string)
    ensures OneLineWord(a + b) <==> OneLineWord(a) && OneLineWord(b)
    ensures NoReturn(a + b) <==> NoReturn(a) && NoReturn(b)
  {
    assert forall c :: c in a + b <==> c in a || c in b;
  }

  lemma LinesPlain(v: View)
    requires OneLineWord(v.prefix) && OneLineWord(v.name)
    ensures OneLineWord(Start(v)) && OneLineWord(End(v))
  {
    FixedPartsPlain();
    StartParts(v);
    EndParts(v);
    JoinPlain(v.name, TAIL);
    JoinPlain(HEAD, v.name + TAIL);
    JoinPlain(v.prefix, HEAD + (v.name + TAIL));
    JoinPlain(v.prefix, CLOSE);
  }

  lemma PlainMarkers(v: View)
    requires PlainView(v)
    ensures PlainMarks(MarksOf(v)) && OneLineMarks(MarksOf(v)) && NoReturn(BlockOf(MarksOf(v)))
  {
    LinesPlain(v);
    StartChars(v);
    EndChars(v);
    JoinPlain(End(v), "\n");
    JoinPlain(Body(v), End(v) + "\n");
    JoinPlain("\n", Body(v) + (End(v) + "\n"));
    JoinPlain(Start(v), "\n" + (Body(v) + (End(v) + "\n")));
  }

  lemma BodyLacksStart(v: View, w: View)
    requires PlainView(w)
    ensures !Contains(Body(w), Start(v)) && !Contains(Body(w), End(w))
  {
    if Contains(Body(w), Start(v)) {
      StartHasHead(v);
      ContainsPart(Body(w), Start(v), HEAD, |v.prefix|);
    }
    if Contains(Body(w), End(w)) {
      EndHasClose(w);
      ContainsPart(Body(w), End(w), CLOSE, |w.prefix|);
    }
  }

  /** Plain views of one file have compatible markers. */
  lemma PlainViewsCompatible(vs: seq<View>)
    requires PlainViews(vs)
    ensures Compatible(AllMarks(vs)) && AllPlain(AllMarks(vs))
    ensures forall i :: 0 <= i < |vs| ==> NoReturn(BlockOf(AllMarks(vs)[i]))
  {
    var ms := AllMarks(vs);
    forall i | 0 <= i < |ms|
      ensures OneLineMarks(ms[i]) && PlainMarks(ms[i]) && NoReturn(BlockOf(ms[i]))
      ensures ms[i].body == [] || EndsLine(ms[i].body)
      ensures !Contains(ms[i].body, ms[i].end) && !Contains(ms[i].start, ms[i].end)
    {
      PlainMarkers(vs[i]);
      BodyLacksStart(vs[i], vs[i]);
      StartLacksEnd(vs[i]);
    }
    forall i, j | 0 <= i < |ms| && 0 <= j < |ms| && i != j
      ensures !Contains(ms[j].start, ms[i].start) && !Contains(ms[j].body, ms[i].start)
              && !Contains(ms[j].end, ms[i].start)
    {
      StartsDiffer(vs[i], vs[j]);
      BodyLacksStart(vs[i], vs[j]);
      EndLacksStart(vs[i], vs[j]);
    }
    MarkerFreeIsCompatible(ms);
  }

  /** A heading without a start marker is no start marker's place. */
  lemma HeadingUnmarked(v: View, t: string)
    requires !Contains(t, HEAD)
    ensures !Contains(t, Start(v))
  {
    if Contains(t, Start(v)) {
      StartHasHead(v);
      ContainsPart(t, Start(v), HEAD, |v.prefix|);
    }
  }
}
