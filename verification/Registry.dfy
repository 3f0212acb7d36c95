/**
The generated views of the requirement registry over a tree of files: a whole file, or a region of one.
The writer rewrites the files in a loop; the checker lists what is not up to date. Files are read with
universal newlines and written as they are.
 */
module Registry {
  import opened Ast
  import opened Text
  import opened Splices
  import opened Regions
  import opened RegionSets
  import opened Newlines
  import opened Views

  // ---------- The two passes ----------

  type Files = map<string, string>

  function Get(files: Files, path: string): Option<string> {
    if path in files then Some(files[path]) else None
  }

  function Written(file: Option<string>, v: View): string {
    if !v.region then v.text
    else
      match file
      case None => DefaultDocument(v)
      case Some(raw) => Put(ReadText(raw), MarksOf(v))
  }

  function WriteAll(files: Files, views: seq<View>): Files
    decreases |views|
  {
    if views == [] then files
    else WriteAll(files[views[0].path := Written(Get(files, views[0].path), views[0])], views[1..])
  }

  datatype Issue = MissingGenerated(path: string) | MissingRegion(path: string, name: string) | Stale(path: string)

  function IssueOf(file: Option<string>, v: View): Option<Issue> {
    match file
    case None => Some(MissingGenerated(v.path))
    case Some(raw) =>
      var t := ReadText(raw);
      if v.region then
        var existing := Region(t, MarksOf(v));
        if existing.None? then Some(MissingRegion(v.path, v.name))
        else if existing.value != BlockOf(MarksOf(v)) then Some(Stale(v.path))
        else None
      else if t != v.text then Some(Stale(v.path))
      else None
  }

  function IssuesOf(files: Files, views: seq<View>): seq<Issue> {
    if views == [] then [] else IssueList(IssueOf(Get(files, views[0].path), views[0])) + IssuesOf(files, views[1..])
  }

  function IssueList(issue: Option<Issue>): seq<Issue> {
    match issue
    case Some(i) => [i]
    case None => []
  }

  class Tree {
    var files: Files

    constructor (initial: Files)
      ensures files == initial
    {
      files := initial;
    }

    method WriteGenerated(views: seq<View>)
      modifies this
      ensures files == WriteAll(old(files), views)
    {
      for i := 0 to |views|
        invariant WriteAll(files, views[i..]) == WriteAll(old(files), views)
      {
        var v := views[i];
        assert views[i..][1..] == views[i + 1..];
        if !v.region {
          files := files[v.path := v.text];
          continue;
        }
        if v.path !in files {
          files := files[v.path := DefaultDocument(v)];
          continue;
        }
        var existing, m := ReadText(files[v.path]), MarksOf(v);
        var startIdx := FindFrom(existing, m.start, 0);
        var endIdx := FindFrom(existing, m.end, if startIdx >= 0 then startIdx else 0);
        if startIdx < 0 || endIdx < 0 {
          var suffix := if EndsLine(existing) then "" else "\n";
          files := files[v.path := existing + suffix + "\n" + BlockOf(m)];
          continue;
        }
        endIdx := endIdx + |m.end|;
        if endIdx < |existing| && existing[endIdx] == '\n' {
          endIdx := endIdx + 1;
        }
        files := files[v.path := existing[..startIdx] + BlockOf(m) + existing[endIdx..]];
      }
    }

    method CheckView(v: View) returns (issue: Option<Issue>)
      ensures issue == IssueOf(Get(files, v.path), v)
    {
      if v.path !in files {
        return Some(MissingGenerated(v.path));
      }
      var actual := ReadText(files[v.path]);
      if v.region {
        var existing := Region(actual, MarksOf(v));
        if existing.None? {
          return Some(MissingRegion(v.path, v.name));
        }
        if existing.value != BlockOf(MarksOf(v)) {
          return Some(Stale(v.path));
        }
        return None;
      }
      if actual != v.text {
        return Some(Stale(v.path));
      }
      return None;
    }

    method ValidateGenerated(views: seq<View>) returns (issues: seq<Issue>)
      ensures issues == IssuesOf(files, views)
    {
      issues := [];
      for i := 0 to |views|
        invariant issues == IssuesOf(files, views[..i])
      {
        var issue := CheckView(views[i]);
        assert views[..i + 1] == views[..i] + [views[i]];
        IssuesSnoc(files, views[..i], views[i]);
        if issue.Some? {
          issues := issues + [issue.value];
        }
      }
      assert views[..|views|] == views;
    }
  }

  lemma {:induction false} IssuesSnoc(files: Files, views: seq<View>, v: View)
    ensures IssuesOf(files, views + [v]) == IssuesOf(files, views) + IssueList(IssueOf(Get(files, v.path), v))
  {
    if views == [] {
      assert views + [v] == [v] && [v][1..] == [];
    } else {
      assert (views + [v])[1..] == views[1..] + [v];
      IssuesSnoc(files, views[1..], v);
    }
  }

  // ---------- One file ----------

  /** The views of one file, in order. */
  function ForPath(views: seq<View>, path: string): seq<View> {
    if views == [] then []
    else (if views[0].path == path then [views[0]] else []) + ForPath(views[1..], path)
  }

  function WriteFile(file: Option<string>, vs: seq<View>): Option<string>
    decreases |vs|
  {
    if vs == [] then file else WriteFile(Some(Written(file, vs[0])), vs[1..])
  }

  /** Files do not interfere: what is written to a file depends on it and its own views. */
  lemma {:induction false} FilesIndependent(files: Files, views: seq<View>, path: string)
    ensures Get(WriteAll(files, views), path) == WriteFile(Get(files, path), ForPath(views, path))
    decreases |views|
  {
    if views != [] {
      var v := views[0];
      var next := files[v.path := Written(Get(files, v.path), v)];
      FilesIndependent(next, views[1..], path);
      if v.path == path {
        assert ForPath(views, path)[1..] == ForPath(views[1..], path);
        assert Get(next, path) == Some(Written(Get(files, path), v));
      } else {
        assert ForPath(views, path) == ForPath(views[1..], path);
        assert Get(next, path) == Get(files, path);
      }
    }
  }

  ghost predicate AllRegions(vs: seq<View>) {
    forall v :: v in vs ==> v.region
  }

  /** Blocks without carriage returns. */
  ghost predicate PlainBlocks(ms: seq<Marks>) {
    forall h :: 0 <= h < |ms| ==> NoReturn(BlockOf(ms[h]))
  }

  lemma {:induction false} FoldIsPutAll(t: string, vs: seq<View>, i: nat)
    requires AllRegions(vs) && i <= |vs| && NoReturn(t) && PlainBlocks(AllMarks(vs))
    ensures WriteFile(Some(t), vs[i..]) == Some(PutAll(t, AllMarks(vs), i))
    decreases |vs| - i
  {
    if i < |vs| {
      assert vs[i..][0] in vs && vs[i..][1..] == vs[i + 1..];
      assert AllMarks(vs)[i] == MarksOf(vs[i]);
      ReadIsIdentityIff(t);
      PutHasNoReturn(t, MarksOf(vs[i]));
      FoldIsPutAll(Put(t, MarksOf(vs[i])), vs, i + 1);
    }
  }

  /** The first write reads the file; from then on the text has no carriage return. */
  lemma ReadFirst(raw: string, vs: seq<View>)
    requires vs != [] && AllRegions(vs)
    ensures WriteFile(Some(raw), vs) == WriteFile(Some(ReadText(raw)), vs)
  {
    ReadHasNoReturn(raw, 0);
    ReadIsIdentityIff(ReadText(raw));
    assert vs[0] in vs;
  }

  /**
  What the writer may count on for one file: a view of the whole file is the only one; regions have
  compatible markers, correctly paired in the text read from the file if it exists and absent from the
  heading if it does not; what is written has no carriage return.
   */
  ghost predicate FileReady(file: Option<string>, vs: seq<View>) {
    if vs != [] && AllRegions(vs) then
      && Compatible(AllMarks(vs)) && PlainBlocks(AllMarks(vs))
      && (match file
          case Some(raw) => Paired(ReadText(raw), AllMarks(vs))
          case None => vs[0].prefix == [] ==> NoReturn(Heading(vs[0])) && Unmarked(Heading(vs[0]), AllMarks(vs)))
    else |vs| <= 1 && forall v :: v in vs ==> NoReturn(v.text)
  }

  ghost predicate Unmarked(t: string, ms: seq<Marks>) {
    forall i :: 0 <= i < |ms| ==> !Contains(t, ms[i].start)
  }

  lemma UnmarkedIsPaired(t: string, ms: seq<Marks>)
    requires Unmarked(t, ms)
    ensures Paired(t, ms)
  {
    assert forall i :: 0 <= i < |ms| ==> SpanOf(t, ms[i]).None?;
  }

  /** A new document holds the first region, and nothing of the others. */
  lemma NewDocument(vs: seq<View>)
    requires vs != [] && AllRegions(vs) && FileReady(None, vs)
    ensures Paired(DefaultDocument(vs[0]), AllMarks(vs)) && Clean(DefaultDocument(vs[0]), AllMarks(vs)[0])
    ensures NoReturn(DefaultDocument(vs[0]))
  {
    var ms := AllMarks(vs);
    assert ms[0] == MarksOf(vs[0]);
    if vs[0].prefix == [] {
      UnmarkedIsPaired(Heading(vs[0]), ms);
      PutKeeps(Heading(vs[0]), ms, 0);
      assert Put(Heading(vs[0]), ms[0]) == DefaultDocument(vs[0]);
    } else {
      BlockAlone(ms);
    }
  }

  lemma BlockAlone(ms: seq<Marks>)
    requires ms != [] && Compatible(ms)
    ensures Paired(BlockOf(ms[0]), ms) && Clean(BlockOf(ms[0]), ms[0])
  {
    BlockIsClean(ms[0]);
    assert forall i :: 0 < i < |ms| ==> SpanOf(BlockOf(ms[0]), ms[i]).None?;
  }

  lemma BlockIsClean(m: Marks)
    requires OneLineMarks(m) && EndsOnce(m)
    ensures Clean(BlockOf(m), m)
  {
    var k := BlockOf(m);
    SpliceIs("", 0, 0, k);
    assert ""[..0] + k + ""[0..] == k;
    RegionAtBlock("", 0, 0, m, k);
  }

  /** The file after the pass, with all its regions and without carriage returns. */
  lemma WriteFileIs(file: Option<string>, vs: seq<View>)
    requires vs != [] && AllRegions(vs) && FileReady(file, vs)
    ensures WriteFile(file, vs).Some? && NoReturn(WriteFile(file, vs).value)
    ensures match file
            case Some(raw) => WriteFile(file, vs) == Some(PutAll(ReadText(raw), AllMarks(vs), 0))
            case None => WriteFile(file, vs) == Some(PutAll(DefaultDocument(vs[0]), AllMarks(vs), 1))
  {
    match file
    case Some(raw) =>
      assert vs[0..] == vs;
      ReadFirst(raw, vs);
      ReadHasNoReturn(raw, 0);
      FoldIsPutAll(ReadText(raw), vs, 0);
      PutAllHasNoReturn(ReadText(raw), AllMarks(vs), 0);
    case None =>
      assert vs[0] in vs;
      NewDocument(vs);
      FoldIsPutAll(DefaultDocument(vs[0]), vs, 1);
      PutAllHasNoReturn(DefaultDocument(vs[0]), AllMarks(vs), 1);
  }

  ghost predicate EveryClean(t: string, ms: seq<Marks>) {
    forall h :: 0 <= h < |ms| ==> Clean(t, ms[h])
  }

  lemma PutAllEndsClean(t: string, ms: seq<Marks>, i: nat)
    requires Compatible(ms) && Paired(t, ms) && i <= |ms| && i <= 1 && (i == 1 ==> Clean(t, ms[0]))
    ensures EveryClean(PutAll(t, ms, i), ms)
  {
    AllClean(t, ms, i);
  }

  lemma RegionsEndClean(file: Option<string>, vs: seq<View>)
    requires vs != [] && AllRegions(vs) && FileReady(file, vs)
    ensures WriteFile(file, vs).Some? && EveryClean(WriteFile(file, vs).value, AllMarks(vs))
    ensures NoReturn(WriteFile(file, vs).value)
  {
    WriteFileIs(file, vs);
    match file
    case Some(raw) => PutAllEndsClean(ReadText(raw), AllMarks(vs), 0);
    case None =>
      NewDocument(vs);
      PutAllEndsClean(DefaultDocument(vs[0]), AllMarks(vs), 1);
  }

  /** Nothing to report about any view of the file. */
  ghost predicate FileUpToDate(file: Option<string>, vs: seq<View>) {
    forall i :: 0 <= i < |vs| ==> IssueOf(file, vs[i]).None?
  }

  lemma CleanIsUpToDate(t: string, vs: seq<View>)
    requires AllRegions(vs) && EveryClean(t, AllMarks(vs)) && NoReturn(t)
    ensures FileUpToDate(Some(t), vs)
  {
    ReadIsIdentityIff(t);
    forall i | 0 <= i < |vs|
      ensures IssueOf(Some(t), vs[i]).None?
    {
      assert vs[i] in vs && AllMarks(vs)[i] == MarksOf(vs[i]);
      assert Clean(t, AllMarks(vs)[i]);
    }
  }

  lemma FileEndsUpToDate(file: Option<string>, vs: seq<View>)
    requires FileReady(file, vs)
    ensures FileUpToDate(WriteFile(file, vs), vs)
    ensures vs != [] ==> WriteFile(file, vs).Some? && NoReturn(WriteFile(file, vs).value)
  {
    if vs != [] {
      if AllRegions(vs) {
        RegionsEndClean(file, vs);
        CleanIsUpToDate(WriteFile(file, vs).value, vs);
      } else {
        assert vs[1..] == [] && vs == [vs[0]] && vs[0] in vs;
        ReadIsIdentityIff(vs[0].text);
      }
    }
  }

  /** A file that is up to date and has no carriage return is written as it is. */
  lemma {:induction false} UpToDateIsFixed(t: string, vs: seq<View>)
    requires FileUpToDate(Some(t), vs) && NoReturn(t)
    ensures WriteFile(Some(t), vs) == Some(t)
    decreases |vs|
  {
    if vs != [] {
      assert IssueOf(Some(t), vs[0]).None?;
      ReadIsIdentityIff(t);
      if vs[0].region {
        PutClean(t, MarksOf(vs[0]));
      }
      assert forall i :: 0 <= i < |vs[1..]| ==> vs[1..][i] == vs[i + 1];
      UpToDateIsFixed(t, vs[1..]);
    }
  }

  // ---------- All files ----------

  ghost predicate Ready(files: Files, views: seq<View>) {
    forall path :: FileReady(Get(files, path), ForPath(views, path))
  }

  lemma {:induction false} NoIssues(files: Files, views: seq<View>)
    ensures IssuesOf(files, views) == []
            <==> forall i :: 0 <= i < |views| ==> IssueOf(Get(files, views[i].path), views[i]).None?
  {
    if views != [] {
      NoIssues(files, views[1..]);
      assert forall i :: 0 <= i < |views[1..]| ==> views[1..][i] == views[i + 1];
      if forall i :: 0 <= i < |views[1..]| ==> IssueOf(Get(files, views[1..][i].path), views[1..][i]).None? {
        assert forall i :: 0 < i < |views| ==> views[i] == views[1..][i - 1];
      }
    }
  }

  lemma {:induction false} ListedForPath(views: seq<View>, i: nat) returns (k: nat)
    requires i < |views|
    ensures k < |ForPath(views, views[i].path)| && ForPath(views, views[i].path)[k] == views[i]
  {
    if i == 0 {
      k := 0;
    } else {
      var r := ListedForPath(views[1..], i - 1);
      k := if views[0].path == views[i].path then r + 1 else r;
    }
  }

  /** Writing all views leaves the checker nothing to report. */
  lemma WriteThenValidate(files: Files, views: seq<View>)
    requires Ready(files, views)
    ensures IssuesOf(WriteAll(files, views), views) == []
  {
    var after := WriteAll(files, views);
    forall i | 0 <= i < |views|
      ensures IssueOf(Get(after, views[i].path), views[i]).None?
    {
      var path := views[i].path;
      FilesIndependent(files, views, path);
      assert FileReady(Get(files, path), ForPath(views, path));
      FileEndsUpToDate(Get(files, path), ForPath(views, path));
      var k := ListedForPath(views, i);
      assert IssueOf(Get(after, path), ForPath(views, path)[k]).None?;
    }
    NoIssues(after, views);
  }

  /** A second write changes no file. */
  lemma SecondWriteIsIdle(files: Files, views: seq<View>)
    requires Ready(files, views)
    ensures WriteAll(WriteAll(files, views), views) == WriteAll(files, views)
  {
    var after := WriteAll(files, views);
    var again := WriteAll(after, views);
    forall path
      ensures Get(again, path) == Get(after, path)
    {
      FilesIndependent(files, views, path);
      FilesIndependent(after, views, path);
      assert FileReady(Get(files, path), ForPath(views, path));
      FileEndsUpToDate(Get(files, path), ForPath(views, path));
      if ForPath(views, path) != [] {
        UpToDateIsFixed(after[path], ForPath(views, path));
      }
    }
    SameFiles(again, after);
  }

  lemma SameFiles(a: Files, b: Files)
    requires forall path :: Get(a, path) == Get(b, path)
    ensures a == b
  {
    forall path
      ensures path in a <==> path in b
      ensures path in a ==> a[path] == b[path]
    {
      assert Get(a, path) == Get(b, path);
    }
  }

  /** A file without views is untouched. */
  lemma OtherFilesUntouched(files: Files, views: seq<View>, path: string)
    requires ForPath(views, path) == []
    ensures Get(WriteAll(files, views), path) == Get(files, path)
  {
    FilesIndependent(files, views, path);
  }

  lemma BlocksGivePlainMarks(ms: seq<Marks>)
    requires Compatible(ms) && PlainBlocks(ms)
    ensures AllPlain(ms)
  {
    forall i | 0 <= i < |ms|
      ensures PlainMarks(ms[i])
    {
      var m := ms[i];
      BlockParts(m);
      assert OneLineMarks(m) && NoReturn(BlockOf(m));
      assert forall c :: c in m.start || c in m.end ==> c in BlockOf(m);
    }
  }

  /** The text around the regions, as it was read, is kept up to newlines before appended blocks. */
  lemma ReadTextIsKept(files: Files, views: seq<View>, path: string)
    requires Ready(files, views) && path in files && ForPath(views, path) != [] && AllRegions(ForPath(views, path))
    ensures path in WriteAll(files, views) && NoReturn(WriteAll(files, views)[path])
    ensures var ms, after := AllMarks(ForPath(views, path)), WriteAll(files, views)[path];
            && GrownByNewlines(Outside(ReadText(files[path]), ms), Outside(after, ms))
            && (AllPresent(ReadText(files[path]), ms) ==> Outside(after, ms) == Outside(ReadText(files[path]), ms))
  {
    var vs := ForPath(views, path);
    var ms, t := AllMarks(vs), ReadText(files[path]);
    FilesIndependent(files, views, path);
    assert FileReady(Get(files, path), vs);
    WriteFileIs(Some(files[path]), vs);
    AllOutside(t, ms, 0);
    if AllPresent(t, ms) {
      PresentOutside(t, ms, 0);
    }
  }

  /**
  In a file of regions the text outside them is the same afterwards, up to newlines before the blocks
  that had to be appended, exactly when no carriage return stands outside the regions.
   */
  lemma OutsideIsKeptIff(files: Files, views: seq<View>, path: string)
    requires Ready(files, views) && path in files && ForPath(views, path) != [] && AllRegions(ForPath(views, path))
    ensures path in WriteAll(files, views)
    ensures var ms := AllMarks(ForPath(views, path));
            GrownByNewlines(Outside(files[path], ms), Outside(WriteAll(files, views)[path], ms))
            <==> NoReturn(Outside(files[path], ms))
  {
    var vs := ForPath(views, path);
    var ms := AllMarks(vs);
    ReadTextIsKept(files, views, path);
    assert FileReady(Get(files, path), vs);
    BlocksGivePlainMarks(ms);
    var after := WriteAll(files, views)[path];
    KeepHasNoReturn(after, 0, SpansOf(after, ms));
    if NoReturn(Outside(files[path], ms)) {
      OutsideRead(files[path], ms);
    } else if GrownByNewlines(Outside(files[path], ms), Outside(after, ms)) {
      PrefixHasNoReturn(Outside(files[path], ms), Outside(after, ms));
    }
  }

  lemma PrefixHasNoReturn(a: string, b: string)
    requires |a| <= |b| && b[..|a|] == a && NoReturn(b)
    ensures NoReturn(a)
  {
    assert forall i :: 0 <= i < |a| ==> a[i] == b[i] && b[i] in b;
  }

  /** One region in an existing file: the exact condition under which the checker accepts what the writer wrote. */
  lemma OneViewIff(files: Files, v: View)
    requires v.region && v.path in files && OneLineMarks(MarksOf(v))
    ensures IssuesOf(WriteAll(files, [v]), [v]) == []
            <==> NoReturn(BlockOf(MarksOf(v))) && EndsOnce(MarksOf(v)) && !Orphan(ReadText(files[v.path]), MarksOf(v))
  {
    var t, m := ReadText(files[v.path]), MarksOf(v);
    WrittenIsCleanIff(t, m);
    OneViewIssues(files, v);
    ReadHasNoReturn(files[v.path], 0);
    if NoReturn(BlockOf(m)) {
      PutHasNoReturn(t, m);
      ReadIsIdentityIff(Put(t, m));
    } else {
      ReadHasNoReturn(Put(t, m), 0);
      RegionHasNoReturn(ReadText(Put(t, m)), m);
    }
  }

  lemma OneViewIssues(files: Files, v: View)
    requires v.region && v.path in files
    ensures IssuesOf(WriteAll(files, [v]), [v]) == []
            <==> Clean(ReadText(Put(ReadText(files[v.path]), MarksOf(v))), MarksOf(v))
  {
    var u := Put(ReadText(files[v.path]), MarksOf(v));
    var next := files[v.path := u];
    assert [v][1..] == [] && WriteAll(next, []) == next;
    assert WriteAll(files, [v]) == next;
    NoIssues(next, [v]);
    assert [v][0] == v && Get(next, v.path) == Some(u);
  }

  lemma RegionHasNoReturn(t: string, m: Marks)
    requires NoReturn(t)
    ensures Region(t, m).Some? ==> NoReturn(Region(t, m).value)
  {
    match SpanOf(t, m)
    case Some(s) => assert forall c :: c in t[s.lo..s.hi] ==> c in t;
    case None =>
  }

  /** A view of a whole file is up to date after a write exactly when its text has no carriage return. */
  lemma WholeFileIff(files: Files, v: View)
    requires !v.region
    ensures IssuesOf(WriteAll(files, [v]), [v]) == [] <==> NoReturn(v.text)
  {
    var next := files[v.path := v.text];
    assert [v][1..] == [] && WriteAll(next, []) == next;
    assert WriteAll(files, [v]) == next;
    NoIssues(next, [v]);
    assert [v][0] == v && Get(next, v.path) == Some(v.text);
    ReadIsIdentityIff(v.text);
  }

  /** The view of `a`, a carriage return and `b` is reported stale after every write, in every file. */
  lemma CarriageReturnIsStale(files: Files, v: View)
    requires v == View("f", "n", true, "", "a\rb\n", "") && v.path in files
    ensures IssuesOf(WriteAll(files, [v]), [v]) != []
  {
    LinesPlain(v);
    StartChars(v);
    EndChars(v);
    assert v.text[1] == '\r' && v.text[1] in Body(v);
    BodyInBlock(MarksOf(v), '\r');
    OneViewIff(files, v);
  }

  lemma BodyInBlock(m: Marks, c: char)
    requires c in m.body
    ensures c in BlockOf(m)
  {
    assert c in m.body + (m.end + "\n") && c in "\n" + (m.body + (m.end + "\n"));
  }

  /** Text read before a block: the block's region stays where it is. */
  lemma BlockAfterLine(line: string, m: Marks)
    requires OneLineMarks(m) && EndsOnce(m) && EndsLine(line) && !Contains(line, m.start)
    ensures SpanOf(line + BlockOf(m), m).Some? && SpanOf(line + BlockOf(m), m).value.lo == |line|
  {
    SpliceIs(line, |line|, |line|, BlockOf(m));
    assert line[..|line|] + BlockOf(m) + line[|line|..] == line + BlockOf(m);
    RegionAtBlock(line, |line|, |line|, m, line + BlockOf(m));
  }

  /** A line break is no place for a marker. */
  lemma BreakUnmarked(line: string, x: string)
    requires PlainMark(x) && (line == "\r\n" || line == "\n")
    ensures !Contains(line, x)
  {
    MarkChar(x, 0);
    forall p {:trigger OccursAt(line, x, p)} | 0 <= p
      ensures !OccursAt(line, x, p)
    {
      Mismatch(line, x, p, 0);
    }
    FindNone(line, x, 0);
  }

  lemma {:induction false} ReadAfterBreak(k: string, p: nat)
    requires NoReturn(k) && k != [] && k[0] != '\n' && p <= |k|
    ensures ReadFrom("\r\n" + k, p + 2) == k[p..]
    decreases |k| - p
  {
    if p < |k| {
      assert k[p] in k && (p > 0 ==> k[p - 1] in k);
      ReadAfterBreak(k, p + 1);
    }
  }

  lemma BreakRead(k: string)
    requires NoReturn(k) && k != [] && k[0] != '\n'
    ensures ReadText("\r\n" + k) == "\n" + k
  {
    var s := "\r\n" + k;
    ReadAfterBreak(k, 0);
    assert k[0..] == k;
    assert ReadFrom(s, 1) == ReadFrom(s, 2);
  }

  /** A carriage return and newline before an up-to-date region: the write loses the carriage return. */
  lemma CarriageReturnIsLost(files: Files, v: View)
    requires PlainView(v) && files == map[v.path := "\r\n" + BlockOf(MarksOf(v))]
    ensures Ready(files, [v]) && v.path in WriteAll(files, [v])
    ensures var ms := AllMarks([v]);
            !GrownByNewlines(Outside(files[v.path], ms), Outside(WriteAll(files, [v])[v.path], ms))
  {
    var m, ms, raw := MarksOf(v), AllMarks([v]), files[v.path];
    SingleReady(files, v);
    BreakUnmarked("\r\n", m.start);
    BlockAfterLine("\r\n", m);
    assert ms[0] == m && !Within(SpansOf(raw, ms)[0], 0);
    KeptChar(raw, 0, SpansOf(raw, ms), 0);
    ForOne(v);
    OutsideIsKeptIff(files, [v], v.path);
  }

  lemma ForOne(v: View)
    ensures ForPath([v], v.path) == [v] && forall path :: path != v.path ==> ForPath([v], path) == []
  {
    assert [v][1..] == [];
  }

  lemma SingleReady(files: Files, v: View)
    requires PlainView(v) && files == map[v.path := "\r\n" + BlockOf(MarksOf(v))]
    ensures Ready(files, [v]) && OneLineMarks(MarksOf(v)) && EndsOnce(MarksOf(v)) && PlainMarks(MarksOf(v))
  {
    var m := MarksOf(v);
    PlainMarkers(v);
    PlainViewsCompatible([v]);
    assert AllMarks([v])[0] == m;
    MarkChar(m.start, 0);
    BreakRead(BlockOf(m));
    BreakUnmarked("\n", m.start);
    BlockAfterLine("\n", m);
    ForOne(v);
    forall path
      ensures FileReady(Get(files, path), ForPath([v], path))
    {
    }
  }

  // ---------- From the views to the guarantees ----------

  /** The views of one file: one view of the whole file, or plain region views, with a plain heading for a new file. */
  ghost predicate PlainFile(vs: seq<View>) {
    if vs != [] && AllRegions(vs) then
      PlainViews(vs) && (vs[0].prefix == [] ==> NoReturn(Heading(vs[0])) && !Contains(Heading(vs[0]), HEAD))
    else |vs| <= 1 && forall v :: v in vs ==> NoReturn(v.text)
  }

  /**
  Views with distinct plain names, one comment prefix a file and marker-free bodies are ready on every tree
  of files whose markers are properly paired, so that `WriteThenValidate`, `SecondWriteIsIdle` and
  `OutsideIsKeptIff` hold of them.
   */
  lemma PlainViewsAreReady(files: Files, views: seq<View>)
    requires forall path :: PlainFile(ForPath(views, path))
    requires forall path :: path in files ==> Paired(ReadText(files[path]), AllMarks(ForPath(views, path)))
    ensures Ready(files, views)
  {
    forall path
      ensures FileReady(Get(files, path), ForPath(views, path))
    {
      assert PlainFile(ForPath(views, path));
      if path in files {
        assert Paired(ReadText(files[path]), AllMarks(ForPath(views, path)));
      }
      PlainFileIsReady(Get(files, path), ForPath(views, path));
    }
  }

  lemma PlainFileIsReady(file: Option<string>, vs: seq<View>)
    requires PlainFile(vs) && (file.Some? ==> Paired(ReadText(file.value), AllMarks(vs)))
    ensures FileReady(file, vs)
  {
    if vs != [] && AllRegions(vs) {
      PlainViewsCompatible(vs);
      if vs[0].prefix == [] {
        forall i | 0 <= i < |vs|
          ensures !Contains(Heading(vs[0]), AllMarks(vs)[i].start)
        {
          HeadingUnmarked(vs[i], Heading(vs[0]));
        }
      }
    }
  }
}
