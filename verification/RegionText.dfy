/**
What the writer leaves in a file for one view, letter by letter: the marker lines, every line of the view's
text behind the comment prefix, and how the text is got back from them.
 */
module RegionText {
  import opened Ast
  import opened Text
  import opened Splices
  import opened Regions
  import opened RegionSets
  import opened Newlines
  import opened Views
  import opened Registry

  // ---------- Lines ----------

  /** Each line followed by a newline. */
  function JoinLines(lines: seq<string>): string {
    if lines == [] then [] else lines[0] + ("\n" + JoinLines(lines[1..]))
  }

  /** The lines of a text that ends in a newline. */
  function CutLines(s: string): seq<string>
    decreases |s|
  {
    var p := FindFrom(s, "\n", 0);
    if p < 0 then [] else [s[..p]] + CutLines(s[p + 1..])
  }

  predicate AllLines(lines: seq<string>) {
    forall i :: 0 <= i < |lines| ==> '\n' !in lines[i]
  }

  lemma FirstNewline(line: string, rest: string)
    requires '\n' !in line
    ensures FindFrom(line + ("\n" + rest), "\n", 0) == |line|
  {
    var s := line + ("\n" + rest);
    forall j {:trigger OccursAt(s, "\n", j)} | 0 <= j < |line|
      ensures !OccursAt(s, "\n", j)
    {
      assert s[j] == line[j] && line[j] in line;
      Mismatch(s, "\n", j, 0);
    }
    assert OccursAt(s, "\n", |line|);
    FindIs(s, "\n", 0, |line|);
  }

  lemma {:induction false} CutJoined(lines: seq<string>)
    requires AllLines(lines)
    ensures CutLines(JoinLines(lines)) == lines
  {
    if lines == [] {
      assert FindFrom("", "\n", 0) == -1;
    } else {
      var s := JoinLines(lines);
      FirstNewline(lines[0], JoinLines(lines[1..]));
      assert s[..|lines[0]|] == lines[0] && s[|lines[0]| + 1..] == JoinLines(lines[1..]);
      CutJoined(lines[1..]);
      assert lines == [lines[0]] + lines[1..];
    }
  }

  /** No character of the line ends one. */
  predicate Unbroken(line: string) {
    forall c :: c in line ==> !IsBreak(c)
  }

  predicate AllUnbroken(lines: seq<string>) {
    forall i :: 0 <= i < |lines| ==> Unbroken(lines[i])
  }

  lemma {:induction false} LineLengthIs(line: string, rest: string)
    requires Unbroken(line)
    ensures LineLength(line + ("\n" + rest)) == |line|
  {
    var s := line + ("\n" + rest);
    if line != [] {
      assert line[0] in line && s[1..] == line[1..] + ("\n" + rest);
      assert forall c :: c in line[1..] ==> c in line;
      LineLengthIs(line[1..], rest);
    }
  }

  /** The lines of a text are those it is joined of, each ended by a newline. */
  lemma {:induction false} SplitJoined(lines: seq<string>)
    requires AllUnbroken(lines)
    ensures SplitLines(JoinLines(lines)) == lines
  {
    if lines != [] {
      var s, rest := JoinLines(lines), JoinLines(lines[1..]);
      LineLengthIs(lines[0], rest);
      assert s[..|lines[0]|] == lines[0] && s[|lines[0]| + 1..] == rest && s[|lines[0]|] == '\n';
      SplitJoined(lines[1..]);
      assert lines == [lines[0]] + lines[1..];
    }
  }

  // ---------- Behind the prefix ----------

  /** `r` is `s` without the blanks it ends in. */
  ghost predicate IsStripped(s: string, r: string) {
    && |r| <= |s| && s[..|r|] == r
    && (forall i :: |r| <= i < |s| ==> IsBlank(s[i]))
    && (r == [] || !IsBlank(r[|r| - 1]))
  }

  lemma {:induction false} StrippedIs(s: string)
    ensures IsStripped(s, RStrip(s))
  {
    if s != [] && IsBlank(s[|s| - 1]) {
      StrippedIs(s[..|s| - 1]);
      var r := RStrip(s);
      assert forall i :: |r| <= i < |s| - 1 ==> s[i] == s[..|s| - 1][i];
      assert s[..|r|] == s[..|s| - 1][..|r|];
    }
  }

  /** A line of the view as it stands in the file: behind the prefix, or only the stripped prefix if it is empty. */
  ghost predicate IsCommented(prefix: string, line: string, written: string) {
    if line == [] then IsStripped(prefix, written) else written == prefix + line
  }

  /** The line again, without the prefix. */
  function Uncommented(prefix: string, written: string): string {
    if |prefix| <= |written| && written[..|prefix|] == prefix then written[|prefix|..] else []
  }

  lemma CommentedBack(prefix: string, line: string, written: string)
    requires IsCommented(prefix, line, written)
    ensures Uncommented(prefix, written) == line
  {
  }

  function CommentAll(prefix: string, lines: seq<string>): (r: seq<string>)
    ensures |r| == |lines|
    ensures forall i :: 0 <= i < |lines| ==> r[i] == CommentLine(prefix, lines[i])
  {
    seq(|lines|, i requires 0 <= i < |lines| => CommentLine(prefix, lines[i]))
  }

  lemma {:induction false} JoinedLines(prefix: string, lines: seq<string>)
    requires lines != []
    ensures JoinPrefixed(prefix, lines) + "\n" == JoinLines(CommentAll(prefix, lines))
  {
    var out := CommentAll(prefix, lines);
    if |lines| == 1 {
      assert out == [CommentLine(prefix, lines[0])] && out[1..] == [];
      assert JoinLines(out) == out[0] + ("\n" + "");
    } else {
      JoinedLines(prefix, lines[1..]);
      assert out[1..] == CommentAll(prefix, lines[1..]);
      var head, rest := CommentLine(prefix, lines[0]), JoinPrefixed(prefix, lines[1..]);
      assert head + "\n" + rest + "\n" == head + ("\n" + (rest + "\n"));
    }
  }

  function UncommentAll(prefix: string, written: seq<string>): (r: seq<string>)
    ensures |r| == |written|
    ensures forall i :: 0 <= i < |written| ==> r[i] == Uncommented(prefix, written[i])
  {
    seq(|written|, i requires 0 <= i < |written| => Uncommented(prefix, written[i]))
  }

  lemma CommentedOneLine(prefix: string, line: string)
    requires prefix != [] && '\n' !in prefix && Unbroken(line)
    ensures '\n' !in CommentLine(prefix, line) && IsCommented(prefix, line, CommentLine(prefix, line))
  {
    StrippedIs(prefix);
    if line == [] {
      assert forall c :: c in RStrip(prefix) ==> c in prefix;
    } else {
      assert forall c :: c in prefix + line ==> c in prefix || c in line;
    }
  }

  /**
  The body of a region with a comment prefix has the lines of the view's text, each behind the prefix; taking
  the prefix off each line gives the text back.
   */
  lemma BodyLines(v: View, lines: seq<string>)
    requires v.prefix != [] && '\n' !in v.prefix && lines != [] && AllUnbroken(lines) && v.text == JoinLines(lines)
    ensures |CutLines(Body(v))| == |lines| && Body(v) == JoinLines(CutLines(Body(v)))
    ensures forall i :: 0 <= i < |lines| ==> IsCommented(v.prefix, lines[i], CutLines(Body(v))[i])
    ensures JoinLines(UncommentAll(v.prefix, CutLines(Body(v)))) == v.text
  {
    SplitJoined(lines);
    JoinedLines(v.prefix, lines);
    var out := CommentAll(v.prefix, lines);
    forall i | 0 <= i < |lines|
      ensures '\n' !in out[i] && IsCommented(v.prefix, lines[i], out[i])
    {
      CommentedOneLine(v.prefix, lines[i]);
    }
    CutJoined(out);
    forall i | 0 <= i < |lines|
      ensures Uncommented(v.prefix, out[i]) == lines[i]
    {
      CommentedBack(v.prefix, lines[i], out[i]);
    }
    assert UncommentAll(v.prefix, out) == lines;
  }

  // ---------- In the file ----------

  /** The block of a view: its marker lines, each behind the prefix, around these lines. */
  function Block(v: View, body: string): string {
    var last := v.prefix + "<!-- /generated:reqs -->\n";
    v.prefix + ("<!-- generated:reqs view=" + (v.name + (" -->\n" + (body + last))))
  }

  lemma BlockText(v: View)
    ensures BlockOf(MarksOf(v)) == Block(v, Body(v))
  {
    StartParts(v);
    EndParts(v);
    assert TAIL + "\n" == " -->\n" && CLOSE + "\n" == "<!-- /generated:reqs -->\n";
    assert BlockOf(MarksOf(v))
        == v.prefix + (HEAD + (v.name + (TAIL + "\n" + (Body(v) + (v.prefix + (CLOSE + "\n"))))));
  }

  /** The text stands in the file. */
  ghost predicate Holds(file: string, part: string) {
    exists lo, hi :: 0 <= lo <= hi <= |file| && file[lo..hi] == part
  }

  /** After a write the file of a region view holds its block. */
  lemma WrittenBlock(files: Files, views: seq<View>, i: nat)
    requires Ready(files, views) && i < |views| && views[i].region
    ensures views[i].path in WriteAll(files, views)
    ensures Holds(WriteAll(files, views)[views[i].path], Block(views[i], Body(views[i])))
  {
    var v := views[i];
    var vs := ForPath(views, v.path);
    FilesIndependent(files, views, v.path);
    assert FileReady(Get(files, v.path), vs);
    var k := ListedForPath(views, i);
    if |vs| == 1 {
      assert forall w :: w in vs ==> w == vs[0];
    }
    assert AllRegions(vs);
    RegionsEndClean(Get(files, v.path), vs);
    var t := WriteFile(Get(files, v.path), vs).value;
    assert AllMarks(vs)[k] == MarksOf(v) && Clean(t, MarksOf(v));
    BlockText(v);
    var s := SpanOf(t, MarksOf(v)).value;
    assert t[s.lo..s.hi] == Block(v, Body(v));
  }

  /**
  What a write leaves in the file of a region view with a comment prefix: between the two marker lines stand the
  lines of the view's text, each behind the prefix, and without the prefix they are the text.
   */
  lemma WrittenRegion(files: Files, views: seq<View>, i: nat, lines: seq<string>)
    requires Ready(files, views) && i < |views| && views[i].region
    requires views[i].prefix != [] && '\n' !in views[i].prefix
    requires lines != [] && AllUnbroken(lines) && views[i].text == JoinLines(lines)
    ensures views[i].path in WriteAll(files, views)
    ensures exists written ::
              && Holds(WriteAll(files, views)[views[i].path], Block(views[i], JoinLines(written)))
              && |written| == |lines|
              && (forall k :: 0 <= k < |lines| ==> IsCommented(views[i].prefix, lines[k], written[k]))
              && JoinLines(UncommentAll(views[i].prefix, written)) == views[i].text
  {
    var v := views[i];
    WrittenBlock(files, views, i);
    BodyLines(v, lines);
    var written := CutLines(Body(v));
    assert Holds(WriteAll(files, views)[v.path], Block(v, JoinLines(written)));
  }

  /** Without a comment prefix the text itself stands between the marker lines. */
  lemma WrittenPlainRegion(files: Files, views: seq<View>, i: nat)
    requires Ready(files, views) && i < |views| && views[i].region && views[i].prefix == []
    ensures views[i].path in WriteAll(files, views)
    ensures Holds(WriteAll(files, views)[views[i].path], Block(views[i], views[i].text))
  {
    WrittenBlock(files, views, i);
  }

  /** A file that did not exist holds nothing but the one block, after a heading if there is no comment prefix. */
  lemma NewFile(files: Files, v: View)
    requires v.region && v.path !in files
    ensures v.path in WriteAll(files, [v])
    ensures WriteAll(files, [v])[v.path]
         == (if v.prefix == [] then "# " + v.title + "\n\n" else "") + Block(v, Body(v))
  {
    var next := files[v.path := DefaultDocument(v)];
    assert [v][1..] == [] && WriteAll(next, []) == next;
    assert WriteAll(files, [v]) == next;
    BlockText(v);
    if v.prefix == [] {
      assert Heading(v) + "\n" == "# " + v.title + "\n\n";
    }
  }
}
