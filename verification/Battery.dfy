/**
The proof-text scanner of the frozen battery: stripping comments, finding whole words, and anchoring `simp`
lists.
 */
module Battery {
  import opened Ast
  import opened Text

  // ---------- Comments ----------

  /** A block comment opens at `i`. */
  predicate OpensBlock(t: string, i: nat) {
    i + 1 < |t| && t[i] == '/' && t[i + 1] == '-'
  }

  predicate ClosesBlock(t: string, i: nat) {
    i + 1 < |t| && t[i] == '-' && t[i + 1] == '/'
  }

  predicate OpensLine(t: string, i: nat) {
    i + 1 < |t| && t[i] == '-' && t[i + 1] == '-'
  }

  /** Past the end of the block comment whose inside starts at `i`; an unterminated one takes the rest. */
  function BlockEnd(t: string, i: nat): (r: nat)
    requires i <= |t|
    ensures i <= r <= |t|
    decreases |t| - i
  {
    if i + 1 >= |t| then |t|
    else if ClosesBlock(t, i) then i + 2
    else BlockEnd(t, i + 1)
  }

  /** The newline that ends a line comment, or the end of the text. */
  function LineEnd(t: string, i: nat): (r: nat)
    requires i <= |t|
    ensures i <= r <= |t| && (r < |t| ==> t[r] == '\n')
    decreases |t| - i
  {
    if i == |t| || t[i] == '\n' then i else LineEnd(t, i + 1)
  }

  function Strip(t: string, i: nat): string
    requires i <= |t|
    decreases |t| - i
  {
    if i == |t| then []
    else if OpensBlock(t, i) then [' '] + Strip(t, BlockEnd(t, i + 2))
    else if OpensLine(t, i) then Strip(t, LineEnd(t, i + 2))
    else [t[i]] + Strip(t, i + 1)
  }

  method StripComments(t: string) returns (out: string)
    ensures out == Strip(t, 0)
  {
    out := [];
    var i := 0;
    while i < |t|
      invariant i <= |t| && out + Strip(t, i) == Strip(t, 0)
    {
      if OpensBlock(t, i) {
        ghost var from := i;
        i := i + 2;
        while i + 1 < |t| && !ClosesBlock(t, i)
          invariant from + 2 <= i <= |t| && BlockEnd(t, i) == BlockEnd(t, from + 2)
        {
          i := i + 1;
        }
        i := if i + 2 < |t| then i + 2 else |t|;
        out := out + [' '];
        continue;
      }
      if OpensLine(t, i) {
        ghost var from := i;
        LineStart(t, i);
        while i < |t| && t[i] != '\n'
          invariant from <= i <= |t| && LineEnd(t, i) == LineEnd(t, from + 2) && (i == from ==> i < |t| && t[i] != '\n')
          decreases |t| - i
        {
          i := i + 1;
        }
        continue;
      }
      out := out + [t[i]];
      i := i + 1;
    }
  }

  /** The two dashes themselves end no line. */
  lemma LineStart(t: string, i: nat)
    requires OpensLine(t, i)
    ensures LineEnd(t, i) == LineEnd(t, i + 2)
  {
    assert LineEnd(t, i) == LineEnd(t, i + 1);
  }

  /** No comment opens anywhere. */
  predicate CommentFree(t: string) {
    forall i :: 0 <= i < |t| ==> !OpensBlock(t, i) && !OpensLine(t, i)
  }

  lemma CommentFreeCons(c: char, t: string)
    requires CommentFree(t)
    requires t != [] ==> !(c == '/' && t[0] == '-') && !(c == '-' && t[0] == '-')
    ensures CommentFree([c] + t)
  {
    var u := [c] + t;
    forall i | 0 <= i < |u|
      ensures !OpensBlock(u, i) && !OpensLine(u, i)
    {
      if i > 0 {
        assert !OpensBlock(t, i - 1) && !OpensLine(t, i - 1);
      }
    }
  }

  /**
  What is kept at a position starts with that very character, with the space of a comment, or with the
  newline after one.
   */
  lemma StripHead(t: string, i: nat)
    requires i <= |t| && Strip(t, i) != []
    ensures i < |t| && (Strip(t, i)[0] == t[i] || Strip(t, i)[0] in {' ', '\n'})
  {
    if !OpensBlock(t, i) && OpensLine(t, i) {
      var e := LineEnd(t, i + 2);
      if e < |t| {
        assert Strip(t, e)[0] == '\n';
      }
    }
  }

  /** Stripped text opens no comment. */
  lemma {:induction false} StrippedIsCommentFree(t: string, i: nat)
    requires i <= |t|
    ensures CommentFree(Strip(t, i))
    decreases |t| - i
  {
    if i < |t| {
      if OpensBlock(t, i) {
        StrippedIsCommentFree(t, BlockEnd(t, i + 2));
        CommentFreeCons(' ', Strip(t, BlockEnd(t, i + 2)));
      } else if OpensLine(t, i) {
        StrippedIsCommentFree(t, LineEnd(t, i + 2));
      } else {
        StrippedIsCommentFree(t, i + 1);
        if Strip(t, i + 1) != [] {
          StripHead(t, i + 1);
        }
        CommentFreeCons(t[i], Strip(t, i + 1));
      }
    }
  }

  lemma {:induction false} CommentFreeStays(t: string, i: nat)
    requires CommentFree(t) && i <= |t|
    ensures Strip(t, i) == t[i..]
    decreases |t| - i
  {
    if i < |t| {
      CommentFreeStays(t, i + 1);
    }
  }

  /** Stripping leaves exactly the texts alone that open no comment. */
  lemma FixedIffCommentFree(t: string)
    ensures Strip(t, 0) == t <==> CommentFree(t)
  {
    if CommentFree(t) {
      CommentFreeStays(t, 0);
    } else {
      StrippedIsCommentFree(t, 0);
    }
  }

  lemma StripIsIdempotent(t: string)
    ensures Strip(Strip(t, 0), 0) == Strip(t, 0)
  {
    StrippedIsCommentFree(t, 0);
    CommentFreeStays(Strip(t, 0), 0);
  }

  /** Up to `k` no comment opens. */
  ghost predicate QuietBefore(t: string, k: nat) {
    k <= |t| && forall i :: 0 <= i < k ==> !OpensBlock(t, i) && !OpensLine(t, i)
  }

  lemma {:induction false} StripQuiet(t: string, i: nat, k: nat)
    requires QuietBefore(t, k) && i <= k
    ensures Strip(t, i) == t[i..k] + Strip(t, k)
    decreases k - i
  {
    if i < k {
      StripQuiet(t, i + 1, k);
    }
  }

  /** Stripping from a position is stripping what follows it. */
  lemma {:induction false} StripSuffix(t: string, a: nat, i: nat)
    requires a <= i <= |t|
    ensures Strip(t, i) == Strip(t[a..], i - a)
    decreases |t| - i
  {
    if i < |t| {
      if OpensBlock(t, i) {
        BlockEndSuffix(t, a, i + 2);
        StripSuffix(t, a, BlockEnd(t, i + 2));
      } else if OpensLine(t, i) {
        LineEndSuffix(t, a, i + 2);
        StripSuffix(t, a, LineEnd(t, i + 2));
      } else {
        StripSuffix(t, a, i + 1);
      }
    }
  }

  lemma {:induction false} BlockEndSuffix(t: string, a: nat, i: nat)
    requires a <= i <= |t|
    ensures BlockEnd(t, i) == a + BlockEnd(t[a..], i - a)
    decreases |t| - i
  {
    if i + 1 < |t| && !ClosesBlock(t, i) {
      BlockEndSuffix(t, a, i + 1);
    }
  }

  lemma {:induction false} LineEndSuffix(t: string, a: nat, i: nat)
    requires a <= i <= |t|
    ensures LineEnd(t, i) == a + LineEnd(t[a..], i - a)
    decreases |t| - i
  {
    if i < |t| && t[i] != '\n' {
      LineEndSuffix(t, a, i + 1);
    }
  }

  lemma {:induction false} LineEndIs(t: string, i: nat, e: nat)
    requires i <= e <= |t| && (forall k :: i <= k < e ==> t[k] != '\n') && (e < |t| ==> t[e] == '\n')
    ensures LineEnd(t, i) == e
    decreases e - i
  {
    if i < e {
      LineEndIs(t, i + 1, e);
    }
  }

  lemma {:induction false} BlockEndIs(t: string, i: nat, e: nat)
    requires i <= e && ClosesBlock(t, e) && (forall k :: i <= k < e ==> !ClosesBlock(t, k))
    ensures BlockEnd(t, i) == e + 2
    decreases e - i
  {
    if i < e {
      BlockEndIs(t, i + 1, e);
    }
  }

  /**
  The first comment is a line comment: what precedes it is kept, it goes, and its newline and the rest are
  stripped on.
   */
  lemma LineCommentGoes(t: string, k: nat, e: nat)
    requires QuietBefore(t, k) && OpensLine(t, k) && !OpensBlock(t, k)
    requires k + 2 <= e <= |t| && (forall q :: k + 2 <= q < e ==> t[q] != '\n') && (e < |t| ==> t[e] == '\n')
    ensures Strip(t, 0) == t[..k] + Strip(t[e..], 0)
  {
    StripQuiet(t, 0, k);
    LineEndIs(t, k + 2, e);
    StripSuffix(t, e, e);
  }

  /** The first comment is a block comment: it becomes one space. */
  lemma BlockCommentGoes(t: string, k: nat, e: nat)
    requires QuietBefore(t, k) && OpensBlock(t, k)
    requires k + 2 <= e && ClosesBlock(t, e) && forall q :: k + 2 <= q < e ==> !ClosesBlock(t, q)
    ensures Strip(t, 0) == t[..k] + ([' '] + Strip(t[e + 2..], 0))
  {
    StripQuiet(t, 0, k);
    BlockAt(t, k, e);
  }

  lemma BlockAt(t: string, k: nat, e: nat)
    requires OpensBlock(t, k)
    requires k + 2 <= e && ClosesBlock(t, e) && forall q :: k + 2 <= q < e ==> !ClosesBlock(t, q)
    ensures Strip(t, k) == [' '] + Strip(t[e + 2..], 0)
  {
    BlockEndIs(t, k + 2, e);
    StripSuffix(t, e + 2, e + 2);
  }

  /** A block comment that is never closed takes the rest of the text. */
  lemma UnclosedCommentGoes(t: string, k: nat)
    requires QuietBefore(t, k) && OpensBlock(t, k) && forall q :: k + 2 <= q < |t| ==> !ClosesBlock(t, q)
    ensures Strip(t, 0) == t[..k] + [' ']
  {
    StripQuiet(t, 0, k);
    NeverCloses(t, k + 2);
  }

  lemma {:induction false} NeverCloses(t: string, i: nat)
    requires i <= |t| && forall q :: i <= q < |t| ==> !ClosesBlock(t, q)
    ensures BlockEnd(t, i) == |t|
    decreases |t| - i
  {
    if i + 1 < |t| {
      NeverCloses(t, i + 1);
    }
  }

  // ---------- Whole words ----------

  /** `letter` says which characters are alphanumeric. */
  predicate IsIdentChar(letter: char -> bool, c: char) {
    letter(c) || c == '_' || c == '\''
  }

  predicate Bounded(letter: char -> bool, s: string, at: nat, after: nat)
    requires at <= after <= |s|
  {
    && (at == 0 || !IsIdentChar(letter, s[at - 1]))
    && (after == |s| || !IsIdentChar(letter, s[after]))
  }

  /** `word` stands at `at` with no identifier character on either side. */
  predicate WholeWordAt(letter: char -> bool, s: string, word: string, at: int) {
    OccursAt(s, word, at) && Bounded(letter, s, at, at + |word|)
  }

  /** A character that may stand inside a word: alphanumeric, an underscore or a prime. */
  ghost predicate Joins(letter: char -> bool, s: string, q: int) {
    0 <= q < |s| && (letter(s[q]) || s[q] in "_'")
  }

  /** A whole word is an occurrence with neither neighbour a character that may stand inside a word. */
  lemma WholeWordMeans(letter: char -> bool, s: string, word: string, at: nat)
    ensures WholeWordAt(letter, s, word, at)
            <==> && at + |word| <= |s| && s[at..at + |word|] == word
                 && !Joins(letter, s, at - 1) && !Joins(letter, s, at + |word|)
  {
    if at + |word| <= |s| {
      assert OccursAt(s, word, at) <==> s[at..at + |word|] == word by {
        if OccursAt(s, word, at) {
          assert s[at..at + |word|] == word;
        } else {
          var k :| 0 <= k < |word| && s[at + k] != word[k];
          assert s[at..at + |word|][k] != word[k];
        }
      }
    }
  }

  ghost predicate IsIdent(letter: char -> bool, word: string) {
    word != [] && forall c :: c in word ==> IsIdentChar(letter, c)
  }

  /** An occurrence that starts inside another one follows an identifier character, so it is no whole word. */
  lemma OverlapIsNoWord(letter: char -> bool, s: string, word: string, at: nat, p: nat)
    requires IsIdent(letter, word) && OccursAt(s, word, at) && at < p < at + |word|
    ensures !WholeWordAt(letter, s, word, p)
  {
    OccurrenceChar(s, word, at, p - 1 - at);
    assert word[p - 1 - at] in word;
  }

  /** The least whole-word occurrence, although the search goes on a whole word further each time. */
  method FindWord(letter: char -> bool, s: string, word: string) returns (r: Option<nat>)
    requires IsIdent(letter, word)
    ensures r.Some? ==> WholeWordAt(letter, s, word, r.value)
    ensures forall p: nat {:trigger WholeWordAt(letter, s, word, p)} ::
              r.None? || p < r.value ==> !WholeWordAt(letter, s, word, p)
  {
    var from := 0;
    while true
      invariant from <= |s|
      invariant forall p: nat {:trigger WholeWordAt(letter, s, word, p)} :: p < from ==>
                  !WholeWordAt(letter, s, word, p)
      decreases |s| - from
    {
      var at := FindFrom(s, word, from);
      FindMeans(s, word, from);
      if at < 0 {
        return None;
      }
      if Bounded(letter, s, at, at + |word|) {
        return Some(at);
      }
      forall p: nat {:trigger WholeWordAt(letter, s, word, p)} | p < at + |word|
        ensures !WholeWordAt(letter, s, word, p)
      {
        if at < p {
          OverlapIsNoWord(letter, s, word, at, p);
        }
      }
      from := at + |word|;
    }
  }

  /** Past the last whole word `by`. */
  method FindBy(letter: char -> bool, s: string) returns (found: Option<nat>)
    ensures found.Some? ==> found.value >= 2 && WholeWordAt(letter, s, "by", found.value - 2)
    ensures forall p: nat {:trigger WholeWordAt(letter, s, "by", p)} ::
              WholeWordAt(letter, s, "by", p) ==> found.Some? && p + 2 <= found.value
  {
    found := None;
    var i := 0;
    while i + 1 < |s|
      invariant found.Some? ==> found.value >= 2 && WholeWordAt(letter, s, "by", found.value - 2)
      invariant forall p: nat {:trigger WholeWordAt(letter, s, "by", p)} ::
                  p < i && WholeWordAt(letter, s, "by", p) ==> found.Some? && p + 2 <= found.value
      invariant found.Some? ==> found.value <= i + 1
    {
      ByAt(s, i);
      if s[i] == 'b' && s[i + 1] == 'y' && Bounded(letter, s, i, i + 2) {
        found := Some(i + 2);
      }
      i := i + 1;
    }
  }

  lemma ByAt(s: string, i: nat)
    requires i + 1 < |s|
    ensures OccursAt(s, "by", i) <==> s[i] == 'b' && s[i + 1] == 'y'
  {
    assert "by"[0] == 'b' && "by"[1] == 'y';
  }

  /** The least whole-word occurrence at or after `i`, or -1. */
  function NextWord(letter: char -> bool, s: string, word: string, i: nat): (r: int)
    ensures r == -1 || i <= r
    decreases |s| - i
  {
    if i >= |s| then -1
    else if WholeWordAt(letter, s, word, i) then i
    else NextWord(letter, s, word, i + 1)
  }

  lemma {:induction false} NextWordMeans(letter: char -> bool, s: string, word: string, i: nat)
    requires word != []
    ensures var r := NextWord(letter, s, word, i);
            && (r >= 0 ==> WholeWordAt(letter, s, word, r))
            && forall p {:trigger WholeWordAt(letter, s, word, p)} ::
                 i <= p && (r == -1 || p < r) ==> !WholeWordAt(letter, s, word, p)
    decreases |s| - i
  {
    if i < |s| && !WholeWordAt(letter, s, word, i) {
      NextWordMeans(letter, s, word, i + 1);
    }
  }

  /** All whole-word occurrences from `i` on, in order; the walk goes on a word further each time. */
  function Positions(letter: char -> bool, s: string, word: string, i: nat): seq<nat>
    decreases |s| - i
  {
    var p := NextWord(letter, s, word, i);
    if p < 0 || word == [] || p + |word| > |s| then []
    else [p] + Positions(letter, s, word, p + |word|)
  }

  ghost predicate Ascending(ps: seq<nat>) {
    forall a, b :: 0 <= a < b < |ps| ==> ps[a] < ps[b]
  }

  lemma AscendingCons(p: nat, rest: seq<nat>)
    requires Ascending(rest) && forall b :: 0 <= b < |rest| ==> p < rest[b]
    ensures Ascending([p] + rest)
  {
  }

  /** Every whole word is visited, nothing else is, and in ascending order, so each once. */
  lemma {:induction false} PositionsAreAll(letter: char -> bool, s: string, word: string, i: nat)
    requires IsIdent(letter, word)
    ensures forall p: nat {:trigger p in Positions(letter, s, word, i)} ::
              p in Positions(letter, s, word, i) <==> i <= p && WholeWordAt(letter, s, word, p)
    ensures Ascending(Positions(letter, s, word, i))
    decreases |s| - i
  {
    var p := NextWord(letter, s, word, i);
    NextWordMeans(letter, s, word, i);
    if p >= 0 {
      var rest := Positions(letter, s, word, p + |word|);
      PositionsAreAll(letter, s, word, p + |word|);
      forall q: nat
        ensures q in Positions(letter, s, word, i) <==> i <= q && WholeWordAt(letter, s, word, q)
      {
        assert q in [p] + rest <==> q == p || q in rest;
        if p < q < p + |word| {
          OverlapIsNoWord(letter, s, word, p, q);
        }
      }
      forall b | 0 <= b < |rest|
        ensures p < rest[b]
      {
        assert rest[b] in rest;
      }
      AscendingCons(p, rest);
    }
  }

  /** Cutting the text where no identifier goes on makes no new whole word and loses none that follows. */
  lemma CutKeepsWords(letter: char -> bool, s: string, word: string, base: nat, p: nat)
    requires IsIdent(letter, word) && CleanCut(letter, s, base)
    ensures WholeWordAt(letter, s[base..], word, p) <==> WholeWordAt(letter, s, word, base + p)
  {
    if p + |word| <= |s| - base {
      OccursSame(s[base..], s, word, p, base);
      if p == 0 && OccursAt(s, word, base) {
        OccurrenceChar(s, word, base, 0);
        assert word[0] in word;
      }
    }
  }

  predicate CleanCut(letter: char -> bool, s: string, base: nat) {
    base <= |s| && (base == 0 || base == |s| || !IsIdentChar(letter, s[base]))
  }

  /** The least whole word of the cut text is the next one of the text. */
  lemma NextInCut(letter: char -> bool, s: string, word: string, base: nat, r: Option<nat>)
    requires IsIdent(letter, word) && CleanCut(letter, s, base)
    requires r.Some? ==> WholeWordAt(letter, s[base..], word, r.value)
    requires forall p: nat {:trigger WholeWordAt(letter, s[base..], word, p)} ::
               r.None? || p < r.value ==> !WholeWordAt(letter, s[base..], word, p)
    ensures NextWord(letter, s, word, base) == match r case Some(p) => base + p case None => -1
  {
    NextWordMeans(letter, s, word, base);
    var q := NextWord(letter, s, word, base);
    if q >= 0 {
      CutKeepsWords(letter, s, word, base, q - base);
    }
    if r.Some? {
      CutKeepsWords(letter, s, word, base, r.value);
    }
  }

  // ---------- `simp` lists ----------

  const SIMP := "simp"

  /** The bracket that belongs to the `simp` at `at`: the first one, unless another `simp` comes first. */
  function Anchor(unit: string, at: nat, next: int): int {
    var br := FindFrom(unit, "[", at);
    if br >= 0 && (next < 0 || br < next) then br else -1
  }

  function ListAt(parse: string -> seq<string>, unit: string, br: int): seq<string>
    requires br <= |unit|
  {
    if br < 0 then [] else parse(unit[br..])
  }

  /** The lists of the `simp`s at these positions; `parse` reads one bracketed list. */
  function ListsOf(parse: string -> seq<string>, unit: string, ps: seq<nat>): seq<string> {
    if ps == [] then []
    else
      ListAt(parse, unit, Anchor(unit, ps[0], if |ps| > 1 then ps[1] else -1)) + ListsOf(parse, unit, ps[1..])
  }

  /** No bracket is read for two `simp`s: the lists come in the order of the words they belong to. */
  lemma AnchorsAscend(unit: string, ps: seq<nat>, i: nat, j: nat)
    requires i < j < |ps| && Ascending(ps)
    requires Anchor(unit, ps[i], ps[i + 1]) >= 0
    requires var next: int := if j + 1 < |ps| then ps[j + 1] else -1; Anchor(unit, ps[j], next) >= 0
    ensures var next: int := if j + 1 < |ps| then ps[j + 1] else -1;
            Anchor(unit, ps[i], ps[i + 1]) < ps[j] <= Anchor(unit, ps[j], next)
  {
    assert i + 1 < j ==> ps[i + 1] < ps[j];
  }

  /** `br` is the first bracket after the `simp` at `at`, and no whole-word `simp` starts before it. */
  ghost predicate OwnBracket(letter: char -> bool, unit: string, at: nat, br: int) {
    && at <= br < |unit| && unit[br] == '['
    && (forall q :: at <= q < br ==> unit[q] != '[')
    && forall q: nat {:trigger WholeWordAt(letter, unit, SIMP, q)} ::
         at + 4 <= q < br ==> !WholeWordAt(letter, unit, SIMP, q)
  }

  lemma BracketAt(s: string, q: int)
    ensures OccursAt(s, "[", q) <==> 0 <= q < |s| && s[q] == '['
  {
    assert "["[0] == '[';
  }

  /** A `simp` is given a bracket exactly when the first one after it is its own, and then that one. */
  lemma AnchorIsOwn(letter: char -> bool, unit: string, at: nat, br: nat)
    ensures Anchor(unit, at, NextWord(letter, unit, SIMP, at + 4)) == br <==> OwnBracket(letter, unit, at, br)
  {
    var next := NextWord(letter, unit, SIMP, at + 4);
    NextWordMeans(letter, unit, SIMP, at + 4);
    FindMeans(unit, "[", at);
    forall q
      ensures OccursAt(unit, "[", q) <==> 0 <= q < |unit| && unit[q] == '['
    {
      BracketAt(unit, q);
    }
    if next >= 0 && next == br {
      assert OccursAt(unit, SIMP, next) && SIMP[0] == 's';
      OccurrenceChar(unit, SIMP, next, 0);
    }
  }

  /** Searching the cut text is searching on from the cut. */
  lemma FindInCut(s: string, t: string, a: nat)
    requires a <= |s| && t != []
    ensures FindFrom(s[a..], t, 0) == if FindFrom(s, t, a) < 0 then -1 else FindFrom(s, t, a) - a
  {
    var e := FindFrom(s, t, a);
    FindMeans(s, t, a);
    forall p {:trigger OccursAt(s[a..], t, p)} | 0 <= p && (e < 0 || p < e - a)
      ensures !OccursAt(s[a..], t, p)
    {
      CutOccurs(s, t, a, p);
    }
    if e < 0 {
      FindNone(s[a..], t, 0);
    } else {
      CutOccurs(s, t, a, e - a);
      FindIs(s[a..], t, 0, e - a);
    }
  }

  lemma CutOccurs(s: string, t: string, a: nat, p: nat)
    requires a <= |s|
    ensures OccursAt(s[a..], t, p) <==> OccursAt(s, t, a + p)
  {
    if p + |t| <= |s| - a {
      OccursSame(s[a..], s, t, p, a);
    }
  }

  ghost predicate SimpIsIdent(letter: char -> bool) {
    letter('s') && letter('i') && letter('m') && letter('p')
  }

  lemma SimpIdent(letter: char -> bool)
    requires SimpIsIdent(letter)
    ensures IsIdent(letter, SIMP)
  {
  }

  lemma NextPositions(letter: char -> bool, unit: string, base: nat, p: nat)
    requires NextWord(letter, unit, SIMP, base) == p && p + 4 <= |unit|
    ensures Positions(letter, unit, SIMP, base) == [p] + Positions(letter, unit, SIMP, p + 4)
  {
  }

  /** The first of the remaining positions is the next word. */
  lemma HeadPosition(letter: char -> bool, unit: string, base: nat)
    requires IsIdent(letter, SIMP)
    ensures var ps := Positions(letter, unit, SIMP, base);
            NextWord(letter, unit, SIMP, base) == if |ps| > 0 then ps[0] else -1
  {
    NextWordMeans(letter, unit, SIMP, base);
  }

  /** The lists of every `simp` from `base` on. */
  function AllLists(letter: char -> bool, parse: string -> seq<string>, unit: string, base: nat): seq<string> {
    ListsOf(parse, unit, Positions(letter, unit, SIMP, base))
  }

  lemma NoMoreLists(letter: char -> bool, parse: string -> seq<string>, unit: string, base: nat)
    requires NextWord(letter, unit, SIMP, base) == -1
    ensures AllLists(letter, parse, unit, base) == []
  {
  }

  /** One round: the list of the `simp` at `p`, then those of the rest. */
  lemma ListsStep(letter: char -> bool, parse: string -> seq<string>, unit: string, base: nat, p: nat)
    requires IsIdent(letter, SIMP) && NextWord(letter, unit, SIMP, base) == p && p + 4 <= |unit|
    ensures AllLists(letter, parse, unit, base)
            == ListAt(parse, unit, Anchor(unit, p, NextWord(letter, unit, SIMP, p + 4)))
                + AllLists(letter, parse, unit, p + 4)
  {
    NextPositions(letter, unit, base, p);
    HeadPosition(letter, unit, p + 4);
    assert ([p] + Positions(letter, unit, SIMP, p + 4))[1..] == Positions(letter, unit, SIMP, p + 4);
  }

  /** The list of the `simp` that the rest of the unit starts with. */
  method ListAfter(letter: char -> bool, parse: string -> seq<string>, rest: string, ghost unit: string, ghost p: nat)
    returns (list: seq<string>)
    requires IsIdent(letter, SIMP) && p + 4 <= |unit| && rest == unit[p..] && CleanCut(letter, unit, p + 4)
    ensures list == ListAt(parse, unit, Anchor(unit, p, NextWord(letter, unit, SIMP, p + 4)))
  {
    FindInCut(unit, "[", p);
    var br := FindFrom(rest, "[", 0);
    if br < 0 {
      return [];
    }
    assert rest[4..] == unit[p + 4..];
    var next := FindWord(letter, rest[4..], SIMP);
    NextInCut(letter, unit, SIMP, p + 4, next);
    if next.Some? && br >= next.value + 4 {
      return [];
    }
    assert rest[br..] == unit[p + br..];
    list := parse(rest[br..]);
  }

  lemma AfterWord(letter: char -> bool, unit: string, base: nat, pos: nat)
    requires IsIdent(letter, SIMP) && CleanCut(letter, unit, base) && WholeWordAt(letter, unit[base..], SIMP, pos)
    ensures base + pos + 4 <= |unit| && CleanCut(letter, unit, base + pos + 4)
  {
    CutKeepsWords(letter, unit, SIMP, base, pos);
  }

  /** The next `simp` in what is left of the unit. */
  method NextSimp(letter: char -> bool, search: string, ghost unit: string, ghost base: nat) returns (pos: Option<nat>)
    requires IsIdent(letter, SIMP) && CleanCut(letter, unit, base) && search == unit[base..]
    ensures pos.None? ==> NextWord(letter, unit, SIMP, base) == -1
    ensures pos.Some? ==>
              && NextWord(letter, unit, SIMP, base) == base + pos.value
              && base + pos.value + 4 <= |unit| && CleanCut(letter, unit, base + pos.value + 4)
  {
    pos := FindWord(letter, search, SIMP);
    NextInCut(letter, unit, SIMP, base, pos);
    if pos.Some? {
      AfterWord(letter, unit, base, pos.value);
    }
  }

  /** Every `simp` of the unit gives its own list, in order, although the text is cut after each. */
  method SimpLemmaCitations(letter: char -> bool, parse: string -> seq<string>, unit: string) returns (out: seq<string>)
    requires SimpIsIdent(letter)
    ensures out == AllLists(letter, parse, unit, 0)
  {
    SimpIdent(letter);
    out := [];
    var search := unit;
    ghost var base: nat := 0;
    while true
      invariant CleanCut(letter, unit, base) && search == unit[base..]
      invariant out + AllLists(letter, parse, unit, base) == AllLists(letter, parse, unit, 0)
      decreases |search|
    {
      var pos := NextSimp(letter, search, unit, base);
      if pos.None? {
        NoMoreLists(letter, parse, unit, base);
        return;
      }
      ghost var p := base + pos.value;
      SliceOfCut(unit, base, pos.value);
      var list := ListAfter(letter, parse, search[pos.value..], unit, p);
      ListsStep(letter, parse, unit, base, p);
      Regroup(out, list, AllLists(letter, parse, unit, p + 4));
      SliceOfCut(unit, base, pos.value + 4);
      out := out + list;
      search := search[pos.value + 4..];
      base := p + 4;
    }
  }

  lemma Regroup(a: seq<string>, b: seq<string>, c: seq<string>)
    ensures a + b + c == a + (b + c)
  {
  }

  lemma SliceOfCut(s: string, a: nat, b: nat)
    requires a + b <= |s|
    ensures s[a..][b..] == s[a + b..]
  {
  }
}
