/** Substring search, as the string `find` of Rust and Python defines it. */
module Text {

  predicate OccursAt(s: string, t: string, i: int) {
    0 <= i && i + |t| <= |s| && forall k {:trigger t[k]} :: 0 <= k < |t| ==> s[i + k] == t[k]
  }

  predicate Contains(s: string, t: string) {
    FindFrom(s, t, 0) >= 0
  }

  /** The least occurrence at or after `i`, or -1. */
  function FindFrom(s: string, t: string, i: nat): (r: int)
    ensures r == -1 || (i <= r && r + |t| <= |s|)
    decreases |s| - i
  {
    if i + |t| > |s| then -1
    else if OccursAt(s, t, i) then i
    else FindFrom(s, t, i + 1)
  }

  /** What is found is an occurrence, and there is none before it; -1 says there is none at all. */
  lemma {:induction false} FindMeans(s: string, t: string, i: nat)
    ensures var r := FindFrom(s, t, i);
            && (r >= 0 ==> OccursAt(s, t, r))
            && forall j {:trigger OccursAt(s, t, j)} :: i <= j && (r == -1 || j < r) ==> !OccursAt(s, t, j)
    decreases |s| - i
  {
    if i + |t| <= |s| && !OccursAt(s, t, i) {
      FindMeans(s, t, i + 1);
    }
  }

  lemma FoundAt(s: string, t: string, i: nat)
    requires FindFrom(s, t, i) >= 0
    ensures OccursAt(s, t, FindFrom(s, t, i))
  {
    FindMeans(s, t, i);
  }

  lemma NotBefore(s: string, t: string, i: nat, j: int)
    requires i <= j && (FindFrom(s, t, i) < 0 || j < FindFrom(s, t, i))
    ensures !OccursAt(s, t, j)
  {
    FindMeans(s, t, i);
  }

  /** The search result is determined by the first occurrence. */
  lemma FindIs(s: string, t: string, i: nat, k: int)
    requires i <= k && OccursAt(s, t, k)
    requires forall j {:trigger OccursAt(s, t, j)} :: i <= j < k ==> !OccursAt(s, t, j)
    ensures FindFrom(s, t, i) == k
  {
    FindMeans(s, t, i);
  }

  lemma FindNone(s: string, t: string, i: nat)
    requires forall j {:trigger OccursAt(s, t, j)} :: i <= j ==> !OccursAt(s, t, j)
    ensures FindFrom(s, t, i) == -1
  {
    FindMeans(s, t, i);
  }

  /** Each character of an occurrence is a character of the text. */
  lemma OccurrenceChar(s: string, t: string, i: int, k: nat)
    requires OccursAt(s, t, i) && k < |t|
    ensures s[i + k] == t[k]
  {
    assert s[i..i + |t|][k] == t[k];
  }

  /** An occurrence is a matter of the characters it covers. */
  lemma OccursSame(s: string, u: string, t: string, i: int, d: int)
    requires 0 <= i && i + |t| <= |s| && 0 <= i + d && i + d + |t| <= |u|
    requires forall q {:trigger u[q]} :: i + d <= q < i + d + |t| ==> s[q - d] == u[q]
    ensures OccursAt(s, t, i) <==> OccursAt(u, t, i + d)
  {
    if OccursAt(s, t, i) {
      forall q {:trigger t[q]} | 0 <= q < |t|
        ensures u[i + d + q] == t[q]
      {
        assert s[i + q] == t[q];
      }
    } else {
      var q :| 0 <= q < |t| && s[i + q] != t[q];
      assert u[i + d + q] == s[i + q];
    }
  }

  /** One differing character rules an occurrence out. */
  lemma Mismatch(s: string, t: string, i: int, k: nat)
    requires 0 <= i && k < |t| && (i + k < |s| ==> s[i + k] != t[k])
    ensures !OccursAt(s, t, i)
  {
    if OccursAt(s, t, i) {
      OccurrenceChar(s, t, i, k);
    }
  }

  /** Text that lacks the first character of `t` is skipped by the search for `t`. */
  lemma FindAfter(pre: string, quiet: string, t: string, rest: string)
    requires t != [] && t[0] !in quiet
    ensures FindFrom(pre + (quiet + (t + rest)), t, |pre|) == |pre| + |quiet|
  {
    var s := pre + (quiet + (t + rest));
    var k := |pre| + |quiet|;
    assert s[k..k + |t|] == t;
    forall j {:trigger OccursAt(s, t, j)} | |pre| <= j < k
      ensures !OccursAt(s, t, j)
    {
      assert s[j] == quiet[j - |pre|];
      Mismatch(s, t, j, 0);
    }
    FindIs(s, t, |pre|, k);
  }

  /** The same at the end of the text, where the search finds nothing. */
  lemma FindNothing(pre: string, quiet: string, t: string)
    requires t != [] && t[0] !in quiet
    ensures FindFrom(pre + quiet, t, |pre|) == -1
  {
    var s := pre + quiet;
    forall j {:trigger OccursAt(s, t, j)} | |pre| <= j
      ensures !OccursAt(s, t, j)
    {
      if j < |s| {
        assert s[j] == quiet[j - |pre|];
      }
      Mismatch(s, t, j, 0);
    }
    FindNone(s, t, |pre|);
  }

  /** Searching on from a point that no occurrence precedes. */
  lemma {:induction false} SkipTo(s: string, t: string, i: nat, k: nat)
    requires i <= k <= |s|
    requires forall j {:trigger OccursAt(s, t, j)} :: i <= j < k ==> !OccursAt(s, t, j)
    ensures FindFrom(s, t, i) == FindFrom(s, t, k)
    decreases k - i
  {
    if i < k {
      SkipTo(s, t, i + 1, k);
    }
  }
}
