/** Replacing a stretch of text by a block of whole lines, and which occurrences of a one-line marker that moves. */
module Splices {
  import opened Text

  predicate OneLine(s: string) {
    s != [] && '\n' !in s
  }

  predicate EndsLine(s: string) {
    s != [] && s[|s| - 1] == '\n'
  }

  /** How far what follows the splice moves. */
  function Shift(b: nat, c: nat, k: string): int
    requires b <= c
  {
    |k| - (c - b)
  }

  /** `u` is `t` with the characters from `b` to `c` replaced by `k`. */
  ghost predicate IsSplice(t: string, b: nat, c: nat, k: string, u: string) {
    && b <= c <= |t| && |u| == b + |k| + (|t| - c)
    && (forall i {:trigger u[i]} :: 0 <= i < b ==> u[i] == t[i])
    && (forall i {:trigger u[i]} :: b <= i < b + |k| ==> u[i] == k[i - b])
    && (forall i {:trigger u[i]} :: b + |k| <= i < |u| ==> u[i] == t[i - b - |k| + c])
  }

  lemma SpliceIs(t: string, b: nat, c: nat, k: string)
    requires b <= c <= |t|
    ensures IsSplice(t, b, c, k, t[..b] + k + t[c..])
  {
  }

  lemma BlockInPlace(t: string, b: nat, c: nat, k: string, u: string)
    requires IsSplice(t, b, c, k, u)
    ensures u[b..b + |k|] == k
  {
  }

  lemma SpliceLeft(t: string, b: nat, c: nat, k: string, u: string, x: string, p: nat)
    requires IsSplice(t, b, c, k, u) && p + |x| <= b
    ensures OccursAt(u, x, p) <==> OccursAt(t, x, p)
  {
    assert u[p..p + |x|] == t[p..p + |x|];
  }

  lemma SpliceRight(t: string, b: nat, c: nat, k: string, u: string, x: string, p: nat)
    requires IsSplice(t, b, c, k, u) && c <= p
    ensures OccursAt(u, x, p + Shift(b, c, k)) <==> OccursAt(t, x, p)
  {
    var d := Shift(b, c, k);
    if p + |x| <= |t| {
      assert u[p + d..p + d + |x|] == t[p..p + |x|];
    }
  }

  lemma SpliceInside(t: string, b: nat, c: nat, k: string, u: string, x: string, p: nat)
    requires IsSplice(t, b, c, k, u) && p + |x| <= |k|
    ensures OccursAt(u, x, b + p) <==> OccursAt(k, x, p)
  {
    assert u[b + p..b + p + |x|] == k[p..p + |x|];
  }

  /** A marker of one line does not stretch over a newline. */
  lemma NoNewlineInside(s: string, x: string, p: nat, q: int)
    requires OneLine(x) && p <= q < p + |x| && q < |s| && s[q] == '\n'
    ensures !OccursAt(s, x, p)
  {
    assert x[q - p] in x;
    Mismatch(s, x, p, q - p);
  }

  /** What a part of a text lacks does not occur inside that part. */
  lemma PartLacks(k: string, part: string, at: nat, x: string, p: nat)
    requires at + |part| <= |k| && k[at..at + |part|] == part && !Contains(part, x) && at <= p && p + |x| <= at + |part|
    ensures !OccursAt(k, x, p)
  {
    NotBefore(part, x, 0, p - at);
    if OccursAt(k, x, p) {
      forall q {:trigger x[q]} | 0 <= q < |x|
        ensures part[p - at + q] == x[q]
      {
        assert k[at..at + |part|][p - at + q] == k[p + q];
      }
    }
  }

  /** A block of whole lines that starts with the line `head`. */
  ghost predicate LinesFrom(k: string, head: string) {
    && |head| < |k| && k[..|head|] == head && k[|head|] == '\n' && EndsLine(k)
  }

  /** The splice starts where a line does, or where `head` already stood. */
  ghost predicate StartsClean(t: string, b: nat, head: string) {
    b <= |t| && (b == 0 || t[b - 1] == '\n' || (b + |head| <= |t| && t[b..b + |head|] == head))
  }

  /** Every occurrence of another marker in the result is an old one: left of the block, or right of it and moved. */
  lemma NoNewOccurrence(t: string, b: nat, c: nat, k: string, u: string, head: string, x: string, p: nat)
    requires IsSplice(t, b, c, k, u) && OneLine(x) && LinesFrom(k, head) && StartsClean(t, b, head) && !Contains(k, x)
    ensures OccursAt(u, x, p) ==>
              || (p < b && OccursAt(t, x, p))
              || (b + |k| <= p && OccursAt(t, x, p - Shift(b, c, k)))
  {
    if OccursAt(u, x, p) && p < b + |k| {
      assert u[b + |k| - 1] == '\n';
      if p + |x| > b + |k| {
        NoNewlineInside(u, x, p, b + |k| - 1);
      } else if p >= b {
        SpliceInside(t, b, c, k, u, x, p - b);
        NotBefore(k, x, 0, p - b);
      } else {
        CrossesStart(t, b, c, k, u, head, x, p);
      }
    } else if OccursAt(u, x, p) {
      SpliceRight(t, b, c, k, u, x, p - Shift(b, c, k));
    }
  }

  lemma CrossesStart(t: string, b: nat, c: nat, k: string, u: string, head: string, x: string, p: nat)
    requires IsSplice(t, b, c, k, u) && OneLine(x) && LinesFrom(k, head) && StartsClean(t, b, head)
    requires p < b && OccursAt(u, x, p)
    ensures OccursAt(t, x, p)
  {
    if p + |x| <= b {
      SpliceLeft(t, b, c, k, u, x, p);
    } else if t[b - 1] == '\n' {
      assert u[b - 1] == '\n';
      NoNewlineInside(u, x, p, b - 1);
    } else {
      assert u[b + |head|] == k[|head|];
      if p + |x| > b + |head| {
        NoNewlineInside(u, x, p, b + |head|);
      }
      assert forall i :: 0 <= i < |head| ==> u[b + i] == k[..|head|][i] && t[b + i] == t[b..b + |head|][i];
      assert u[p..p + |x|] == t[p..p + |x|];
    }
  }

  /** Nothing is found in the result that was not found in the text. */
  lemma NoneBefore(t: string, b: nat, c: nat, k: string, u: string, head: string, x: string, p: nat)
    requires IsSplice(t, b, c, k, u) && OneLine(x) && LinesFrom(k, head) && StartsClean(t, b, head) && !Contains(k, x)
    requires var a := FindFrom(t, x, 0); a < 0 || (a + |x| <= b && p < a) || (c <= a && p < a + Shift(b, c, k))
    ensures !OccursAt(u, x, p)
  {
    NoNewOccurrence(t, b, c, k, u, head, x, p);
    var a := FindFrom(t, x, 0);
    if a < 0 || p < a {
      NotBefore(t, x, 0, p);
    }
    if b + |k| <= p && (a < 0 || p - Shift(b, c, k) < a) {
      NotBefore(t, x, 0, p - Shift(b, c, k));
    }
  }

  lemma StillAbsent(t: string, b: nat, c: nat, k: string, u: string, head: string, x: string)
    requires IsSplice(t, b, c, k, u) && OneLine(x) && LinesFrom(k, head) && StartsClean(t, b, head)
             && !Contains(k, x) && !Contains(t, x)
    ensures FindFrom(u, x, 0) == -1
  {
    forall p {:trigger OccursAt(u, x, p)} | 0 <= p
      ensures !OccursAt(u, x, p)
    {
      NoneBefore(t, b, c, k, u, head, x, p);
    }
    FindNone(u, x, 0);
  }

  lemma FoundAfter(t: string, b: nat, c: nat, k: string, u: string, head: string, x: string)
    requires IsSplice(t, b, c, k, u) && OneLine(x) && LinesFrom(k, head) && StartsClean(t, b, head) && !Contains(k, x)
    requires c <= FindFrom(t, x, 0)
    ensures FindFrom(u, x, 0) == FindFrom(t, x, 0) + Shift(b, c, k)
  {
    var a := FindFrom(t, x, 0);
    forall p {:trigger OccursAt(u, x, p)} | 0 <= p < a + Shift(b, c, k)
      ensures !OccursAt(u, x, p)
    {
      NoneBefore(t, b, c, k, u, head, x, p);
    }
    FoundAt(t, x, 0);
    SpliceRight(t, b, c, k, u, x, a);
    FindIs(u, x, 0, a + Shift(b, c, k));
  }

  /** A search that starts right of the splice. */
  lemma FindRight(t: string, b: nat, c: nat, k: string, u: string, x: string, a: nat)
    requires IsSplice(t, b, c, k, u) && c <= a && x != []
    ensures var e := FindFrom(t, x, a);
            FindFrom(u, x, a + Shift(b, c, k)) == if e < 0 then -1 else e + Shift(b, c, k)
  {
    var d, e := Shift(b, c, k), FindFrom(t, x, a);
    forall p {:trigger OccursAt(u, x, p)} | a + d <= p && (e < 0 || p < e + d)
      ensures !OccursAt(u, x, p)
    {
      NotBefore(t, x, a, p - d);
      SpliceRight(t, b, c, k, u, x, p - d);
    }
    if e < 0 {
      FindNone(u, x, a + d);
    } else {
      FoundAt(t, x, a);
      SpliceRight(t, b, c, k, u, x, e);
      FindIs(u, x, a + d, e + d);
    }
  }

  /** A search that ends left of the splice. */
  lemma FindLeft(t: string, b: nat, c: nat, k: string, u: string, x: string, a: nat)
    requires IsSplice(t, b, c, k, u) && FindFrom(t, x, a) >= 0 && FindFrom(t, x, a) + |x| <= b
    ensures FindFrom(u, x, a) == FindFrom(t, x, a)
  {
    var e := FindFrom(t, x, a);
    forall p: nat | a <= p <= e
      ensures OccursAt(u, x, p) <==> OccursAt(t, x, p)
    {
      SpliceLeft(t, b, c, k, u, x, p);
    }
    FindMeans(t, x, a);
    FindIs(u, x, a, e);
  }

  /** A search that starts at the block and meets the marker in it. */
  lemma FindInBlock(t: string, b: nat, c: nat, k: string, u: string, x: string)
    requires IsSplice(t, b, c, k, u) && Contains(k, x)
    ensures FindFrom(u, x, b) == b + FindFrom(k, x, 0)
  {
    var e := FindFrom(k, x, 0);
    forall p: nat | p <= e
      ensures OccursAt(u, x, b + p) <==> OccursAt(k, x, p)
    {
      SpliceInside(t, b, c, k, u, x, p);
    }
    forall j {:trigger OccursAt(u, x, j)} | b <= j < b + e
      ensures !OccursAt(u, x, j)
    {
      NotBefore(k, x, 0, j - b);
      SpliceInside(t, b, c, k, u, x, j - b);
    }
    FoundAt(k, x, 0);
    FindIs(u, x, b, b + e);
  }

  /** The search for the block's own first line stays where it was. */
  lemma FindOwn(t: string, b: nat, c: nat, k: string, u: string, head: string)
    requires IsSplice(t, b, c, k, u) && OneLine(head) && LinesFrom(k, head) && StartsClean(t, b, head)
    requires FindFrom(t, head, 0) < 0 || FindFrom(t, head, 0) == b
    ensures FindFrom(u, head, 0) == b
  {
    SpliceInside(t, b, c, k, u, head, 0);
    assert OccursAt(k, head, 0);
    forall p {:trigger OccursAt(u, head, p)} | 0 <= p < b
      ensures !OccursAt(u, head, p)
    {
      NotBefore(t, head, 0, p);
      if OccursAt(u, head, p) {
        CrossesStart(t, b, c, k, u, head, head, p);
      }
    }
    FindIs(u, head, 0, b);
  }

  /** Newlines at the end of a text make no new occurrence. */
  lemma FindBeforeNewlines(t: string, nl: string, x: string, a: nat)
    requires OneLine(x) && forall ch :: ch in nl ==> ch == '\n'
    ensures FindFrom(t + nl, x, a) == FindFrom(t, x, a)
  {
    var u := t + nl;
    forall p {:trigger OccursAt(u, x, p)} | 0 <= p
      ensures OccursAt(u, x, p) <==> OccursAt(t, x, p)
    {
      if p + |x| <= |t| {
        assert u[p..p + |x|] == t[p..p + |x|];
      } else if p + |x| <= |u| {
        var q := if p < |t| then |t| else p;
        assert u[q] == nl[q - |t|] && nl[q - |t|] in nl;
        NoNewlineInside(u, x, p, q);
      }
    }
    var e := FindFrom(t, x, a);
    FindMeans(t, x, a);
    if e < 0 {
      FindNone(u, x, a);
    } else {
      FindIs(u, x, a, e);
    }
  }

  lemma SliceOfSlice(t: string, a: nat, hi: nat, f: nat, g: nat)
    requires a <= hi <= |t| && f <= g <= hi - a
    ensures t[a..hi][f..g] == t[a + f..a + g]
  {
    var l, r := t[a..hi][f..g], t[a + f..a + g];
    assert |l| == |r|;
    assert forall i :: 0 <= i < |l| ==> l[i] == r[i];
  }
}
