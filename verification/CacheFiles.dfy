/** The file names of the cache directory: final entries, and the temporary siblings they are written to. */
module CacheFiles {
  import opened Bits
  import opened CacheKey
  import BvModel
  import ModelText

  /** What a cache entry is about: an item's proof, or the accessibility of a relation. */
  datatype Subject = Item(inputs: Inputs) | Relation(pair: Pair)

  ghost predicate SubjectInRange(x: Subject) {
    match x
    case Item(inputs) => InRange(inputs)
    case Relation(pair) => PairInRange(pair)
  }

  /** The name of a subject's entry without its extension. */
  function Stem(digest: Digest, x: Subject): string {
    match x
    case Item(inputs) => KeyOf(digest, inputs)
    case Relation(pair) => "wf-" + PairKeyOf(digest, pair)
  }

  lemma {:induction false} HexChars(bytes: Bytes)
    ensures forall c :: c in HexOf(bytes) ==> c in HEX
  {
    if bytes != [] {
      HexChars(bytes[1..]);
    }
  }

  predicate NoDot(s: string) {
    '.' !in s
  }

  lemma StemHasNoDot(digest: Digest, x: Subject)
    ensures NoDot(Stem(digest, x))
  {
    match x
    case Item(inputs) => HexChars(digest(ProofStream(inputs)));
    case Relation(pair) => HexChars(digest(AccessibilityStream(pair)));
  }

  lemma KindsApart(digest: Digest, x: Inputs, y: Pair)
    ensures Stem(digest, Item(x)) != Stem(digest, Relation(y))
  {
    HexChars(digest(ProofStream(x)));
    if Stem(digest, Item(x)) != [] {
      assert Stem(digest, Item(x))[0] in HEX;
      assert Stem(digest, Relation(y))[0] == 'w';
    }
  }

  /**
  Different subjects have different entries: an item and a relation always, two of a kind when the hash is
  collision free.
   */
  lemma StemsSeparate(digest: Digest, x: Subject, y: Subject)
    requires CollisionFree(digest) && SubjectInRange(x) && SubjectInRange(y)
    ensures Stem(digest, x) == Stem(digest, y) <==> x == y
  {
    match (x, y)
    case (Item(a), Item(b)) => KeysSeparate(digest, a, b);
    case (Relation(a), Relation(b)) =>
      PairKeysSeparate(digest, a, b);
      assert Stem(digest, x)[3..] == PairKeyOf(digest, a) && Stem(digest, y)[3..] == PairKeyOf(digest, b);
    case (Item(a), Relation(b)) => KindsApart(digest, a, b);
    case (Relation(a), Item(b)) => KindsApart(digest, b, a);
  }

  // ---------- Paths ----------

  /** A final entry, or the temporary file of the `n`th store of process `pid`. */
  datatype Path = Entry(stem: string) | Temp(stem: string, pid: nat, n: nat)

  function FileName(p: Path): string {
    match p
    case Entry(stem) => stem + ".json"
    case Temp(stem, pid, n) => stem + ("." + (ModelText.Decimal(pid) + ("." + (ModelText.Decimal(n) + ".tmp"))))
  }

  lemma FirstDot(a: string, r: string)
    requires NoDot(a) && r != [] && r[0] == '.'
    ensures (a + r)[|a|] == '.' && forall i :: 0 <= i < |a| ==> (a + r)[i] != '.'
  {
    assert forall i :: 0 <= i < |a| ==> (a + r)[i] == a[i] && a[i] in a;
  }

  /** What precedes the first dot is determined. */
  lemma DotSplit(a: string, r: string, b: string, s: string)
    requires NoDot(a) && NoDot(b) && r != [] && s != [] && r[0] == '.' && s[0] == '.' && a + r == b + s
    ensures a == b && r == s
  {
    FirstDot(a, r);
    FirstDot(b, s);
    SplitAt(a, r, b, s);
  }

  lemma {:induction false} DecimalHasNoDot(n: nat)
    ensures NoDot(ModelText.Decimal(n))
  {
    if n >= 10 {
      DecimalHasNoDot(n / 10);
    }
  }

  /** The digits before the last one. */
  function Leading(n: nat): string {
    if n < 10 then [] else ModelText.Decimal(n / 10)
  }

  lemma LastDigit(n: nat)
    ensures ModelText.Decimal(n) == Leading(n) + [BvModel.DigitChar(n % 10)]
  {
  }

  lemma SameDigits(m: nat, n: nat)
    requires ModelText.Decimal(m) == ModelText.Decimal(n)
    ensures m % 10 == n % 10 && Leading(m) == Leading(n)
  {
    LastDigit(m);
    LastDigit(n);
    DigitsDistinct(m % 10, n % 10);
    SnocSplit(Leading(m), BvModel.DigitChar(m % 10), Leading(n), BvModel.DigitChar(n % 10));
  }

  lemma DigitsDistinct(c: nat, d: nat)
    requires c < 10 && d < 10
    ensures BvModel.DigitChar(c) == BvModel.DigitChar(d) ==> c == d
  {
    ModelText.DigitBack(c, 10);
    ModelText.DigitBack(d, 10);
  }

  lemma SnocSplit(a: string, x: char, b: string, y: char)
    requires a + [x] == b + [y]
    ensures a == b && x == y
  {
    assert |a + [x]| == |a| + 1 && |b + [y]| == |b| + 1;
    SplitAt(a, [x], b, [y]);
  }

  lemma {:induction false} DecimalInjective(m: nat, n: nat)
    requires ModelText.Decimal(m) == ModelText.Decimal(n)
    ensures m == n
  {
    SameDigits(m, n);
    if m >= 10 && n >= 10 {
      DecimalInjective(m / 10, n / 10);
    }
  }

  lemma AfterDot(u: string, v: string)
    requires "." + u == "." + v
    ensures u == v
  {
    assert ("." + u)[1..] == u && ("." + v)[1..] == v;
  }

  lemma TempNamesInjective(p: Path, q: Path)
    requires p.Temp? && q.Temp? && NoDot(p.stem) && NoDot(q.stem) && FileName(p) == FileName(q)
    ensures p == q
  {
    var r, s := ModelText.Decimal(p.n) + ".tmp", ModelText.Decimal(q.n) + ".tmp";
    var t, u := ModelText.Decimal(p.pid) + ("." + r), ModelText.Decimal(q.pid) + ("." + s);
    DecimalHasNoDot(p.pid);
    DecimalHasNoDot(q.pid);
    DecimalHasNoDot(p.n);
    DecimalHasNoDot(q.n);
    DotSplit(p.stem, "." + t, q.stem, "." + u);
    AfterDot(t, u);
    DotSplit(ModelText.Decimal(p.pid), "." + r, ModelText.Decimal(q.pid), "." + s);
    DecimalInjective(p.pid, q.pid);
    AfterDot(r, s);
    DotSplit(ModelText.Decimal(p.n), ".tmp", ModelText.Decimal(q.n), ".tmp");
    DecimalInjective(p.n, q.n);
  }

  lemma LastChar(p: Path)
    ensures FileName(p) != [] && FileName(p)[|FileName(p)| - 1] == if p.Entry? then 'n' else 'p'
  {
  }

  /** Different paths are different files: no temporary file is an entry, and no two stores share a temporary file. */
  lemma FileNamesInjective(p: Path, q: Path)
    requires NoDot(p.stem) && NoDot(q.stem)
    ensures FileName(p) == FileName(q) <==> p == q
  {
    if FileName(p) == FileName(q) {
      LastChar(p);
      LastChar(q);
      if p.Temp? {
        TempNamesInjective(p, q);
      } else {
        DotSplit(p.stem, ".json", q.stem, ".json");
      }
    }
  }

  /** Two entries are the same file exactly when they are about the same subject. */
  lemma EntriesSeparate(digest: Digest, x: Subject, y: Subject)
    requires CollisionFree(digest) && SubjectInRange(x) && SubjectInRange(y)
    ensures FileName(Entry(Stem(digest, x))) == FileName(Entry(Stem(digest, y))) <==> x == y
  {
    StemHasNoDot(digest, x);
    StemHasNoDot(digest, y);
    FileNamesInjective(Entry(Stem(digest, x)), Entry(Stem(digest, y)));
    StemsSeparate(digest, x, y);
  }
}
