/**
Cache keys and file names of the proof cache: the byte streams fed to the hasher, their injectivity,
and the separation of the two key spaces that share one directory. SHA-256 is a parameter.
 */
module CacheKey {
  import opened Bits

  type Byte = n: int | 0 <= n < 0x100
  type Bytes = seq<Byte>

  // ---------- Little-endian numbers ----------

  function Pow256(k: nat): (r: nat)
    ensures r > 0
  {
    if k == 0 then 1 else 0x100 * Pow256(k - 1)
  }

  /** The low `k` bytes of `n`, least significant first; higher bytes are truncated. */
  function LittleEndian(n: nat, k: nat): (r: Bytes)
    ensures |r| == k
  {
    if k == 0 then [] else [n % 0x100] + LittleEndian(n / 0x100, k - 1)
  }

  function FromLittleEndian(s: Bytes): nat {
    if s == [] then 0 else s[0] + 0x100 * FromLittleEndian(s[1..])
  }

  lemma {:induction false} LittleEndianBack(n: nat, k: nat)
    requires n < Pow256(k)
    ensures FromLittleEndian(LittleEndian(n, k)) == n
  {
    if k > 0 {
      assert LittleEndian(n, k)[1..] == LittleEndian(n / 0x100, k - 1);
      LittleEndianBack(n / 0x100, k - 1);
    }
  }

  lemma Pow256Values()
    ensures Pow256(4) == 0x1_0000_0000 && Pow256(8) == 0x1_0000_0000_0000_0000
  {
    assert Pow256(2) == 0x1_0000;
    assert Pow256(4) == 0x1_0000 * Pow256(2);
    assert Pow256(6) == 0x1_0000 * Pow256(4);
    assert Pow256(8) == 0x1_0000 * Pow256(6);
  }

  // ---------- Fields ----------

  /** One tagged field: tag length in 4 bytes, tag, value length in 8 bytes, value. */
  function FieldBytes(tag: Bytes, value: Bytes): Bytes {
    LittleEndian(|tag|, 4) + (tag + (LittleEndian(|value|, 8) + value))
  }

  predicate Encodable(tag: Bytes, value: Bytes) {
    |tag| < 0x1_0000_0000 && |value| < 0x1_0000_0000_0000_0000
  }

  lemma SplitAt<T>(a: seq<T>, r: seq<T>, b: seq<T>, s: seq<T>)
    requires |a| == |b| && a + r == b + s
    ensures a == b && r == s
  {
    assert a == (a + r)[..|a|] && b == (b + s)[..|b|];
    assert r == (a + r)[|a|..] && s == (b + s)[|b|..];
  }

  /** A length prefix determines the bytes it announces and what follows them. */
  lemma BlockSplit(a: Bytes, r: Bytes, b: Bytes, s: Bytes, k: nat)
    requires |a| < Pow256(k) && |b| < Pow256(k)
    requires LittleEndian(|a|, k) + (a + r) == LittleEndian(|b|, k) + (b + s)
    ensures a == b && r == s
  {
    SplitAt(LittleEndian(|a|, k), a + r, LittleEndian(|b|, k), b + s);
    LittleEndianBack(|a|, k);
    LittleEndianBack(|b|, k);
    SplitAt(a, r, b, s);
  }

  /** A field can be read off the front of a stream in one way only. */
  lemma FieldSplit(t: Bytes, v: Bytes, r: Bytes, t': Bytes, v': Bytes, r': Bytes)
    requires Encodable(t, v) && Encodable(t', v')
    requires FieldBytes(t, v) + r == FieldBytes(t', v') + r'
    ensures t == t' && v == v' && r == r'
  {
    Pow256Values();
    FieldThen(t, v, r);
    FieldThen(t', v', r');
    BlockSplit(t, LittleEndian(|v|, 8) + (v + r), t', LittleEndian(|v'|, 8) + (v' + r'), 4);
    BlockSplit(v, r, v', r', 8);
  }

  lemma FieldThen(t: Bytes, v: Bytes, r: Bytes)
    ensures FieldBytes(t, v) + r == LittleEndian(|t|, 4) + (t + (LittleEndian(|v|, 8) + (v + r)))
  {
    var value := LittleEndian(|v|, 8) + v;
    assert LittleEndian(|v|, 8) + (v + r) == value + r;
    assert t + (value + r) == (t + value) + r;
  }

  /** The encoding is prefix-free. */
  lemma FieldPrefixFree(t: Bytes, v: Bytes, t': Bytes, v': Bytes)
    requires Encodable(t, v) && Encodable(t', v')
    ensures FieldBytes(t, v) <= FieldBytes(t', v') <==> t == t' && v == v'
  {
    if FieldBytes(t, v) <= FieldBytes(t', v') {
      var rest := FieldBytes(t', v')[|FieldBytes(t, v)|..];
      assert FieldBytes(t, v) + rest == FieldBytes(t', v') + [];
      FieldSplit(t, v, rest, t', v', []);
    }
  }

  /** The fields, in order. */
  function Fields(fs: seq<(Bytes, Bytes)>): Bytes {
    if fs == [] then [] else FieldBytes(fs[0].0, fs[0].1) + Fields(fs[1..])
  }

  ghost predicate AllEncodable(fs: seq<(Bytes, Bytes)>) {
    forall i :: 0 <= i < |fs| ==> Encodable(fs[i].0, fs[i].1)
  }

  /** A stream of fields determines how many there are, every tag and every value. */
  lemma {:induction false} FieldsInjective(fs: seq<(Bytes, Bytes)>, gs: seq<(Bytes, Bytes)>)
    requires AllEncodable(fs) && AllEncodable(gs) && Fields(fs) == Fields(gs)
    ensures fs == gs
    decreases |fs|
  {
    if fs != [] && gs != [] {
      FieldSplit(fs[0].0, fs[0].1, Fields(fs[1..]), gs[0].0, gs[0].1, Fields(gs[1..]));
      FieldsInjective(fs[1..], gs[1..]);
      assert fs == [fs[0]] + fs[1..] && gs == [gs[0]] + gs[1..];
    }
  }

  // ---------- The two streams ----------

  function Ascii(s: string): (r: Bytes)
    ensures |r| == |s|
  {
    seq(|s|, i requires 0 <= i < |s| => s[i] as int % 0x100)
  }

  const DOMAIN := "thermite.forge.proof-cache.v1"
  const DOMAIN_ACCESSIBILITY := "thermite.forge.wf-accessibility.v1"
  const CHECK_SCHEMA_VERSION := 7

  /** What determines an item's verdict. */
  datatype Inputs = Inputs(lowered: Bytes, seed: nat, verus: Bytes, thermite: Bytes, schema: nat)

  function ProofFields(x: Inputs): seq<(Bytes, Bytes)> {
    [(Ascii("lowered"), x.lowered), (Ascii("seed"), LittleEndian(x.seed, 8)), (Ascii("verus"), x.verus),
     (Ascii("thermite"), x.thermite), (Ascii("check-schema"), LittleEndian(x.schema, 4))]
  }

  function ProofStream(x: Inputs): Bytes {
    Ascii(DOMAIN) + Fields(ProofFields(x))
  }

  datatype Pair = Pair(relation: Bytes, carrier: Bytes, schema: nat)

  function PairFields(x: Pair): seq<(Bytes, Bytes)> {
    [(Ascii("relation"), x.relation), (Ascii("carrier"), x.carrier), (Ascii("check-schema"), LittleEndian(x.schema, 4))]
  }

  function AccessibilityStream(x: Pair): Bytes {
    Ascii(DOMAIN_ACCESSIBILITY) + Fields(PairFields(x))
  }

  /** Lengths below 2^64, a 64-bit seed and a 32-bit schema number. */
  ghost predicate InRange(x: Inputs) {
    && |x.lowered| < 0x1_0000_0000_0000_0000 && |x.verus| < 0x1_0000_0000_0000_0000
    && |x.thermite| < 0x1_0000_0000_0000_0000
    && x.seed < 0x1_0000_0000_0000_0000 && x.schema < 0x1_0000_0000
  }

  ghost predicate PairInRange(x: Pair) {
    && |x.relation| < 0x1_0000_0000_0000_0000 && |x.carrier| < 0x1_0000_0000_0000_0000
    && x.schema < 0x1_0000_0000
  }

  lemma LittleEndianInjective(m: nat, n: nat, k: nat)
    requires m < Pow256(k) && n < Pow256(k) && LittleEndian(m, k) == LittleEndian(n, k)
    ensures m == n
  {
    LittleEndianBack(m, k);
    LittleEndianBack(n, k);
  }

  /** Two inputs feed the hasher the same bytes only when they are the same, the check schema included. */
  lemma ProofStreamInjective(x: Inputs, y: Inputs)
    requires InRange(x) && InRange(y)
    ensures ProofStream(x) == ProofStream(y) <==> x == y
  {
    if ProofStream(x) == ProofStream(y) {
      var fs, gs := ProofFields(x), ProofFields(y);
      SplitAt(Ascii(DOMAIN), Fields(fs), Ascii(DOMAIN), Fields(gs));
      FieldsInjective(fs, gs);
      assert fs[0].1 == gs[0].1 && fs[1].1 == gs[1].1 && fs[2].1 == gs[2].1 && fs[3].1 == gs[3].1 && fs[4].1 == gs[4].1;
      Pow256Values();
      LittleEndianInjective(x.seed, y.seed, 8);
      LittleEndianInjective(x.schema, y.schema, 4);
    }
  }

  lemma AccessibilityStreamInjective(x: Pair, y: Pair)
    requires PairInRange(x) && PairInRange(y)
    ensures AccessibilityStream(x) == AccessibilityStream(y) <==> x == y
  {
    if AccessibilityStream(x) == AccessibilityStream(y) {
      var fs, gs := PairFields(x), PairFields(y);
      SplitAt(Ascii(DOMAIN_ACCESSIBILITY), Fields(fs), Ascii(DOMAIN_ACCESSIBILITY), Fields(gs));
      FieldsInjective(fs, gs);
      assert fs[0].1 == gs[0].1 && fs[1].1 == gs[1].1 && fs[2].1 == gs[2].1;
      Pow256Values();
      LittleEndianInjective(x.schema, y.schema, 4);
    }
  }

  /** The domain tags keep the two key spaces apart, whatever the inputs. */
  lemma StreamsDisjoint(x: Inputs, y: Pair)
    ensures ProofStream(x) != AccessibilityStream(y)
  {
    assert ProofStream(x)[15] == Ascii(DOMAIN)[15] == 'p' as int;
    assert AccessibilityStream(y)[15] == Ascii(DOMAIN_ACCESSIBILITY)[15] == 'w' as int;
  }

  // ---------- Hashing ----------

  type Digest = Bytes -> Bytes

  ghost predicate CollisionFree(digest: Digest) {
    forall a, b :: digest(a) == digest(b) ==> a == b
  }

  /** The hasher, which accumulates what it is fed. */
  class Hasher {
    var fed: Bytes

    constructor ()
      ensures fed == []
    {
      fed := [];
    }

    method Update(bytes: Bytes)
      modifies this
      ensures fed == old(fed) + bytes
    {
      fed := fed + bytes;
    }

    method Field(tag: Bytes, value: Bytes)
      modifies this
      ensures fed == old(fed) + FieldBytes(tag, value)
    {
      Update(LittleEndian(|tag| % 0x1_0000_0000, 4));
      Update(tag);
      Update(LittleEndian(|value|, 8));
      Update(value);
      TagLength(|tag|);
      FourParts(old(fed), LittleEndian(|tag|, 4), tag, LittleEndian(|value|, 8), value);
    }
  }

  lemma FourParts(fed: Bytes, a: Bytes, b: Bytes, c: Bytes, d: Bytes)
    ensures fed + a + b + c + d == fed + (a + (b + (c + d)))
  {
  }

  /** Casting a length to 32 bits first does not change its 4 low bytes. */
  lemma TagLength(n: nat)
    ensures LittleEndian(n % 0x1_0000_0000, 4) == LittleEndian(n, 4)
  {
    Pow256Values();
    LowBytes(n, 4);
  }

  /** The low `k` bytes of a number do not depend on its higher bytes. */
  lemma {:induction false} LowBytes(n: nat, k: nat)
    ensures LittleEndian(n % Pow256(k), k) == LittleEndian(n, k)
  {
    if k > 0 {
      ShiftedResidue(n, Pow256(k - 1));
      LowBytes(n / 0x100, k - 1);
    }
  }

  lemma ShiftedResidue(n: nat, m: nat)
    requires m > 0
    ensures n % (0x100 * m) % 0x100 == n % 0x100
    ensures n % (0x100 * m) / 0x100 == (n / 0x100) % m
  {
    var r, q := n % (0x100 * m), n / (0x100 * m);
    var high := r / 0x100 + q * m;
    assert n == q * (0x100 * m) + r;
    assert q * (0x100 * m) == 0x100 * (q * m);
    ModIs(n, r % 0x100, high, 0x100);
    DivIs(n, r % 0x100, high, 0x100);
    ModIs(high, r / 0x100, q, m);
  }

  function HexOf(bytes: Bytes): string {
    if bytes == [] then [] else [HEX[bytes[0] / 16], HEX[bytes[0] % 16]] + HexOf(bytes[1..])
  }

  /** Two digits a byte, the high half first, in lower case. */
  lemma {:induction false} HexMeans(bytes: Bytes, i: nat)
    requires i < |bytes|
    ensures |HexOf(bytes)| == 2 * |bytes|
    ensures HexOf(bytes)[2 * i] == LowerDigit(bytes[i] / 16) && HexOf(bytes)[2 * i + 1] == LowerDigit(bytes[i] % 16)
  {
    HexDigit(bytes[0] / 16);
    HexDigit(bytes[0] % 16);
    if i > 0 {
      HexMeans(bytes[1..], i - 1);
    } else if |bytes| > 1 {
      HexMeans(bytes[1..], 0);
    }
  }

  function LowerDigit(d: nat): char
    requires d < 16
  {
    if d < 10 then '0' + d as char else 'a' + (d - 10) as char
  }

  lemma HexDigit(d: nat)
    requires d < 16
    ensures HEX[d] == LowerDigit(d)
  {
  }

  lemma {:induction false} HexSnoc(bytes: Bytes, b: Byte)
    ensures HexOf(bytes + [b]) == HexOf(bytes) + [HEX[b / 16], HEX[b % 16]]
  {
    if bytes == [] {
      assert bytes + [b] == [b];
    } else {
      assert (bytes + [b])[1..] == bytes[1..] + [b];
      HexSnoc(bytes[1..], b);
    }
  }

  method HexLower(bytes: Bytes) returns (out: string)
    ensures out == HexOf(bytes)
  {
    out := [];
    for i := 0 to |bytes|
      invariant out == HexOf(bytes[..i])
    {
      HexSnoc(bytes[..i], bytes[i]);
      assert bytes[..i + 1] == bytes[..i] + [bytes[i]];
      out := out + [HEX[bytes[i] / 16]];
      out := out + [HEX[bytes[i] % 16]];
    }
    assert bytes[..|bytes|] == bytes;
  }

  lemma HexDistinct(i: nat, j: nat)
    requires i < 16 && j < 16 && HEX[i] == HEX[j]
    ensures i == j
  {
  }

  lemma {:induction false} HexInjective(a: Bytes, b: Bytes)
    requires HexOf(a) == HexOf(b)
    ensures a == b
  {
    if a != [] && b != [] {
      SplitAt([HEX[a[0] / 16], HEX[a[0] % 16]], HexOf(a[1..]), [HEX[b[0] / 16], HEX[b[0] % 16]], HexOf(b[1..]));
      assert [HEX[a[0] / 16], HEX[a[0] % 16]][0] == [HEX[b[0] / 16], HEX[b[0] % 16]][0];
      assert [HEX[a[0] / 16], HEX[a[0] % 16]][1] == [HEX[b[0] / 16], HEX[b[0] % 16]][1];
      HexDistinct(a[0] / 16, b[0] / 16);
      HexDistinct(a[0] % 16, b[0] % 16);
      HexInjective(a[1..], b[1..]);
      assert a == [a[0]] + a[1..] && b == [b[0]] + b[1..];
    }
  }

  function KeyOf(digest: Digest, x: Inputs): string {
    HexOf(digest(ProofStream(x)))
  }

  function PairKeyOf(digest: Digest, x: Pair): string {
    HexOf(digest(AccessibilityStream(x)))
  }

  method CacheKey(digest: Digest, lowered: Bytes, seed: nat, verus: Bytes, thermite: Bytes) returns (key: string)
    ensures key == KeyOf(digest, Inputs(lowered, seed, verus, thermite, CHECK_SCHEMA_VERSION))
  {
    var hasher := new Hasher();
    hasher.Update(Ascii(DOMAIN));
    ghost var fs := ProofFields(Inputs(lowered, seed, verus, thermite, CHECK_SCHEMA_VERSION));
    Feed(hasher, Ascii("lowered"), lowered, Ascii(DOMAIN), fs, 0);
    Feed(hasher, Ascii("seed"), LittleEndian(seed, 8), Ascii(DOMAIN), fs, 1);
    Feed(hasher, Ascii("verus"), verus, Ascii(DOMAIN), fs, 2);
    Feed(hasher, Ascii("thermite"), thermite, Ascii(DOMAIN), fs, 3);
    Feed(hasher, Ascii("check-schema"), LittleEndian(CHECK_SCHEMA_VERSION, 4), Ascii(DOMAIN), fs, 4);
    assert fs[..5] == fs;
    key := HexLower(digest(hasher.fed));
  }

  lemma {:induction false} FieldsSnoc(fs: seq<(Bytes, Bytes)>, f: (Bytes, Bytes))
    ensures Fields(fs + [f]) == Fields(fs) + FieldBytes(f.0, f.1)
  {
    if fs == [] {
      assert fs + [f] == [f] && [f][1..] == [];
    } else {
      assert (fs + [f])[1..] == fs[1..] + [f];
      FieldsSnoc(fs[1..], f);
    }
  }

  /** Feeds the field at index `i` of a field list to a hasher that was fed the ones before it. */
  method Feed(hasher: Hasher, tag: Bytes, value: Bytes, ghost start: Bytes, ghost fs: seq<(Bytes, Bytes)>, ghost i: nat)
    requires i < |fs| && fs[i] == (tag, value) && hasher.fed == start + Fields(fs[..i])
    modifies hasher
    ensures hasher.fed == start + Fields(fs[..i + 1])
  {
    hasher.Field(tag, value);
    FieldsSnoc(fs[..i], fs[i]);
    assert fs[..i + 1] == fs[..i] + [fs[i]];
  }

  method AccessibilityCacheKey(digest: Digest, relation: Bytes, carrier: Bytes) returns (key: string)
    ensures key == PairKeyOf(digest, Pair(relation, carrier, CHECK_SCHEMA_VERSION))
  {
    var hasher := new Hasher();
    hasher.Update(Ascii(DOMAIN_ACCESSIBILITY));
    ghost var fs := PairFields(Pair(relation, carrier, CHECK_SCHEMA_VERSION));
    Feed(hasher, Ascii("relation"), relation, Ascii(DOMAIN_ACCESSIBILITY), fs, 0);
    Feed(hasher, Ascii("carrier"), carrier, Ascii(DOMAIN_ACCESSIBILITY), fs, 1);
    Feed(hasher, Ascii("check-schema"), LittleEndian(CHECK_SCHEMA_VERSION, 4), Ascii(DOMAIN_ACCESSIBILITY), fs, 2);
    assert fs[..3] == fs;
    key := HexLower(digest(hasher.fed));
  }

  /** With a collision-free hash, keys are equal exactly when the inputs are. */
  lemma KeysSeparate(digest: Digest, x: Inputs, y: Inputs)
    requires CollisionFree(digest) && InRange(x) && InRange(y)
    ensures KeyOf(digest, x) == KeyOf(digest, y) <==> x == y
  {
    if KeyOf(digest, x) == KeyOf(digest, y) {
      HexInjective(digest(ProofStream(x)), digest(ProofStream(y)));
      ProofStreamInjective(x, y);
    }
  }

  lemma PairKeysSeparate(digest: Digest, x: Pair, y: Pair)
    requires CollisionFree(digest) && PairInRange(x) && PairInRange(y)
    ensures PairKeyOf(digest, x) == PairKeyOf(digest, y) <==> x == y
  {
    if PairKeyOf(digest, x) == PairKeyOf(digest, y) {
      HexInjective(digest(AccessibilityStream(x)), digest(AccessibilityStream(y)));
      AccessibilityStreamInjective(x, y);
    }
  }

  /** No proof key is an accessibility key. */
  lemma KeySpacesDisjoint(digest: Digest, x: Inputs, y: Pair)
    requires CollisionFree(digest)
    ensures KeyOf(digest, x) != PairKeyOf(digest, y)
  {
    if KeyOf(digest, x) == PairKeyOf(digest, y) {
      HexInjective(digest(ProofStream(x)), digest(AccessibilityStream(y)));
      StreamsDisjoint(x, y);
    }
  }
}
