/**
Printing a model in the form of section 4.2.6 of the SMT-LIB Standard 2.6, and the proof that the
scanner reads every printed binding back.
 */
module ModelText {
  import opened Ast
  import opened Bits
  import opened Text
  import opened BvModel

  /** The three bit-vector literal spellings: `#x..`, `#b..` and `(_ bvK W)`. */
  datatype Spelling = Hex | Bin | Indexed

  datatype Binding = Binding(name: string, value: nat, spelling: Spelling)

  function Decimal(n: nat): (r: string)
    ensures r != []
  {
    if n < 10 then [DigitChar(n)] else Decimal(n / 10) + [DigitChar(n % 10)]
  }

  function PrintValue(b: Binding, w: nat): string {
    match b.spelling
    case Hex => "#x" + DigitsOf(b.value, 16, w / 4)
    case Bin => "#b" + DigitsOf(b.value, 2, w)
    case Indexed => "(" + ("_ bv" + Decimal(b.value) + " " + Decimal(w)) + ")"
  }

  function SortText(w: nat): string {
    " () (_ BitVec " + (Decimal(w) + ")")
  }

  /** What follows `(define-fun ` up to the closing parenthesis; `gap` is the layout before the value. */
  function PrintBody(b: Binding, w: nat, gap: string): string {
    b.name + (SortText(w) + (gap + PrintValue(b, w)))
  }

  /** The bindings, each after the layout `sep`, and the end of the model. */
  function PrintAll(bs: seq<Binding>, w: nat, sep: string, gap: string): string {
    if bs == [] then "\n)\n"
    else sep + (NEEDLE + (PrintBody(bs[0], w, gap) + (")" + PrintAll(bs[1..], w, sep, gap))))
  }

  function PrintModel(bs: seq<Binding>, w: nat, sep: string, gap: string): string {
    "sat\n(" + PrintAll(bs, w, sep, gap)
  }

  predicate AllSpace(s: string) {
    forall c :: c in s ==> IsSpace(c)
  }

  predicate NoParens(s: string) {
    '(' !in s && ')' !in s
  }

  /** Names free of whitespace, parentheses and the text `BitVec`. */
  predicate PlainName(s: string) {
    s != [] && NoParens(s) && (forall c :: c in s ==> !IsSpace(c)) && !Contains(s, "BitVec")
  }

  predicate Printable(bs: seq<Binding>, w: nat) {
    forall b :: b in bs ==> PlainName(b.name) && b.value < Pow2(w)
  }

  /** The last binding of a name wins. */
  function Bound(bs: seq<Binding>, out: map<string, nat>): map<string, nat> {
    if bs == [] then out else Bound(bs[1..], out[bs[0].name := bs[0].value])
  }

  predicate Layout(sep: string, gap: string) {
    NoParens(sep) && AllSpace(gap)
  }

  /** Widths with a hexadecimal spelling, up to the widest tag. */
  predicate HexWidth(w: nat) {
    4 <= w <= 64 && w % 4 == 0
  }

  // ---------- Digits ----------

  lemma DigitBack(d: nat, radix: nat)
    requires d < radix <= 16
    ensures DigitValue(DigitChar(d)) == Some(d) && !IsSpace(DigitChar(d)) && DigitChar(d) != '+'
    ensures DigitChar(d) != '(' && DigitChar(d) != ')'
  {
  }

  lemma {:induction false} ParseSnoc(s: string, radix: nat, acc: nat, d: nat, v: nat)
    requires d < radix <= 16 && ParseDigits(s, radix, acc) == Some(v) && Push(v, radix, d) < U128
    ensures ParseDigits(s + [DigitChar(d)], radix, acc) == Some(Push(v, radix, d))
    decreases |s|
  {
    DigitBack(d, radix);
    var all := s + [DigitChar(d)];
    if s == [] {
      assert all == [DigitChar(d)] && all[1..] == [];
    } else {
      assert all[1..] == s[1..] + [DigitChar(d)];
      ParseSnoc(s[1..], radix, Push(acc, radix, DigitValue(s[0]).value), d, v);
    }
  }

  /** A run of digit characters, as the printers emit. */
  predicate DigitRun(s: string) {
    forall c :: c in s ==> !IsSpace(c) && c != '+' && c != '(' && c != ')'
  }

  lemma Recompose(n: nat, radix: nat)
    requires radix >= 2
    ensures (n / radix) * radix + n % radix == n && n / radix <= n && (n > 0 ==> n / radix < n)
  {
    PositiveDiv(n, radix);
    if n > 0 && n / radix >= n {
      MulGrows(n / radix, radix);
      assert (n / radix) * radix >= 2 * (n / radix) by { MulLarge(n / radix, radix); }
    }
  }

  lemma RecomposePush(n: nat, radix: nat)
    requires radix >= 2
    ensures Push(n / radix, radix, n % radix) == n && n / radix <= n && n % radix < radix
  {
    Recompose(n, radix);
  }

  lemma MulLarge(q: nat, r: nat)
    requires r >= 2
    ensures q * r >= 2 * q
  {
  }

  /** `n` has at most `len` digits. */
  predicate Fits(n: nat, radix: nat, len: nat)
    requires radix >= 2
  {
    if len == 0 then n == 0 else Fits(n / radix, radix, len - 1)
  }

  lemma {:induction false} BinaryFits(n: nat, w: nat)
    requires n < Pow2(w)
    ensures Fits(n, 2, w)
    decreases w
  {
    if w > 0 {
      BinaryFits(n / 2, w - 1);
    }
  }

  lemma {:induction false} HexFits(n: nat, k: nat)
    requires n < Pow2(4 * k)
    ensures Fits(n, 16, k)
    decreases k
  {
    if k > 0 {
      assert Pow2(4 * k) == 2 * Pow2(4 * k - 1) && Pow2(4 * k - 1) == 2 * Pow2(4 * k - 2);
      assert Pow2(4 * k - 2) == 2 * Pow2(4 * k - 3) && Pow2(4 * k - 3) == 2 * Pow2(4 * (k - 1));
      HexFits(n / 16, k - 1);
    }
  }

  /** Fixed-length digits parse back. */
  lemma {:induction false} DigitsParse(n: nat, radix: nat, len: nat)
    requires 2 <= radix <= 16 && Fits(n, radix, len) && n < U128
    ensures ParseDigits(DigitsOf(n, radix, len), radix, 0) == Some(n)
    decreases len
  {
    if len > 0 {
      RecomposePush(n, radix);
      DigitsParse(n / radix, radix, len - 1);
      ParseSnoc(DigitsOf(n / radix, radix, len - 1), radix, 0, n % radix, n / radix);
    }
  }

  lemma {:induction false} DigitsRun(n: nat, radix: nat, len: nat)
    requires 2 <= radix <= 16
    ensures DigitRun(DigitsOf(n, radix, len))
    decreases len
  {
    if len > 0 {
      DigitsRun(n / radix, radix, len - 1);
      DigitBack(n % radix, radix);
    }
  }

  lemma {:induction false} DecimalParse(n: nat)
    requires n < U128
    ensures ParseDigits(Decimal(n), 10, 0) == Some(n) && DigitRun(Decimal(n))
    decreases n
  {
    if n < 10 {
      DigitBack(n, 10);
      assert Decimal(n)[1..] == [];
    } else {
      Recompose(n, 10);
      DecimalParse(n / 10);
      ParseSnoc(Decimal(n / 10), 10, 0, n % 10, n / 10);
      DigitBack(n % 10, 10);
    }
  }

  /** `render_bits` yields exactly `w` digits, and their binary value is the input. */
  lemma RenderedBitsValue(value: nat, w: nat)
    requires value < Pow2(w) && value < U128
    ensures |DigitsOf(value, 2, w)| == w && ParseDigits(DigitsOf(value, 2, w), 2, 0) == Some(value)
  {
    BinaryFits(value, w);
    DigitsParse(value, 2, w);
  }

  // ---------- Layout ----------

  lemma {:induction false} TrimLayout(gap: string, v: string)
    requires AllSpace(gap) && v != [] && !IsSpace(v[0]) && !IsSpace(v[|v| - 1])
    ensures Trim(gap + v) == v
    decreases gap
  {
    if gap == [] {
      assert gap + v == v;
    } else {
      assert (gap + v)[1..] == gap[1..] + v;
      TrimLayout(gap[1..], v);
    }
  }

  lemma TrimNothing(v: string)
    requires v != [] && !IsSpace(v[0]) && !IsSpace(v[|v| - 1])
    ensures Trim(v) == v
  {
  }

  lemma {:induction false} UntilSpaceStops(word: string, rest: string)
    requires forall c :: c in word ==> !IsSpace(c)
    requires rest != [] && IsSpace(rest[0])
    ensures UntilSpace(word + rest) == word
    decreases word
  {
    if word == [] {
      assert word + rest == rest;
    } else {
      assert (word + rest)[1..] == word[1..] + rest;
      UntilSpaceStops(word[1..], rest);
    }
  }

  // ---------- Parentheses ----------

  /** The scan of `ParenFrom` on a suffix, counted from its start. */
  function ParenIn(t: string, depth: int): Option<nat> {
    if t == [] then None
    else if t[0] == '(' then Later(1, ParenIn(t[1..], depth + 1))
    else if t[0] == ')' then if depth - 1 == 0 then Some(0) else Later(1, ParenIn(t[1..], depth - 1))
    else Later(1, ParenIn(t[1..], depth))
  }

  function Later(k: nat, r: Option<nat>): Option<nat> {
    match r case Some(n) => Some(k + n) case None => None
  }

  lemma {:induction false} ParenSuffix(s: string, i: nat, depth: int)
    requires i <= |s|
    ensures match ParenIn(s[i..], depth)
            case Some(j) => ParenFrom(s, i, depth) == Some(i + j)
            case None => ParenFrom(s, i, depth) == None
    decreases |s| - i
  {
    if i < |s| {
      assert s[i..][1..] == s[i + 1..];
      ParenSuffix(s, i + 1, depth + 1);
      ParenSuffix(s, i + 1, depth - 1);
      ParenSuffix(s, i + 1, depth);
    }
  }

  lemma {:induction false} ParenPlain(x: string, rest: string, depth: int)
    requires NoParens(x)
    ensures ParenIn(x + rest, depth) == Later(|x|, ParenIn(rest, depth))
    decreases x
  {
    if x == [] {
      assert x + rest == rest;
    } else {
      assert (x + rest)[1..] == x[1..] + rest;
      ParenPlain(x[1..], rest, depth);
    }
  }

  lemma ParenOpen(rest: string, depth: int)
    ensures ParenIn("(" + rest, depth) == Later(1, ParenIn(rest, depth + 1))
  {
    assert ("(" + rest)[1..] == rest;
  }

  lemma ParenClose(rest: string, depth: int)
    ensures ParenIn(")" + rest, depth) == if depth == 1 then Some(0) else Later(1, ParenIn(rest, depth - 1))
  {
    assert (")" + rest)[1..] == rest;
  }

  // ---------- One binding ----------

  /** A printed value: one balanced word that starts and ends outside the layout. */
  lemma ValueWord(b: Binding, w: nat)
    requires 4 <= w && b.value < U128
    ensures var v := PrintValue(b, w);
            v != [] && !IsSpace(v[0]) && !IsSpace(v[|v| - 1])
  {
    match b.spelling
    case Hex => DigitsRun(b.value, 16, w / 4);
    case Bin => DigitsRun(b.value, 2, w);
    case Indexed =>
  }

  lemma ValueParen(b: Binding, w: nat, rest: string)
    requires b.value < U128 && w < U128
    ensures ParenIn(PrintValue(b, w) + rest, 1) == Later(|PrintValue(b, w)|, ParenIn(rest, 1))
  {
    if b.spelling.Indexed? {
      DecimalParse(b.value);
      DecimalParse(w);
      WrappedParen("_ bv" + Decimal(b.value) + " " + Decimal(w), rest, 1);
    } else {
      DigitsRun(b.value, 16, w / 4);
      DigitsRun(b.value, 2, w);
      ParenPlain(PrintValue(b, w), rest, 1);
    }
  }

  lemma WrappedParen(inside: string, rest: string, depth: nat)
    requires NoParens(inside) && depth > 0
    ensures ParenIn("(" + inside + ")" + rest, depth) == Later(|inside| + 2, ParenIn(rest, depth))
  {
    assert "(" + inside + ")" + rest == "(" + (inside + (")" + rest));
    ParenOpen(inside + (")" + rest), depth);
    ParenPlain(inside, ")" + rest, depth + 1);
    ParenClose(rest, depth + 1);
  }

  lemma SortParen(w: nat, rest: string)
    requires w < U128
    ensures ParenIn(SortText(w) + rest, 1) == Later(|SortText(w)|, ParenIn(rest, 1))
  {
    DecimalParse(w);
    var inside := "_ BitVec " + Decimal(w);
    var tail := "(" + inside + ")" + rest;
    assert SortText(w) + rest == " () " + tail;
    NoParameters(tail);
    WrappedParen(inside, rest, 1);
  }

  lemma NoParameters(tail: string)
    ensures ParenIn(" () " + tail, 1) == Later(4, ParenIn(tail, 1))
  {
    var rest := " " + tail;
    assert " () " + tail == " " + ("(" + (")" + rest));
    ParenPlain(" ", "(" + (")" + rest), 1);
    ParenOpen(")" + rest, 1);
    ParenClose(rest, 2);
    ParenPlain(" ", tail, 1);
  }

  lemma Regroup(a: string, b: string, c: string, d: string, rest: string)
    ensures a + (b + (c + d)) + rest == a + (b + (c + (d + rest)))
  {
  }

  /** The body of a binding is balanced. */
  lemma BodyParen(b: Binding, w: nat, gap: string, rest: string)
    requires NoParens(b.name) && NoParens(gap) && b.value < U128 && w < U128
    ensures ParenIn(PrintBody(b, w, gap) + rest, 1) == Later(|PrintBody(b, w, gap)|, ParenIn(rest, 1))
  {
    var v, sort := PrintValue(b, w), SortText(w);
    Regroup(b.name, sort, gap, v, rest);
    ParenPlain(b.name, sort + (gap + (v + rest)), 1);
    SortParen(w, gap + (v + rest));
    ParenPlain(gap, v + rest, 1);
    ValueParen(b, w, rest);
  }

  /** `BitVec` first occurs in the sort. */
  lemma SortPosition(name: string, body: string, tail: string)
    requires PlainName(name) && body == name + " () (_ " + "BitVec" + tail
    ensures FindFrom(body, "BitVec", 0) == |name| + 7 && body[|name| + 13..] == tail
  {
    assert OccursAt(body, "BitVec", |name| + 7);
    forall j {:trigger OccursAt(body, "BitVec", j)} | 0 <= j < |name| + 7
      ensures !OccursAt(body, "BitVec", j)
    {
      NoEarlierSort(name, body, tail, j);
    }
    FindIs(body, "BitVec", 0, |name| + 7);
  }

  lemma NoEarlierSort(name: string, body: string, tail: string, j: int)
    requires PlainName(name) && body == name + " () (_ " + "BitVec" + tail
    requires 0 <= j < |name| + 7
    ensures !OccursAt(body, "BitVec", j)
  {
    if j + 6 <= |name| {
      NotBefore(name, "BitVec", 0, j);
      assert name[j..j + 6] == body[j..j + 6];
    } else if j <= |name| {
      assert body[|name|] == ' ';
      Mismatch(body, "BitVec", j, |name| - j);
    } else {
      assert body[j] == " () (_ "[j - |name|];
      Mismatch(body, "BitVec", j, 0);
    }
  }

  lemma BodyShape(b: Binding, w: nat, gap: string)
    ensures var v := PrintValue(b, w);
            PrintBody(b, w, gap) == b.name + " () (_ " + "BitVec" + (" " + Decimal(w) + (")" + (gap + v)))
  {
  }

  /** The decoded value of a printed body. */
  lemma BodyDecodes(b: Binding, w: nat, gap: string)
    requires PlainName(b.name) && AllSpace(gap) && HexWidth(w) && b.value < Pow2(w)
    ensures DecodeValue(PrintBody(b, w, gap)) == Some(b.value)
  {
    SmallWidth(w);
    var v := PrintValue(b, w);
    var word := " " + Decimal(w);
    BodyShape(b, w, gap);
    DecimalParse(w);
    ValueWord(b, w);
    TrimLayout(gap, v);
    DecodeShape(PrintBody(b, w, gap), b.name, word, gap, v);
    LiteralParses(b, w);
  }

  lemma DecodeShape(inner: string, name: string, word: string, gap: string, v: string)
    requires inner == name + " () (_ " + "BitVec" + (word + (")" + (gap + v)))
    requires PlainName(name) && NoParens(word) && Trim(gap + v) == v
    ensures DecodeValue(inner) == ParseLiteral(v)
  {
    SortPosition(name, inner, word + (")" + (gap + v)));
    FirstClose(word, gap + v);
    DecodeAt(inner, |name| + 7, |word|, v);
  }

  lemma FirstClose(word: string, rest: string)
    requires NoParens(word)
    ensures FindFrom(word + (")" + rest), ")", 0) == |word| && (word + (")" + rest))[|word| + 1..] == rest
  {
    FindAfter([], word, ")", rest);
    EmptyPrefix(word + (")" + rest));
    SuffixAfter(word, ")", rest);
  }

  lemma EmptyPrefix(s: string)
    ensures [] + s == s
  {
  }

  /** Decoding from what its searches find. */
  lemma DecodeAt(inner: string, pos: nat, rp: nat, v: string)
    requires FindFrom(inner, "BitVec", 0) == pos && pos + 6 <= |inner|
    requires FindFrom(inner[pos + 6..], ")", 0) == rp && rp < |inner[pos + 6..]|
    requires Trim(inner[pos + 6..][rp + 1..]) == v
    ensures DecodeValue(inner) == ParseLiteral(v)
  {
  }

  lemma SmallWidth(w: nat)
    requires w <= 64
    ensures Pow2(w) < U128
  {
    Pow2Monotone(w, 64);
    Pow2Values();
  }

  lemma LiteralParses(b: Binding, w: nat)
    requires HexWidth(w) && b.value < Pow2(w)
    ensures ParseLiteral(PrintValue(b, w)) == Some(b.value)
  {
    SmallWidth(w);
    var v := PrintValue(b, w);
    ValueWord(b, w);
    TrimNothing(v);
    match b.spelling
    case Hex =>
      assert w == 4 * (w / 4);
      HexFits(b.value, w / 4);
      var run := DigitsOf(b.value, 16, w / 4);
      RunParses(run, b.value, 16, w / 4);
      assert v[2..] == run && StartsWith(v, "#x");
    case Bin =>
      BinaryFits(b.value, w);
      var run := DigitsOf(b.value, 2, w);
      RunParses(run, b.value, 2, w);
      assert v[1] == 'b' && "#x"[1] == 'x';
      assert v[2..] == run && StartsWith(v, "#b");
    case Indexed =>
      IndexedParses(b, w);
  }

  lemma RunParses(run: string, n: nat, radix: nat, len: nat)
    requires 2 <= radix <= 16 && run == DigitsOf(n, radix, len)
    requires len > 0 && Fits(n, radix, len) && n < U128
    ensures FromRadix(Trim(run), radix) == Some(n)
  {
    DigitsRun(n, radix, len);
    DigitsParse(n, radix, len);
    assert run[0] in run && run[|run| - 1] in run;
    TrimNothing(run);
  }

  lemma IndexedParses(b: Binding, w: nat)
    requires b.spelling.Indexed? && b.value < U128 && w < U128 && Trim(PrintValue(b, w)) == PrintValue(b, w)
    ensures ParseLiteral(PrintValue(b, w)) == Some(b.value)
  {
    var digits, width := Decimal(b.value), Decimal(w);
    var tail := ("bv" + digits) + (" " + width + ")");
    DecimalParse(b.value);
    IndexedShape(digits, width, PrintValue(b, w));
    SkipOneSpace(tail);
    UntilSpaceStops("bv" + digits, " " + width + ")");
    IndexedLiteral(PrintValue(b, w), "bv" + digits, digits, b.value);
  }

  lemma IndexedShape(digits: string, width: string, v: string)
    requires v == "(" + ("_ bv" + digits + " " + width) + ")"
    ensures !StartsWith(v, "#x") && !StartsWith(v, "#b") && StartsWith(v, "(_")
    ensures v[2..] == " " + (("bv" + digits) + (" " + width + ")"))
  {
    assert v[0] == '(' && v[1] == '_' && "#x"[0] == '#' && "#b"[0] == '#';
  }

  lemma SkipOneSpace(tail: string)
    requires tail != [] && !IsSpace(tail[0])
    ensures TrimStart(" " + tail) == tail
  {
    assert (" " + tail)[1..] == tail;
  }

  lemma IndexedLiteral(v: string, tok: string, digits: string, n: nat)
    requires Trim(v) == v && !StartsWith(v, "#x") && !StartsWith(v, "#b") && StartsWith(v, "(_")
    requires UntilSpace(TrimStart(v[2..])) == tok && StartsWith(tok, "bv") && tok[2..] == digits
    requires digits != [] && DigitRun(digits) && ParseDigits(digits, 10, 0) == Some(n)
    ensures ParseLiteral(v) == Some(n)
  {
    assert digits[0] in digits;
  }

  // ---------- The whole model ----------

  lemma SuffixAfter(pre: string, sep: string, t: string)
    ensures (pre + (sep + t))[|pre| + |sep|..] == t
  {
  }

  /** Where the body and what follows it lie, from the suffix that starts with the binding. */
  lemma Slices(model: string, open: nat, needle: string, body: string, rest: string)
    requires open <= |model| && model[open..] == needle + (body + rest)
    ensures var after := open + |needle|;
            && after + |body| <= |model| && model[after..] == body + rest && model[after..after + |body|] == body
  {
    var after := open + |needle|;
    assert model[open..][|needle|..] == model[after..];
    assert model[after..][..|body|] == model[after..after + |body|];
  }

  /** One round of the scan, standing before a printed binding. */
  lemma ScanOne(pre: string, b: Binding, w: nat, sep: string, gap: string, rest: string)
    requires Layout(sep, gap) && HexWidth(w) && PlainName(b.name) && b.value < Pow2(w)
    ensures var body := PrintBody(b, w, gap);
            NextBinding(pre + (sep + (NEEDLE + (body + (")" + rest)))), |pre|)
            == Found(|pre| + |sep| + |NEEDLE| + |body| + 1, b.name, body)
  {
    SmallWidth(w);
    BodyTail(b, w, gap, rest);
    ScanAfter(pre, sep, b.name, PrintBody(b, w, gap), PrintBody(b, w, gap) + (")" + rest));
  }

  /** The text from the body on: its name ends at the first space, and the body at its closing parenthesis. */
  lemma BodyTail(b: Binding, w: nat, gap: string, rest: string)
    requires AllSpace(gap) && PlainName(b.name) && b.value < U128 && w < U128
    ensures var tail := PrintBody(b, w, gap) + (")" + rest);
            UntilSpace(tail) == b.name && ParenIn(tail, 1) == Some(|PrintBody(b, w, gap)|)
  {
    SpaceNoParens(gap);
    BodyParen(b, w, gap, ")" + rest);
    ParenClose(rest, 1);
    BodyName(b, w, gap, ")" + rest);
  }

  lemma ScanAfter(pre: string, sep: string, name: string, body: string, tail: string)
    requires NoParens(sep) && UntilSpace(tail) == name && ParenIn(tail, 1) == Some(|body|) && body <= tail
    ensures NextBinding(pre + (sep + (NEEDLE + tail)), |pre|)
            == Found(|pre| + |sep| + |NEEDLE| + |body| + 1, name, body)
  {
    FindAfter(pre, sep, NEEDLE, tail);
    SuffixAfter(pre, sep, NEEDLE + tail);
    ScanText(pre + (sep + (NEEDLE + tail)), |pre|, |pre| + |sep|, name, body, tail);
  }

  /** One round of the scan over a balanced body. */
  lemma ScanText(model: string, search: nat, open: nat, name: string, body: string, tail: string)
    requires FindFrom(model, NEEDLE, search) == open && open <= |model| && model[open..] == NEEDLE + tail
    requires UntilSpace(tail) == name && ParenIn(tail, 1) == Some(|body|) && body <= tail
    ensures NextBinding(model, search) == Found(open + |NEEDLE| + |body| + 1, name, body)
  {
    BindingParen(model, open, tail, |body|);
    assert tail == body + tail[|body|..];
    Slices(model, open, NEEDLE, body, tail[|body|..]);
    BindingAt(model, search, open, name, body);
  }

  /** A round of the scan from what its searches find. */
  lemma BindingAt(model: string, search: nat, open: nat, name: string, inner: string)
    requires FindFrom(model, NEEDLE, search) == open
    requires ParenFrom(model, open, 0) == Some(open + |NEEDLE| + |inner|)
    requires var after := open + |NEEDLE|;
             after + |inner| <= |model| && UntilSpace(model[after..]) == name && model[after..after + |inner|] == inner
    ensures NextBinding(model, search) == Found(open + |NEEDLE| + |inner| + 1, name, inner)
  {
  }

  lemma SpaceNoParens(gap: string)
    requires AllSpace(gap)
    ensures NoParens(gap)
  {
    assert !IsSpace('(') && !IsSpace(')');
  }

  /** The parenthesis that closes a printed binding. */
  lemma BindingParen(model: string, open: nat, tail: string, n: nat)
    requires open <= |model| && model[open..] == NEEDLE + tail && ParenIn(tail, 1) == Some(n)
    ensures ParenFrom(model, open, 0) == Some(open + |NEEDLE| + n)
  {
    NeedleParen(tail);
    ParenSuffix(model, open, 0);
  }

  lemma NeedleParen(rest: string)
    ensures ParenIn(NEEDLE + rest, 0) == Later(|NEEDLE|, ParenIn(rest, 1))
  {
    var word := "define-fun ";
    assert NEEDLE + rest == "(" + (word + rest);
    ParenOpen(word + rest, 0);
    ParenPlain(word, rest, 1);
  }

  lemma BodyName(b: Binding, w: nat, gap: string, rest: string)
    requires PlainName(b.name)
    ensures UntilSpace(PrintBody(b, w, gap) + rest) == b.name
  {
    var tail := SortText(w) + (gap + PrintValue(b, w));
    assert PrintBody(b, w, gap) + rest == b.name + (tail + rest);
    assert (tail + rest)[0] == ' ';
    UntilSpaceStops(b.name, tail + rest);
  }

  lemma NextPrefix(pre: string, sep: string, needle: string, body: string, rest: string)
    ensures pre + (sep + (needle + (body + (")" + rest)))) == (pre + sep + needle + body + ")") + rest
  {
  }

  lemma {:induction false} CollectPrinted(pre: string, bs: seq<Binding>, w: nat, sep: string, gap: string,
                                          out: map<string, nat>)
    requires Layout(sep, gap) && HexWidth(w) && Printable(bs, w)
    ensures Collect(pre + PrintAll(bs, w, sep, gap), |pre|, out) == Bound(bs, out)
    decreases |bs|
  {
    if bs == [] {
      FindNothing(pre, "\n)\n", NEEDLE);
    } else {
      var b, rest := bs[0], PrintAll(bs[1..], w, sep, gap);
      var body := PrintBody(b, w, gap);
      assert b in bs;
      ScanOne(pre, b, w, sep, gap, rest);
      BodyDecodes(b, w, gap);
      var pre' := pre + sep + NEEDLE + body + ")";
      NextPrefix(pre, sep, NEEDLE, body, rest);
      CollectPrinted(pre', bs[1..], w, sep, gap, out[b.name := b.value]);
      CollectRound(pre + PrintAll(bs, w, sep, gap), |pre|, out, |pre'|, b.name, body);
    }
  }

  lemma CollectRound(model: string, search: nat, out: map<string, nat>, next: nat, name: string, inner: string)
    requires NextBinding(model, search) == Found(next, name, inner) && DecodeValue(inner).Some? && name != []
    ensures Collect(model, search, out) == Collect(model, next, out[name := DecodeValue(inner).value])
  {
  }

  lemma HeadIsQuiet(rest: string)
    requires rest != [] && rest[0] != 'd'
    ensures FindFrom("sat\n(" + rest, NEEDLE, 0) == FindFrom("sat\n(" + rest, NEEDLE, 5)
  {
    var s := "sat\n(" + rest;
    forall j {:trigger OccursAt(s, NEEDLE, j)} | 0 <= j < 5
      ensures !OccursAt(s, NEEDLE, j)
    {
      assert s[j] == "sat\n("[j];
      Mismatch(s, NEEDLE, j, if j == 4 then 1 else 0);
    }
    SkipTo(s, NEEDLE, 0, 5);
  }

  /**
  Round trip: parsing a printed model gives every variable the value it was printed with, zero for a
  variable the model omits, and the `w` digits of that value.
   */
  lemma ModelRoundTrip(bs: seq<Binding>, w: nat, sep: string, gap: string, v: string)
    requires Layout(sep, gap) && HexWidth(w) && Printable(bs, w) && (sep != [] ==> sep[0] != 'd')
    ensures var value := if v in Bound(bs, map[]) then Bound(bs, map[])[v] else 0;
            PatternFor(Collect(PrintModel(bs, w, sep, gap), 0, map[]), v, w)
            == BitPattern(v, w, value, "0b" + DigitsOf(value, 2, w))
  {
    var all := PrintAll(bs, w, sep, gap);
    assert all[0] != 'd';
    HeadIsQuiet(all);
    assert NextBinding("sat\n(" + all, 0) == NextBinding("sat\n(" + all, 5);
    CollectPrinted("sat\n(", bs, w, sep, gap, map[]);
    BoundValues(bs, w, map[], v);
    var value := if v in Bound(bs, map[]) then Bound(bs, map[])[v] else 0;
    ModSmall(value, Pow2(w));
  }

  lemma {:induction false} BoundValues(bs: seq<Binding>, w: nat, out: map<string, nat>, v: string)
    requires Printable(bs, w) && (v in out ==> out[v] < Pow2(w))
    ensures v in Bound(bs, out) ==> Bound(bs, out)[v] < Pow2(w)
    decreases |bs|
  {
    if bs != [] {
      assert bs[0] in bs;
      BoundValues(bs[1..], w, out[bs[0].name := bs[0].value], v);
    }
  }
}
