/**
Reading a solver's model text back (forge/src/bitvector.rs): the `define-fun` scanner, the literal
decoder and the bit-string renderer, with the printed form of section 4.2.6 of the SMT-LIB Standard
2.6 as the inverse.
 */
module BvModel {
  import opened Ast
  import opened Bits
  import opened Text

  // ---------- Scanning ----------

  const NEEDLE: string := "(define-fun "

  /** The characters Rust's `char::is_whitespace` accepts. */
  predicate IsSpace(c: char) {
    var n := c as int;
    || 9 <= n <= 13 || n == 32 || n == 0x85 || n == 0xA0 || n == 0x1680
    || 0x2000 <= n <= 0x200A || n == 0x2028 || n == 0x2029 || n == 0x202F || n == 0x205F || n == 0x3000
  }

  function TrimStart(s: string): string {
    if s != [] && IsSpace(s[0]) then TrimStart(s[1..]) else s
  }

  function TrimEnd(s: string): string {
    if s != [] && IsSpace(s[|s| - 1]) then TrimEnd(s[..|s| - 1]) else s
  }

  function Trim(s: string): string {
    TrimEnd(TrimStart(s))
  }

  /** The text before the first whitespace character. */
  function UntilSpace(s: string): string {
    if s == [] || IsSpace(s[0]) then [] else [s[0]] + UntilSpace(s[1..])
  }

  /** The `)` that brings the depth back to zero, scanning from `i` at depth `depth`. */
  function ParenFrom(s: string, i: nat, depth: int): (r: Option<nat>)
    ensures r.Some? ==> i <= r.value < |s| && s[r.value] == ')'
    decreases |s| - i
  {
    if i >= |s| then None
    else if s[i] == '(' then ParenFrom(s, i + 1, depth + 1)
    else if s[i] == ')' then if depth - 1 == 0 then Some(i) else ParenFrom(s, i + 1, depth - 1)
    else ParenFrom(s, i + 1, depth)
  }

  method MatchingParen(s: string, open: nat) returns (r: Option<nat>)
    ensures r == ParenFrom(s, open, 0)
  {
    var depth := 0;
    var i := open;
    while i < |s|
      invariant ParenFrom(s, open, 0) == ParenFrom(s, i, depth)
    {
      if s[i] == '(' {
        depth := depth + 1;
      } else if s[i] == ')' {
        depth := depth - 1;
        if depth == 0 {
          return Some(i);
        }
      }
      i := i + 1;
    }
    r := None;
  }

  // ---------- Decoding ----------

  const U128: int := 0x1_0000_0000_0000_0000_0000_0000_0000_0000

  function DigitValue(c: char): Option<nat> {
    if '0' <= c <= '9' then Some(c as int - '0' as int)
    else if 'a' <= c <= 'f' then Some(c as int - 'a' as int + 10)
    else if 'A' <= c <= 'F' then Some(c as int - 'A' as int + 10)
    else None
  }

  function Push(acc: nat, radix: nat, d: nat): nat {
    acc * radix + d
  }

  function ParseDigits(s: string, radix: nat, acc: nat): Option<nat> {
    if s == [] then Some(acc)
    else
      match DigitValue(s[0])
      case None => None
      case Some(d) =>
        if d >= radix || Push(acc, radix, d) >= U128 then None else ParseDigits(s[1..], radix, Push(acc, radix, d))
  }

  /** `u128::from_str_radix`: a leading `+` is allowed, the empty string and overflow are errors. */
  function FromRadix(s: string, radix: nat): Option<nat> {
    var digits := if s != [] && s[0] == '+' then s[1..] else s;
    if digits == [] then None else ParseDigits(digits, radix, 0)
  }

  /** The digit `c` stands for, in either case. */
  predicate DigitIs(c: char, d: nat) {
    d < 16 && (c == "0123456789abcdef"[d] || c == "0123456789ABCDEF"[d])
  }

  /** The digits of a numeral. */
  ghost predicate Spells(s: string, ds: seq<nat>, radix: nat) {
    |ds| == |s| && forall i :: 0 <= i < |s| ==> DigitIs(s[i], ds[i]) && ds[i] < radix
  }

  /** The number with these digits, the last one for the units. */
  function Number(ds: seq<nat>, radix: nat): nat {
    if ds == [] then 0 else Push(Number(ds[..|ds| - 1], radix), radix, ds[|ds| - 1])
  }

  lemma DigitChars(d: nat)
    requires d < 16
    ensures "0123456789abcdef"[d] as int == if d < 10 then '0' as int + d else 'a' as int + d - 10
    ensures "0123456789ABCDEF"[d] as int == if d < 10 then '0' as int + d else 'A' as int + d - 10
  {
  }

  lemma DigitMeans(c: char, d: nat)
    ensures DigitIs(c, d) <==> DigitValue(c) == Some(d)
  {
    if d < 16 {
      DigitChars(d);
    }
  }

  lemma {:induction false} ParseSnoc(s: string, c: char, radix: nat, acc: nat)
    ensures ParseDigits(s + [c], radix, acc)
         == match ParseDigits(s, radix, acc)
            case Some(v) => ParseDigits([c], radix, v)
            case None => None
  {
    if s == [] {
      assert s + [c] == [c];
    } else {
      assert (s + [c])[1..] == s[1..] + [c] && (s + [c])[0] == s[0];
      match DigitValue(s[0])
      case Some(d) => ParseSnoc(s[1..], c, radix, Push(acc, radix, d));
      case None =>
    }
  }

  lemma ParseOne(c: char, radix: nat, acc: nat)
    ensures ParseDigits([c], radix, acc)
         == match DigitValue(c)
            case Some(d) => if d < radix && Push(acc, radix, d) < U128 then Some(Push(acc, radix, d)) else None
            case None => None
  {
    assert [c][1..] == [];
  }

  lemma PushGrows(acc: nat, radix: nat, d: nat)
    requires radix > 0
    ensures Push(acc, radix, d) >= acc
  {
    MulGrows(acc, radix);
  }

  lemma {:induction false} ParsesIff(s: string, radix: nat, n: nat)
    requires radix > 0
    ensures ParseDigits(s, radix, 0) == Some(n)
            <==> n < U128 && exists ds :: Spells(s, ds, radix) && Number(ds, radix) == n
    decreases |s|
  {
    if s == [] {
      assert Spells(s, [], radix);
    } else {
      var init, c := s[..|s| - 1], s[|s| - 1];
      assert s == init + [c];
      ParseSnoc(init, c, radix, 0);
      if ParseDigits(s, radix, 0) == Some(n) {
        var v := ParseDigits(init, radix, 0).value;
        ParseOne(c, radix, v);
        DigitMeans(c, DigitValue(c).value);
        ParsesIff(init, radix, v);
        var ds :| Spells(init, ds, radix) && Number(ds, radix) == v;
        var all := ds + [DigitValue(c).value];
        assert all[..|all| - 1] == ds;
        assert Spells(s, all, radix) && Number(all, radix) == n;
      }
      if n < U128 && exists ds :: Spells(s, ds, radix) && Number(ds, radix) == n {
        var ds :| Spells(s, ds, radix) && Number(ds, radix) == n;
        var front, last := ds[..|ds| - 1], ds[|ds| - 1];
        assert Spells(init, front, radix);
        PushGrows(Number(front, radix), radix, last);
        ParsesIff(init, radix, Number(front, radix));
        DigitMeans(c, last);
        ParseOne(c, radix, Number(front, radix));
      }
    }
  }

  /**
  Reading a number gives `n` exactly when the text, without a leading `+`, is not empty, spells `n` in digits of
  the radix, in either case, and `n` has 128 bits.
   */
  lemma FromRadixIff(s: string, radix: nat, n: nat)
    requires radix > 0
    ensures var digits := if s != [] && s[0] == '+' then s[1..] else s;
            FromRadix(s, radix) == Some(n)
            <==> digits != [] && n < U128 && exists ds :: Spells(digits, ds, radix) && Number(ds, radix) == n
  {
    ParsesIff(if s != [] && s[0] == '+' then s[1..] else s, radix, n);
  }

  predicate StartsWith(s: string, p: string) {
    p <= s
  }

  function ParseLiteral(raw: string): Option<nat> {
    var text := Trim(raw);
    if StartsWith(text, "#x") then FromRadix(Trim(text[2..]), 16)
    else if StartsWith(text, "#b") then FromRadix(Trim(text[2..]), 2)
    else if StartsWith(text, "(_") then
      var tok := UntilSpace(TrimStart(text[2..]));
      if StartsWith(tok, "bv") then FromRadix(tok[2..], 10) else None
    else None
  }

  /** The value follows the `(_ BitVec W)` sort. */
  function DecodeValue(inner: string): Option<nat> {
    var pos := FindFrom(inner, "BitVec", 0);
    if pos < 0 then ParseLiteral(Trim(inner))
    else
      var afterSort := inner[pos + 6..];
      var rp := FindFrom(afterSort, ")", 0);
      ParseLiteral(Trim(if rp < 0 then afterSort else afterSort[rp + 1..]))
  }

  lemma NeedleHasNoClose(model: string, open: int, close: nat)
    requires OccursAt(model, NEEDLE, open) && open <= close < |model| && model[close] == ')'
    ensures open + |NEEDLE| <= close
  {
    if close < open + |NEEDLE| {
      OccurrenceChar(model, NEEDLE, open, close - open);
    }
  }

  /** Record one binding; a value that does not decode is skipped. */
  function Record(out: map<string, nat>, name: string, inner: string): map<string, nat> {
    match DecodeValue(inner)
    case Some(v) => if name != [] then out[name := v] else out
    case None => out
  }

  /** One round of the scan: no further binding, an unbalanced one to skip, or one with its name and body. */
  datatype Scan = Done | Unbalanced(next: nat) | Found(next: nat, name: string, inner: string)

  function NextBinding(model: string, search: nat): (r: Scan)
    ensures !r.Done? ==> search < r.next <= |model|
  {
    var open := FindFrom(model, NEEDLE, search);
    if open < 0 then Done
    else
      var after := open + |NEEDLE|;
      match ParenFrom(model, open, 0)
      case Some(close) =>
        FoundAt(model, NEEDLE, search);
        NeedleHasNoClose(model, open, close);
        Found(close + 1, UntilSpace(model[after..]), model[after..close])
      case None => Unbalanced(after)
  }

  method ScanBinding(model: string, search: nat) returns (r: Scan)
    ensures r == NextBinding(model, search)
  {
    var open := FindFrom(model, NEEDLE, search);
    if open < 0 {
      return Done;
    }
    var after := open + |NEEDLE|;
    var close := MatchingParen(model, open);
    match close
    case Some(c) =>
      FoundAt(model, NEEDLE, search);
      NeedleHasNoClose(model, open, c);
      r := Found(c + 1, UntilSpace(model[after..]), model[after..c]);
    case None => r := Unbalanced(after);
  }

  function Collect(model: string, search: nat, out: map<string, nat>): map<string, nat>
    decreases |model| - search
  {
    match NextBinding(model, search)
    case Done => out
    case Unbalanced(next) => Collect(model, next, out)
    case Found(next, name, inner) => Collect(model, next, Record(out, name, inner))
  }

  method CollectDefineFuns(model: string) returns (out: map<string, nat>)
    ensures out == Collect(model, 0, map[])
  {
    out := map[];
    var search := 0;
    while true
      invariant Collect(model, 0, map[]) == Collect(model, search, out)
      decreases |model| - search
    {
      var scan := ScanBinding(model, search);
      match scan
      case Done => return;
      case Unbalanced(next) => search := next;
      case Found(next, name, inner) =>
        out := Record(out, name, inner);
        search := next;
    }
  }

  // ---------- Bit patterns ----------

  function DigitChar(d: nat): char
    requires d < 16
  {
    HEX[d]
  }

  /** Exactly `len` digits, most significant first. */
  function DigitsOf(n: nat, radix: nat, len: nat): (r: string)
    requires 2 <= radix <= 16
    ensures |r| == len
  {
    if len == 0 then [] else DigitsOf(n / radix, radix, len - 1) + [DigitChar(n % radix)]
  }

  datatype BitPattern = BitPattern(name: string, width: nat, value: nat, bits: string)

  function PatternFor(parsed: map<string, nat>, v: string, w: nat): BitPattern {
    var value := (if v in parsed then parsed[v] else 0) % Pow2(w);
    BitPattern(v, w, value, "0b" + DigitsOf(value, 2, w))
  }

  lemma HalfOfShift(value: nat, i: nat)
    ensures (value / Pow2(i)) / 2 == value / Pow2(i + 1)
  {
    var q, r := value / Pow2(i), value % Pow2(i);
    assert value == q * Pow2(i) + r;
    var h, b := q / 2, q % 2;
    assert q == h * 2 + b;
    MulAssoc(h, 2, Pow2(i));
    MulDistributes(h * 2, b, Pow2(i));
    Multiples(b, Pow2(i));
    DivIs(value, b * Pow2(i) + r, h, Pow2(i + 1));
  }

  /** The source's loop from the top bit down. */
  method RenderBits(value: nat, width: nat) returns (bits: string)
    ensures bits == "0b" + DigitsOf(value, 2, width)
  {
    bits := "0b";
    var i := width;
    PositiveDiv(value, Pow2(width));
    while i > 0
      invariant 0 <= i <= width
      invariant bits == "0b" + DigitsOf(value / Pow2(i), 2, width - i)
    {
      i := i - 1;
      HalfOfShift(value, i);
      bits := bits + [if (value / Pow2(i)) % 2 == 1 then '1' else '0'];
    }
    assert value / Pow2(0) == value;
  }

  /** One pattern per variable; an omitted variable reads as zero. */
  method ParseBvModel(model: string, vars: seq<string>, w: nat) returns (r: seq<BitPattern>)
    ensures |r| == |vars|
    ensures forall i :: 0 <= i < |vars| ==> r[i] == PatternFor(Collect(model, 0, map[]), vars[i], w)
  {
    var parsed := CollectDefineFuns(model);
    r := [];
    for i := 0 to |vars|
      invariant |r| == i
      invariant forall j :: 0 <= j < i ==> r[j] == PatternFor(parsed, vars[j], w)
    {
      var value := (if vars[i] in parsed then parsed[vars[i]] else 0) % Pow2(w);
      var bits := RenderBits(value, w);
      r := r + [BitPattern(vars[i], w, value, bits)];
    }
  }
}
