/** JSON texts as the importer accepts them: every spelling of strings, numbers and
    blanks, as derivations, and the proof that the parser of src/report/jimport.c accepts
    exactly these (after RFC 8259, with the importer's own limits). */
module JsonGrammar {
  import opened Core
  import opened Lex
  import opened QueryText
  import opened JsonText
  import opened Json

  // ---- characters of a string ----

  /** The text that stands for one byte between quotes. */
  predicate SpellsByte(w: Bytes, c: byte) {
    || (w == [c] && c != '"' as int && c != '\\' as int)
    || (w == Ascii("\\\"") && c == '"' as int)
    || (w == Ascii("\\\\") && c == '\\' as int)
    || (w == Ascii("\\/") && c == '/' as int)
    || (w == Ascii("\\b") && c == 8)
    || (w == Ascii("\\f") && c == 12)
    || (w == Ascii("\\n") && c == 10)
    || (w == Ascii("\\r") && c == 13)
    || (w == Ascii("\\t") && c == 9)
    || (|w| == 6 && w[..2] == Ascii("\\u") && c <= 0x7F
        && Nibble(w[2], 0) && Nibble(w[3], 0) && Nibble(w[4], c / 16) && Nibble(w[5], c % 16))
  }

  lemma UnicodeIff(h: Bytes, c: byte)
    requires |h| >= 4
    ensures UnicodeEscape(h) == Some(c) <==>
              c <= 0x7F && Nibble(h[0], 0) && Nibble(h[1], 0) && Nibble(h[2], c / 16) && Nibble(h[3], c % 16)
  {
    hide Nibble, HexValue;
    NibbleValue(h[0], 0);
    NibbleValue(h[1], 0);
    NibbleValue(h[2], c / 16);
    NibbleValue(h[3], c % 16);
    HexValueRange(h[0]);
    HexValueRange(h[1]);
    HexValueRange(h[2]);
    HexValueRange(h[3]);
  }

  /** Which words the parser takes for which byte. */
  lemma CharacterIff(s: Bytes, c: byte, n: nat)
    requires s != [] && s[0] != QUOTE
    ensures Character(s) == Some((c, n)) <==> 1 <= n <= |s| && SpellsByte(s[..n], c)
  {
    hide Nibble, UnicodeEscape;
    if |s| >= 6 && s[0] == BACKSLASH && s[1] == 117 {
      UnicodeIff(s[2..], c);
      if n == 6 {
        var w := s[..6];
        assert w[..2] == [BACKSLASH, 117] && w[2] == s[2..][0] && w[3] == s[2..][1] && w[4] == s[2..][2] && w[5] == s[2..][3];
      }
    }
    if 1 <= n <= |s| {
      assert s[..n][0] == s[0];
      if n == 2 { assert s[..2] == [s[0], s[1]]; }
      if n == 6 { assert s[..n][..2] == [s[0], s[1]]; }
    }
    if 2 <= |s| < 6 { ShortUnicode(s); }
  }

  lemma ShortUnicode(s: Bytes)
    requires 2 <= |s| < 6
    ensures UnicodeEscape(s[2..]) == None
  {
  }

  // ---- numbers ----

  predicate AllDigits10(s: Bytes) { forall i | 0 <= i < |s| :: DigitChar(s[i]) }

  /** The letter, the sign and the digits. */
  type Exponent = Option<(byte, Option<byte>, Bytes)>

  /** [-]digits[.digits][e[+-]digits], where digits behind a dot or an exponent may be
      missing. */
  datatype NumberParts = NumberParts(minus: bool, whole: Bytes, fraction: Option<Bytes>, exponent: Exponent)

  predicate GoodNum(n: NumberParts) {
    && n.whole != [] && AllDigits10(n.whole)
    && (n.fraction.Some? ==> AllDigits10(n.fraction.value))
    && (n.exponent.Some? ==>
          var (e, sign, ds) := n.exponent.value;
          && (e == 'e' as int || e == 'E' as int)
          && (sign.Some? ==> sign.value == '+' as int || sign.value == '-' as int)
          && AllDigits10(ds))
  }

  function FractionText(f: Option<Bytes>): Bytes { if f.None? then [] else ['.' as int] + f.value }

  function ExponentText(x: Exponent): Bytes {
    match x
    case None => []
    case Some((e, None, ds)) => [e] + ds
    case Some((e, Some(sign), ds)) => [e, sign] + ds
  }

  function NumText(n: NumberParts): Bytes {
    (if n.minus then ['-' as int] else []) + (n.whole + (FractionText(n.fraction) + ExponentText(n.exponent)))
  }

  /** What follows does not continue the number. */
  predicate NumEnds(n: NumberParts, rest: Bytes) {
    rest == [] ||
    (&& !DigitChar(rest[0])
     && (n.exponent.None? ==> rest[0] != 'e' as int && rest[0] != 'E' as int)
     && (n.exponent.None? && n.fraction.None? ==> rest[0] != '.' as int)
     && (n.exponent.Some? && n.exponent.value.1.None? && n.exponent.value.2 == [] ==>
           rest[0] != '+' as int && rest[0] != '-' as int))
  }

  lemma DigitsAhead(ds: Bytes, rest: Bytes)
    requires AllDigits10(ds) && (rest == [] || !DigitChar(rest[0]))
    ensures DigitRun(ds + rest) == |ds|
  {
    RunIs(ds + rest, |ds|);
  }

  lemma ExponentRead(s: Bytes, k: nat, n: NumberParts, rest: Bytes)
    requires GoodNum(n) && NumEnds(n, rest) && k <= |s| && s[k..] == ExponentText(n.exponent) + rest
    ensures ExponentEnd(s, k) == k + |ExponentText(n.exponent)|
  {
    hide DigitRun;
    if n.exponent.Some? {
      var (e, sign, ds) := n.exponent.value;
      var m := if sign.Some? then k + 2 else k + 1;
      assert s[k] == s[k..][0] == e;
      assert k + 1 < |s| ==> s[k + 1] == s[k..][1];
      assert s[m..] == s[k..][m - k..] == ds + rest;
      DigitsAhead(ds, rest);
    } else {
      assert k < |s| ==> s[k] == s[k..][0] == rest[0];
    }
  }

  lemma FractionRead(s: Bytes, j: nat, n: NumberParts, rest: Bytes)
    requires GoodNum(n) && NumEnds(n, rest) && j <= |s|
    requires s[j..] == FractionText(n.fraction) + (ExponentText(n.exponent) + rest)
    ensures FractionEnd(s, j) == j + |FractionText(n.fraction)|
  {
    hide DigitRun;
    var tail := ExponentText(n.exponent) + rest;
    assert tail != [] ==> tail[0] == if n.exponent.Some? then n.exponent.value.0 else rest[0];
    if n.fraction.Some? {
      assert s[j] == s[j..][0] == '.' as int;
      assert s[j + 1..] == s[j..][1..] == n.fraction.value + tail;
      DigitsAhead(n.fraction.value, tail);
    } else {
      assert s[j..] == tail && (j < |s| ==> s[j] == s[j..][0] == tail[0]);
    }
  }

  /** Where the parts of a number stand. */
  lemma NumParts(n: NumberParts, rest: Bytes)
    requires n.whole != []
    ensures var s := NumText(n) + rest;
            var f, x := FractionText(n.fraction), ExponentText(n.exponent);
            var i := if n.minus then 1 else 0;
            var j := i + |n.whole|;
            && |NumText(n)| == j + |f| + |x|
            && s[i..] == n.whole + (f + (x + rest)) && s[j..] == f + (x + rest) && s[j + |f|..] == x + rest
            && s[0] == (if n.minus then '-' as int else n.whole[0]) && s[i] == n.whole[0]
  {
    hide FractionText, ExponentText;
    var s := NumText(n) + rest;
    var f, x := FractionText(n.fraction), ExponentText(n.exponent);
    var i := if n.minus then 1 else 0;
    assert s[i..] == n.whole + (f + (x + rest));
    assert s[i..][|n.whole|..] == f + (x + rest);
    assert (f + (x + rest))[|f|..] == x + rest;
  }

  lemma NumRead(n: NumberParts, rest: Bytes)
    requires GoodNum(n) && NumEnds(n, rest)
    ensures NumText(n) != [] && NumberSpan(NumText(n) + rest) == Some(|NumText(n)|)
    ensures NumText(n)[0] == '-' as int || DigitChar(NumText(n)[0])
  {
    hide DigitRun, FractionEnd, ExponentEnd, FractionText, ExponentText, NumText, NumEnds, GoodNum;
    var s := NumText(n) + rest;
    var f, x := FractionText(n.fraction), ExponentText(n.exponent);
    var j := (if n.minus then 1 else 0) + |n.whole|;
    WholeDigits(n);
    NumParts(n, rest);
    FirstAfterWhole(n, rest);
    DigitsAhead(n.whole, f + (x + rest));
    FractionRead(s, j, n, rest);
    ExponentRead(s, j + |f|, n, rest);
  }

  lemma WholeDigits(n: NumberParts)
    requires GoodNum(n)
    ensures n.whole != [] && AllDigits10(n.whole) && DigitChar(n.whole[0])
  {
  }

  lemma FirstAfterWhole(n: NumberParts, rest: Bytes)
    requires GoodNum(n) && NumEnds(n, rest)
    ensures var t := FractionText(n.fraction) + (ExponentText(n.exponent) + rest);
            t == [] || !DigitChar(t[0])
  {
  }

  predicate GoodExponent(x: Exponent, rest: Bytes) {
    var n := NumberParts(false, ['0' as int], None, x);
    GoodNum(n) && NumEnds(n.(fraction := Some([])), rest)
  }

  /** The digits from `m` on. */
  lemma RunAt(s: Bytes, m: nat)
    requires m <= |s|
    ensures var e := m + DigitRun(s[m..]);
            && m <= e <= |s| && AllDigits10(s[m..e]) && (e == |s| || !DigitChar(s[e]))
            && (m < |s| && IsDigit(s[m]) ==> m < e)
  {
    RunEnds(s[m..]);
    var t, e := s[m..], m + DigitRun(s[m..]);
    assert s[m..e] == t[..DigitRun(t)];
  }

  lemma ExponentOf(s: Bytes, k: nat) returns (x: Exponent)
    requires k <= |s| && (k == |s| || !DigitChar(s[k]))
    ensures var e := ExponentEnd(s, k); GoodExponent(x, s[e..]) && ExponentText(x) == s[k..e]
    ensures x.None? ==> ExponentEnd(s, k) == k
  {
    hide DigitRun;
    var e := ExponentEnd(s, k);
    if k < |s| && IsExp(s[k]) {
      var signed := k + 1 < |s| && (s[k + 1] == 43 || s[k + 1] == MINUS);
      var m := if signed then k + 2 else k + 1;
      RunAt(s, m);
      x := Some((s[k], if signed then Some(s[k + 1]) else None, s[m..e]));
      assert s[k..e] == (if signed then [s[k], s[k + 1]] else [s[k]]) + s[m..e];
      assert e < |s| ==> s[e..][0] == s[e];
    } else {
      x := None;
      assert k < |s| ==> s[k..][0] == s[k];
    }
  }

  lemma FractionOf(s: Bytes, j: nat) returns (f: Option<Bytes>)
    requires j <= |s| && (j == |s| || !DigitChar(s[j]))
    ensures var k := FractionEnd(s, j);
            && FractionText(f) == s[j..k] && (f.Some? ==> AllDigits10(f.value))
            && (k == |s| || !DigitChar(s[k])) && (f.None? ==> k == j && (k == |s| || s[k] != '.' as int))
  {
    hide DigitRun;
    if j < |s| && s[j] == DOT {
      RunAt(s, j + 1);
      f := Some(s[j + 1..FractionEnd(s, j)]);
    } else {
      f := None;
    }
  }

  lemma PartsEnd(minus: bool, whole: Bytes, f: Option<Bytes>, x: Exponent, rest: Bytes)
    requires whole != [] && AllDigits10(whole) && (f.Some? ==> AllDigits10(f.value)) && GoodExponent(x, rest)
    requires x.None? && f.None? && rest != [] ==> rest[0] != '.' as int
    ensures var n := NumberParts(minus, whole, f, x); GoodNum(n) && NumEnds(n, rest)
  {
  }

  lemma Cuts(s: Bytes, i: nat, j: nat, k: nat, e: nat)
    requires i <= j <= k <= e <= |s|
    ensures s[..i] + (s[i..j] + (s[j..k] + s[k..e])) == s[..e]
  {
  }

  /** The parts of a number that was read. */
  lemma NumOf(s: Bytes) returns (n: NumberParts)
    requires NumberSpan(s).Some?
    ensures var k := NumberSpan(s).value; GoodNum(n) && NumText(n) == s[..k] && NumEnds(n, s[k..])
  {
    hide DigitRun, FractionEnd, ExponentEnd, FractionText, ExponentText, GoodExponent, NumEnds, AllDigits10;
    var i := if s[0] == MINUS then 1 else 0;
    RunAt(s, i);
    var j := i + DigitRun(s[i..]);
    var fraction := FractionOf(s, j);
    var k := FractionEnd(s, j);
    var exponent := ExponentOf(s, k);
    var e := ExponentEnd(s, k);
    n := NumberParts(s[0] == MINUS, s[i..j], fraction, exponent);
    assert s[e..] != [] ==> s[e..][0] == s[e];
    PartsEnd(n.minus, n.whole, fraction, exponent, s[e..]);
    Cuts(s, i, j, k, e);
    assert s[..i] == if n.minus then ['-' as int] else [];
  }

  // ---- integer fields ----

  /** [-]digits */
  predicate IntegerText(t: Bytes) { Digits10(t) || (|t| > 1 && t[0] == '-' as int && Digits10(t[1..])) }

  function IntegerOf(t: Bytes): int
    requires IntegerText(t)
  {
    if Digits10(t) then Decimal(t) else -Decimal(t[1..])
  }

  lemma SignedMeans(t: Bytes)
    ensures match Signed(t)
            case None => !IntegerText(t)
            case Some((neg, m)) => IntegerText(t) && IntegerOf(t) == (if neg then -(m as int) else m) && (neg <==> t[0] == '-' as int)
  {
    hide Decimal, Value, DigitRun;
    var neg := t != [] && t[0] == MINUS;
    var body := if neg then t[1..] else t;
    RunEnds(body);
    RunDigits(body);
    if Digits10(body) { RunIs(body, |body|); }
    if body != [] && DigitRun(body) == |body| {
      assert body[..|body|] == body;
      DecimalValue(0, body);
    }
  }

  lemma RunDigits(s: Bytes)
    ensures AllDigits10(s[..DigitRun(s)])
  {
  }

  /** An unsigned field is read exactly from a number of at most 32 bits, or from the
      negation modulo 2^64 of one. */
  lemma U32Iff(t: Bytes, v: u32)
    ensures ToU32(t) == Some(v) <==>
              IntegerText(t) && (IntegerOf(t) == v || (v > 0 && IntegerOf(t) == v - 18_446_744_073_709_551_616))
  {
    hide Signed, IntegerText, IntegerOf;
    SignedMeans(t);
  }

  function Clamped(n: int): int {
    if n > 9_223_372_036_854_775_807 then 9_223_372_036_854_775_807
    else if n < -9_223_372_036_854_775_808 then -9_223_372_036_854_775_808
    else n
  }

  /** A signed field is read from every integer: cut off at 64 bits, then taken modulo
      2^32. */
  lemma I32Iff(t: Bytes, v: i32)
    ensures ToI32(t) == Some(v) <==> IntegerText(t) && (Clamped(IntegerOf(t)) - v) % 4_294_967_296 == 0
  {
    hide Signed, IntegerText, IntegerOf;
    SignedMeans(t);
    if IntegerText(t) { WrapIff(Clamped(IntegerOf(t)), v); }
  }

  lemma WrapIff(n: int, v: i32)
    ensures (n + 0x8000_0000) % 0x1_0000_0000 - 0x8000_0000 == v <==> (n - v) % 4_294_967_296 == 0
  {
  }

  // ---- version fields ----

  /** The white space of the C library. */
  predicate White(s: Bytes) {
    forall i | 0 <= i < |s| :: s[i] == ' ' as int || s[i] in {9, 10, 11, 12, 13}
  }

  predicate SignText(s: Bytes) { s == [] || s == ['+' as int] || s == ['-' as int] }

  /** The 64-bit value, cut off at its maximum and negated modulo 2^64, in 32 bits. */
  function Scanned(sign: Bytes, m: nat): int {
    var v := if m > 18_446_744_073_709_551_615 then 18_446_744_073_709_551_615
             else if sign == ['-' as int] && m > 0 then 18_446_744_073_709_551_616 - m
             else m;
    v % 4_294_967_296
  }

  lemma {:induction false} SkipsWhite(gap: Bytes, rest: Bytes)
    requires White(gap) && rest != [] && !IsBlank(rest[0])
    ensures SkipBlank(gap + rest) == rest
  {
    if gap == [] {
      assert gap + rest == rest;
    } else {
      assert (gap + rest)[1..] == gap[1..] + rest;
      SkipsWhite(gap[1..], rest);
    }
  }

  lemma SignCut(sign: Bytes, body: Bytes)
    requires SignText(sign) && body != [] && IsDigit(body[0])
    ensures var s := sign + body;
            && s != [] && !IsBlank(s[0]) && (s[0] == MINUS || s[0] == 43 <==> sign != [])
            && (s[0] == MINUS <==> sign == ['-' as int]) && (if sign == [] then s else s[1..]) == body
  {
    assert [] + body == body;
  }

  /** One conversion: white space, a sign, digits as far as they go. */
  lemma ScanRead(gap: Bytes, sign: Bytes, ds: Bytes, rest: Bytes)
    requires White(gap) && SignText(sign) && Digits10(ds) && (rest == [] || !DigitChar(rest[0]))
    ensures Decimal(ds) >= 0 && ScanU(gap + (sign + (ds + rest))) == Some((Scanned(sign, Decimal(ds)), rest))
  {
    hide Decimal, Value, DigitRun, SkipBlank, White, SignText, IsBlank;
    var body := ds + rest;
    assert body[0] == ds[0] && IsDigit(body[0]);
    SignCut(sign, body);
    SkipsWhite(gap, sign + body);
    RunIs(body, |ds|);
    assert body[..|ds|] == ds && body[|ds|..] == rest;
    DecimalValue(0, ds);
  }

  // ---- strings ----

  /** Each byte with the word that spells it. */
  type Chars = seq<(Bytes, byte)>

  predicate GoodChars(cs: Chars) { forall i | 0 <= i < |cs| :: SpellsByte(cs[i].0, cs[i].1) }

  function CharsText(cs: Chars): Bytes { if cs == [] then [] else cs[0].0 + CharsText(cs[1..]) }

  function CharsValue(cs: Chars): (s: Bytes)
    ensures |s| == |cs| && forall i | 0 <= i < |cs| :: s[i] == cs[i].1
  {
    if cs == [] then [] else [cs[0].1] + CharsValue(cs[1..])
  }

  lemma SpellingShape(w: Bytes, c: byte)
    requires SpellsByte(w, c)
    ensures w != [] && w[0] != QUOTE
  {
    hide Nibble;
    if |w| == 6 { assert w[..2][0] == w[0]; }
  }

  lemma {:induction false} StringRead(cs: Chars, rest: Bytes)
    requires GoodChars(cs)
    ensures StringBody(CharsText(cs) + ([QUOTE] + rest)) == Some((CharsValue(cs), rest))
  {
    hide SpellsByte, Character;
    var tail := [QUOTE] + rest;
    if cs == [] {
      assert CharsText(cs) + tail == tail && tail[1..] == rest;
    } else {
      var (w, c) := cs[0];
      var more := CharsText(cs[1..]) + tail;
      var s := CharsText(cs) + tail;
      Assoc(w, CharsText(cs[1..]), tail);
      SpellingShape(w, c);
      assert s == w + more && s[..|w|] == w && s[|w|..] == more && s[0] == w[0];
      CharacterIff(s, c, |w|);
      StringRead(cs[1..], rest);
    }
  }

  lemma {:induction false} CharsOf(s: Bytes) returns (cs: Chars)
    requires StringBody(s).Some?
    ensures var (b, rest) := StringBody(s).value;
            GoodChars(cs) && CharsText(cs) + ([QUOTE] + rest) == s && CharsValue(cs) == b
    decreases |s|
  {
    hide SpellsByte, Character;
    if s[0] == QUOTE {
      cs := [];
      assert s == [] + ([QUOTE] + s[1..]);
    } else {
      var (c, n) := Character(s).value;
      CharacterIff(s, c, n);
      var more := CharsOf(s[n..]);
      var (b, rest) := StringBody(s[n..]).value;
      cs := [(s[..n], c)] + more;
      assert cs[1..] == more;
      Assoc(s[..n], CharsText(more), [QUOTE] + rest);
      assert s == s[..n] + s[n..];
    }
  }

  // ---- values ----

  /** A value as written. An empty array or object may have blanks inside; otherwise
      blanks may stand before and after every value, key and colon. */
  datatype Doc =
    | NullD | BoolD(b: bool) | NumD(n: NumberParts) | StrD(cs: Chars)
    | EmptyArrayD(gap: Bytes) | ArrayD(items: seq<Slot>)
    | EmptyObjectD(gap: Bytes) | ObjectD(members: seq<Pair>)

  datatype Slot = Slot(before: Bytes, d: Doc, after: Bytes)

  datatype Pair = Pair(before: Bytes, key: Chars, between: Bytes, val: Slot)

  function Quote(cs: Chars): Bytes { ['"' as int] + (CharsText(cs) + ['"' as int]) }

  function Text(d: Doc): Bytes {
    match d
    case NullD => Ascii("null")
    case BoolD(b) => Ascii(if b then "true" else "false")
    case NumD(n) => NumText(n)
    case StrD(cs) => Quote(cs)
    case EmptyArrayD(gap) => ['[' as int] + (gap + [']' as int])
    case ArrayD(items) => ['[' as int] + (ItemsText(items) + [']' as int])
    case EmptyObjectD(gap) => ['{' as int] + (gap + ['}' as int])
    case ObjectD(ms) => ['{' as int] + (MembersText(ms) + ['}' as int])
  }

  function SlotText(s: Slot): Bytes { s.before + (Text(s.d) + s.after) }

  function ItemsText(items: seq<Slot>): Bytes {
    if items == [] then []
    else SlotText(items[0]) + if |items| == 1 then [] else [',' as int] + ItemsText(items[1..])
  }

  function PairText(p: Pair): Bytes { p.before + (Quote(p.key) + (p.between + ([':' as int] + SlotText(p.val)))) }

  function MembersText(ms: seq<Pair>): Bytes {
    if ms == [] then []
    else PairText(ms[0]) + if |ms| == 1 then [] else [',' as int] + MembersText(ms[1..])
  }

  /** The tree it denotes; numbers keep their text. */
  function Tree(d: Doc): Json {
    match d
    case NullD => Null
    case BoolD(b) => Bool(b)
    case NumD(n) => Number(NumText(n))
    case StrD(cs) => String(CharsValue(cs))
    case EmptyArrayD(_) => Array([])
    case ArrayD(items) => Array(ItemTrees(items))
    case EmptyObjectD(_) => Object([])
    case ObjectD(ms) => Object(MemberTrees(ms))
  }

  function ItemTrees(items: seq<Slot>): seq<Json> {
    if items == [] then [] else [Tree(items[0].d)] + ItemTrees(items[1..])
  }

  function MemberTrees(ms: seq<Pair>): seq<(Bytes, Json)> {
    if ms == [] then [] else [(CharsValue(ms[0].key), Tree(ms[0].val.d))] + MemberTrees(ms[1..])
  }

  /** At most 64 values are nested. */
  predicate Good(d: Doc, depth: nat) {
    depth < 64 &&
    match d
    case NumD(n) => GoodNum(n)
    case StrD(cs) => GoodChars(cs)
    case EmptyArrayD(gap) => Blanks(gap)
    case ArrayD(items) => items != [] && forall x | x in items :: GoodSlot(x, depth + 1)
    case EmptyObjectD(gap) => Blanks(gap)
    case ObjectD(ms) => ms != [] && forall m | m in ms :: GoodPair(m, depth + 1)
    case _ => true
  }

  predicate GoodSlot(s: Slot, depth: nat) { Blanks(s.before) && Blanks(s.after) && Good(s.d, depth) }

  predicate GoodPair(p: Pair, depth: nat) {
    Blanks(p.before) && GoodChars(p.key) && Blanks(p.between) && GoodSlot(p.val, depth)
  }

  /** Only a number can run into what follows it. */
  predicate Ends(d: Doc, rest: Bytes) { d.NumD? ==> NumEnds(d.n, rest) }

  // ---- every such text is read ----

  /** Blanks, then a comma or a closing bracket or brace. */
  predicate Closes(tail: Bytes) {
    tail != [] && (tail[0] == ',' as int || tail[0] == ']' as int || tail[0] == '}' as int)
  }

  lemma AfterValue(d: Doc, after: Bytes, tail: Bytes)
    requires Blanks(after) && Closes(tail)
    ensures Ends(d, after + tail) && SkipSpace(after + tail) == tail
  {
    SkipsGap(after, tail);
    assert after != [] ==> (after + tail)[0] == after[0] && BlankChar(after[0]);
  }

  ghost predicate Reads(d: Doc, rest: Bytes, depth: nat) {
    var s := Text(d) + rest;
    && s != [] && !BlankChar(s[0]) && s[0] != ']' as int
    && ReadValue(s, depth) == Some((Tree(d), rest))
  }

  lemma ScalarRead(d: Doc, rest: Bytes, depth: nat)
    requires Good(d, depth) && Ends(d, rest) && (d.NullD? || d.BoolD? || d.NumD? || d.StrD?)
    ensures Reads(d, rest, depth)
  {
    hide StringBody, NumberSpan, CharsText, CharsValue, NumText, GoodNum, NumEnds;
    var s := Text(d) + rest;
    match d
    case NumD(n) =>
      NumRead(n, rest);
      var t := NumText(n);
      assert s[0] == t[0] && s[..|t|] == t && s[|t|..] == rest;
    case StrD(cs) =>
      assert s[1..] == CharsText(cs) + ([QUOTE] + rest);
      StringRead(cs, rest);
    case BoolD(b) =>
      assert Ascii("true") == TRUE_TEXT && Ascii("false") == FALSE_TEXT;
      assert s[|Text(d)|..] == rest;
    case NullD =>
      assert Ascii("null") == NULL_TEXT;
      assert s[4..] == rest;
  }

  lemma EmptyRead(d: Doc, rest: Bytes, depth: nat)
    requires Good(d, depth) && (d.EmptyArrayD? || d.EmptyObjectD?)
    ensures Reads(d, rest, depth)
  {
    hide Items, Members, SkipSpace, Blanks;
    var s := Text(d) + rest;
    var close := [if d.EmptyArrayD? then CLOSE_BRACKET else CLOSE_BRACE] + rest;
    assert s[1..] == d.gap + close && close[1..] == rest;
    SkipsGap(d.gap, close);
    NoSpace(s);
    if d.EmptyArrayD? {
      assert Brackets(s[1..], depth + 1) == Some((Array([]), rest));
    } else {
      assert Braces(s[1..], depth + 1) == Some((Object([]), rest));
    }
  }

  lemma {:induction false} DocRead(d: Doc, rest: Bytes, depth: nat)
    requires Good(d, depth) && Ends(d, rest)
    ensures Reads(d, rest, depth)
    decreases d, 0
  {
    hide Items, Members, ItemsText, MembersText, ItemTrees, MemberTrees;
    var s := Text(d) + rest;
    match d
    case ArrayD(items) =>
      var inner := ItemsText(items) + ([CLOSE_BRACKET] + rest);
      assert s[1..] == inner;
      ItemsRead(items, rest, depth + 1);
      BracketsOf(inner, depth + 1);
    case ObjectD(ms) =>
      var inner := MembersText(ms) + ([CLOSE_BRACE] + rest);
      assert s[1..] == inner;
      MembersRead(ms, rest, depth + 1);
      BracesOf(inner, depth + 1);
    case EmptyArrayD(_) => EmptyRead(d, rest, depth);
    case EmptyObjectD(_) => EmptyRead(d, rest, depth);
    case _ => ScalarRead(d, rest, depth);
  }

  /** Blanks before the first item are skipped twice. */
  lemma BracketsOf(text: Bytes, depth: nat)
    requires var s := SkipSpace(text); s != [] && s[0] != CLOSE_BRACKET
    ensures Brackets(text, depth)
         == match Items(text, depth) case None => None case Some((items, rest)) => Some((Array(items), rest))
  {
    SkipTwice(text);
    assert ReadValue(SkipSpace(text), depth) == ReadValue(text, depth);
  }

  lemma BracesOf(text: Bytes, depth: nat)
    requires var s := SkipSpace(text); s != [] && s[0] != CLOSE_BRACE
    ensures Braces(text, depth)
         == match Members(text, depth) case None => None case Some((ms, rest)) => Some((Object(ms), rest))
  {
    SkipTwice(text);
    assert Member(SkipSpace(text), depth) == Member(text, depth);
  }

  lemma ReadSkips(gap: Bytes, s: Bytes, depth: nat)
    requires Blanks(gap) && s != [] && !BlankChar(s[0])
    ensures ReadValue(gap + s, depth) == ReadValue(s, depth) && SkipSpace(gap + s) == s
  {
    hide Brackets, Braces, StringBody, NumberSpan;
    SkipsGap(gap, s);
    SkipsGap([], s);
    assert [] + s == s;
  }

  lemma SlotRead(x: Slot, tail: Bytes, depth: nat)
    requires GoodSlot(x, depth) && Closes(tail) && Reads(x.d, x.after + tail, depth)
    ensures ReadValue(SlotText(x) + tail, depth) == Some((Tree(x.d), x.after + tail))
    ensures var s := SkipSpace(SlotText(x) + tail); s != [] && s[0] != ']' as int
  {
    hide ReadValue, SkipSpace, Text, Tree, Good, Closes, Blanks;
    var s := Text(x.d) + (x.after + tail);
    assert SlotText(x) + tail == x.before + s;
    ReadSkips(x.before, s, depth);
  }

  lemma SlotParts(x: Slot, depth: nat)
    requires GoodSlot(x, depth)
    ensures Blanks(x.before) && Blanks(x.after) && Good(x.d, depth)
  {
  }

  lemma {:induction false} ItemsRead(items: seq<Slot>, rest: Bytes, depth: nat)
    requires items != [] && forall x | x in items :: GoodSlot(x, depth)
    ensures var s := ItemsText(items) + ([CLOSE_BRACKET] + rest);
            && Items(s, depth) == Some((ItemTrees(items), rest))
            && SkipSpace(s) != [] && SkipSpace(s)[0] != CLOSE_BRACKET
    decreases items, 1
  {
    hide ReadValue, SkipSpace, Tree, Text, SlotText;
    var x := items[0];
    var tail := if |items| == 1 then [CLOSE_BRACKET] + rest
                else [COMMA] + (ItemsText(items[1..]) + ([CLOSE_BRACKET] + rest));
    var s := ItemsText(items) + ([CLOSE_BRACKET] + rest);
    assert s == SlotText(x) + tail;
    assert x in items;
    SlotParts(x, depth);
    AfterValue(x.d, x.after, tail);
    DocRead(x.d, x.after + tail, depth);
    SlotRead(x, tail, depth);
    if |items| > 1 {
      ItemsRead(items[1..], rest, depth);
      assert tail[1..] == ItemsText(items[1..]) + ([CLOSE_BRACKET] + rest);
    } else {
      assert tail[1..] == rest && items[1..] == [] && ItemTrees(items) == [Tree(x.d)] + [] == [Tree(x.d)];
    }
  }

  /** A member's text with what follows it, cut where the parser cuts it. */
  lemma PairParts(p: Pair, tail: Bytes)
    ensures var val := [COLON] + (SlotText(p.val) + tail);
            var after := p.between + val;
            PairText(p) + tail == p.before + ([QUOTE] + (CharsText(p.key) + ([QUOTE] + after)))
  {
    hide CharsText, SlotText;
  }

  lemma PairRead(p: Pair, tail: Bytes, depth: nat)
    requires GoodPair(p, depth) && ReadValue(SlotText(p.val) + tail, depth) == Some((Tree(p.val.d), p.val.after + tail))
    ensures Member(PairText(p) + tail, depth) == Some(((CharsValue(p.key), Tree(p.val.d)), p.val.after + tail))
    ensures var s := SkipSpace(PairText(p) + tail); s != [] && s[0] == QUOTE
  {
    hide ReadValue, StringBody, CharsText, CharsValue, SlotText, Tree, SkipSpace, Blanks, GoodChars, PairText, GoodSlot;
    var val := [COLON] + (SlotText(p.val) + tail);
    var after := p.between + val;
    var chars := CharsText(p.key) + ([QUOTE] + after);
    PairParts(p, tail);
    SkipsGap(p.before, [QUOTE] + chars);
    assert ([QUOTE] + chars)[1..] == chars;
    StringRead(p.key, after);
    SkipsGap(p.between, val);
    assert val[1..] == SlotText(p.val) + tail;
  }

  lemma {:induction false} MembersRead(ms: seq<Pair>, rest: Bytes, depth: nat)
    requires ms != [] && forall m | m in ms :: GoodPair(m, depth)
    ensures var s := MembersText(ms) + ([CLOSE_BRACE] + rest);
            && Members(s, depth) == Some((MemberTrees(ms), rest))
            && SkipSpace(s) != [] && SkipSpace(s)[0] != CLOSE_BRACE
    decreases ms, 1
  {
    hide ReadValue, SkipSpace, Tree, Text, SlotText, PairText, Member, CharsValue;
    var p := ms[0];
    var tail := if |ms| == 1 then [CLOSE_BRACE] + rest
                else [COMMA] + (MembersText(ms[1..]) + ([CLOSE_BRACE] + rest));
    var s := MembersText(ms) + ([CLOSE_BRACE] + rest);
    assert s == PairText(p) + tail;
    var x := p.val;
    assert p in ms && GoodPair(p, depth);
    SlotParts(x, depth);
    AfterValue(x.d, x.after, tail);
    DocRead(x.d, x.after + tail, depth);
    SlotRead(x, tail, depth);
    PairRead(p, tail, depth);
    if |ms| > 1 {
      MembersRead(ms[1..], rest, depth);
      assert tail[1..] == MembersText(ms[1..]) + ([CLOSE_BRACE] + rest);
    } else {
      assert tail[1..] == rest && ms[1..] == [] && MemberTrees(ms) == [(CharsValue(p.key), Tree(x.d))] + [] == [(CharsValue(p.key), Tree(x.d))];
    }
  }

  // ---- and only such texts ----

  /** `d` is the derivation of what was read from `text`, behind the blanks `gap`. */
  ghost predicate Derives(text: Bytes, depth: nat, j: Json, rest: Bytes, gap: Bytes, d: Doc) {
    Blanks(gap) && gap + (Text(d) + rest) == text && Tree(d) == j && Good(d, depth) && Ends(d, rest)
  }

  lemma {:induction false} DocOf(text: Bytes, depth: nat) returns (gap: Bytes, d: Doc)
    requires ReadValue(text, depth).Some?
    ensures Derives(text, depth, ReadValue(text, depth).value.0, ReadValue(text, depth).value.1, gap, d)
    decreases |text|, 0
  {
    hide Brackets, Braces, StringBody, NumberSpan, Text, Tree, Good;
    var s := SkipSpace(text);
    SkipTwice(text);
    gap := GapOf(text);
    if s[0] == OPEN_BRACE {
      d := BracesDoc(s[1..], depth);
      BracesDerive(text, depth, gap, d);
    } else if s[0] == OPEN_BRACKET {
      d := BracketsDoc(s[1..], depth);
      BracketsDerive(text, depth, gap, d);
    } else {
      d := ScalarOf(s, depth);
    }
    assert [s[0]] + s[1..] == s;
  }

  lemma BracesDerive(text: Bytes, depth: nat, gap: Bytes, d: Doc)
    requires var s := SkipSpace(text); s != [] && s[0] == OPEN_BRACE && Blanks(gap) && gap + s == text
    requires depth < 64 && Braces(SkipSpace(text)[1..], depth + 1).Some?
    requires Enclosed(SkipSpace(text)[1..], depth, Braces(SkipSpace(text)[1..], depth + 1).value, OPEN_BRACE, d)
    ensures Derives(text, depth, ReadValue(text, depth).value.0, ReadValue(text, depth).value.1, gap, d)
  {
    hide Braces, Text, Tree, Good;
    var s := SkipSpace(text);
    assert [s[0]] + s[1..] == s;
  }

  lemma BracketsDerive(text: Bytes, depth: nat, gap: Bytes, d: Doc)
    requires var s := SkipSpace(text); s != [] && s[0] == OPEN_BRACKET && Blanks(gap) && gap + s == text
    requires depth < 64 && Brackets(SkipSpace(text)[1..], depth + 1).Some?
    requires Enclosed(SkipSpace(text)[1..], depth, Brackets(SkipSpace(text)[1..], depth + 1).value, OPEN_BRACKET, d)
    ensures Derives(text, depth, ReadValue(text, depth).value.0, ReadValue(text, depth).value.1, gap, d)
  {
    hide Brackets, Text, Tree, Good;
    var s := SkipSpace(text);
    assert [s[0]] + s[1..] == s;
  }

  lemma ScalarOf(s: Bytes, depth: nat) returns (d: Doc)
    requires SkipSpace(s) == s && ReadValue(s, depth).Some? && s[0] != OPEN_BRACE && s[0] != OPEN_BRACKET
    ensures var (j, rest) := ReadValue(s, depth).value;
            Text(d) + rest == s && Tree(d) == j && Good(d, depth) && Ends(d, rest)
  {
    hide StringBody, NumberSpan, CharsText, CharsValue, NumText, GoodNum, NumEnds;
    assert Ascii("true") == TRUE_TEXT && Ascii("false") == FALSE_TEXT && Ascii("null") == NULL_TEXT;
    if s[0] == QUOTE {
      var cs := CharsOf(s[1..]);
      d := StrD(cs);
      var rest := StringBody(s[1..]).value.1;
      assert Text(d) + rest == [s[0]] + (CharsText(cs) + ([QUOTE] + rest));
    } else if s[0] == 116 {
      d := BoolD(true);
    } else if s[0] == 102 {
      d := BoolD(false);
    } else if s[0] == 110 {
      d := NullD;
    } else {
      var n := NumOf(s);
      d := NumD(n);
    }
  }

  /** `d` is the derivation of what was read behind an opening bracket or brace. */
  ghost predicate Enclosed(text: Bytes, depth: nat, read: (Json, Bytes), open: byte, d: Doc) {
    Text(d) + read.1 == [open] + text && Tree(d) == read.0 && Good(d, depth) && !d.NumD?
  }

  lemma {:induction false} BracketsDoc(text: Bytes, depth: nat) returns (d: Doc)
    requires depth < 64 && Brackets(text, depth + 1).Some?
    ensures Enclosed(text, depth, Brackets(text, depth + 1).value, OPEN_BRACKET, d)
    decreases |text|, 2
  {
    hide Items, ItemsText, ItemTrees;
    var s := SkipSpace(text);
    var rest := Brackets(text, depth + 1).value.1;
    if s != [] && s[0] == CLOSE_BRACKET {
      var gap := GapOf(text);
      d := EmptyArrayD(gap);
      assert s == [CLOSE_BRACKET] + rest;
      assert Text(d) + rest == [OPEN_BRACKET] + (gap + ([CLOSE_BRACKET] + rest));
    } else {
      BracketsOf2(text, depth + 1);
      var items := ItemsOf(text, depth + 1);
      d := ArrayD(items);
      assert Text(d) + rest == [OPEN_BRACKET] + (ItemsText(items) + ([CLOSE_BRACKET] + rest));
    }
  }

  lemma BracketsOf2(text: Bytes, depth: nat)
    requires Brackets(text, depth).Some? && var s := SkipSpace(text); s == [] || s[0] != CLOSE_BRACKET
    ensures Items(text, depth).Some?
    ensures Brackets(text, depth).value == (Array(Items(text, depth).value.0), Items(text, depth).value.1)
  {
    SkipTwice(text);
    assert ReadValue(SkipSpace(text), depth) == ReadValue(text, depth);
  }

  lemma BracesOf2(text: Bytes, depth: nat)
    requires Braces(text, depth).Some? && var s := SkipSpace(text); s == [] || s[0] != CLOSE_BRACE
    ensures Members(text, depth).Some?
    ensures Braces(text, depth).value == (Object(Members(text, depth).value.0), Members(text, depth).value.1)
  {
    SkipTwice(text);
    assert Member(SkipSpace(text), depth) == Member(text, depth);
  }

  lemma {:induction false} BracesDoc(text: Bytes, depth: nat) returns (d: Doc)
    requires depth < 64 && Braces(text, depth + 1).Some?
    ensures Enclosed(text, depth, Braces(text, depth + 1).value, OPEN_BRACE, d)
    decreases |text|, 2
  {
    hide Members, MembersText, MemberTrees;
    var s := SkipSpace(text);
    var rest := Braces(text, depth + 1).value.1;
    if s != [] && s[0] == CLOSE_BRACE {
      var gap := GapOf(text);
      d := EmptyObjectD(gap);
      assert s == [CLOSE_BRACE] + rest;
      assert Text(d) + rest == [OPEN_BRACE] + (gap + ([CLOSE_BRACE] + rest));
    } else {
      BracesOf2(text, depth + 1);
      var ms := MembersOf(text, depth + 1);
      d := ObjectD(ms);
      assert Text(d) + rest == [OPEN_BRACE] + (MembersText(ms) + ([CLOSE_BRACE] + rest));
    }
  }

  lemma OneItem(x: Slot)
    ensures ItemsText([x]) == SlotText(x) && ItemTrees([x]) == [Tree(x.d)]
  {
    hide SlotText, Tree;
    assert [x][1..] == [];
    assert SlotText(x) + [] == SlotText(x) && [Tree(x.d)] + [] == [Tree(x.d)];
  }

  lemma MoreItems(x: Slot, more: seq<Slot>, rest: Bytes)
    requires more != []
    ensures ItemsText([x] + more) + rest == SlotText(x) + ([COMMA] + (ItemsText(more) + rest))
    ensures ItemTrees([x] + more) == [Tree(x.d)] + ItemTrees(more)
  {
    hide SlotText, Tree;
    assert ([x] + more)[1..] == more;
  }

  lemma OneMember(p: Pair)
    ensures MembersText([p]) == PairText(p) && MemberTrees([p]) == [(CharsValue(p.key), Tree(p.val.d))]
  {
    hide PairText, Tree, CharsValue;
    assert [p][1..] == [];
    assert PairText(p) + [] == PairText(p);
    assert [(CharsValue(p.key), Tree(p.val.d))] + [] == [(CharsValue(p.key), Tree(p.val.d))];
  }

  lemma MoreMembers(p: Pair, more: seq<Pair>, rest: Bytes)
    requires more != []
    ensures MembersText([p] + more) + rest == PairText(p) + ([COMMA] + (MembersText(more) + rest))
    ensures MemberTrees([p] + more) == [(CharsValue(p.key), Tree(p.val.d))] + MemberTrees(more)
  {
    hide PairText, Tree, CharsValue;
    assert ([p] + more)[1..] == more;
  }

  lemma {:induction false} ItemsOf(s: Bytes, depth: nat) returns (items: seq<Slot>)
    requires Items(s, depth).Some?
    ensures var (js, rest) := Items(s, depth).value;
            && items != [] && ItemsText(items) + ([CLOSE_BRACKET] + rest) == s && ItemTrees(items) == js
            && forall x | x in items :: GoodSlot(x, depth)
    decreases |s|, 1
  {
    hide ReadValue, SkipSpace, Text, Tree, Good;
    var (js, rest) := Items(s, depth).value;
    var (v, after) := ReadValue(s, depth).value;
    var before, d := DocOf(s, depth);
    var gap := GapOf(after);
    var x := Slot(before, d, gap);
    var t := SkipSpace(after);
    assert s == SlotText(x) + t;
    if t[0] == CLOSE_BRACKET {
      items := [x];
      assert t == [CLOSE_BRACKET] + rest;
      OneItem(x);
    } else {
      var more := ItemsOf(t[1..], depth);
      items := [x] + more;
      assert t == [COMMA] + t[1..];
      MoreItems(x, more, [CLOSE_BRACKET] + rest);
    }
  }

  lemma {:induction false} PairOf(s: Bytes, depth: nat) returns (before: Bytes, key: Chars, between: Bytes, gap: Bytes, d: Doc)
    requires Member(s, depth).Some?
    ensures var ((k, v), rest) := Member(s, depth).value;
            && Blanks(before) && GoodChars(key) && Blanks(between) && CharsValue(key) == k
            && Blanks(gap) && Tree(d) == v && Good(d, depth)
            && s == before + (Quote(key) + (between + ([COLON] + (gap + (Text(d) + rest)))))
    decreases |s|, 0
  {
    hide ReadValue, SkipSpace, Text, Tree, Good, StringBody, CharsText, CharsValue;
    before := GapOf(s);
    var t := SkipSpace(s);
    key := CharsOf(t[1..]);
    var after := StringBody(t[1..]).value.1;
    between := GapOf(after);
    var u := SkipSpace(after);
    gap, d := DocOf(u[1..], depth);
    assert u == [COLON] + u[1..];
    assert t == [QUOTE] + (CharsText(key) + ([QUOTE] + after)) == Quote(key) + after;
  }

  lemma {:induction false} MembersOf(s: Bytes, depth: nat) returns (ms: seq<Pair>)
    requires Members(s, depth).Some?
    ensures var (vs, rest) := Members(s, depth).value;
            && ms != [] && MembersText(ms) + ([CLOSE_BRACE] + rest) == s && MemberTrees(ms) == vs
            && forall m | m in ms :: GoodPair(m, depth)
    decreases |s|, 1
  {
    hide ReadValue, SkipSpace, Text, Tree, Good, Member, CharsText, CharsValue, GoodChars;
    var (vs, rest) := Members(s, depth).value;
    var (m, after) := Member(s, depth).value;
    var before, key, between, gap, d := PairOf(s, depth);
    var close := GapOf(after);
    var p := Pair(before, key, between, Slot(gap, d, close));
    var t := SkipSpace(after);
    assert s == PairText(p) + t;
    assert GoodPair(p, depth);
    assert m == (CharsValue(key), Tree(d));
    if t[0] == CLOSE_BRACE {
      ms := [p];
      assert t == [CLOSE_BRACE] + rest;
      OneMember(p);
    } else {
      var more := MembersOf(t[1..], depth);
      ms := [p] + more;
      assert t == [COMMA] + t[1..];
      MoreMembers(p, more, [CLOSE_BRACE] + rest);
    }
  }

  /** The parser returns a tree and what follows it exactly when the text is blanks, then
      a derivation of that tree with at most 64 values nested, then that rest. */
  lemma ReadIff(text: Bytes, depth: nat, j: Json, rest: Bytes)
    ensures ReadValue(text, depth) == Some((j, rest)) <==> exists gap, d :: Derives(text, depth, j, rest, gap, d)
  {
    hide ReadValue, Text, Tree, Good;
    if ReadValue(text, depth) == Some((j, rest)) {
      var gap, d := DocOf(text, depth);
      assert Derives(text, depth, j, rest, gap, d);
    }
    if exists gap, d :: Derives(text, depth, j, rest, gap, d) {
      var gap, d :| Derives(text, depth, j, rest, gap, d);
      DocRead(d, rest, depth);
      ReadSkips(gap, Text(d) + rest, depth);
    }
  }
}
