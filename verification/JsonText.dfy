/** Text forms of numbers and bytes: the decimal and hexadecimal printing of
    src/report/export.c and the C library readers behind src/report/jimport.c. */
module JsonText {
  import opened Core
  import opened Lex

  const ULONG_MAX := 0xFFFF_FFFF_FFFF_FFFF
  const LONG_MAX := 0x7FFF_FFFF_FFFF_FFFF

  // ---- decimal ----

  function Dec(n: nat): Bytes { if n < 10 then [48 + n] else Dec(n / 10) + [48 + n % 10] }

  function DecI(i: int): Bytes { if i < 0 then [MINUS] + Dec(-i) else Dec(i) }

  predicate AllDigits(s: Bytes) { forall i | 0 <= i < |s| :: IsDigit(s[i]) }

  lemma {:induction false} ValueSnoc(v: nat, ds: Bytes, d: byte)
    requires AllDigits(ds) && IsDigit(d)
    ensures AllDigits(ds + [d]) && Value(v, ds + [d]) == Value(v, ds) * 10 + (d as int - 48)
    decreases |ds|
  {
    if ds == [] {
      assert ds + [d] == [d] && [d][1..] == [];
    } else {
      assert IsDigit(ds[0]);
      ValueSnoc(v * 10 + (ds[0] as int - 48), ds[1..], d);
      assert (ds + [d])[1..] == ds[1..] + [d];
    }
  }

  /** Printing a number and reading its digits is the identity. */
  lemma {:induction false} DecValue(n: nat)
    ensures Dec(n) != [] && AllDigits(Dec(n)) && Value(0, Dec(n)) == n
  {
    if n < 10 {
      assert Dec(n)[1..] == [];
    } else {
      DecValue(n / 10);
      ValueSnoc(0, Dec(n / 10), 48 + n % 10);
    }
  }

  predicate DigitsEnd(rest: Bytes) { rest == [] || !IsDigit(rest[0]) }

  lemma {:induction false} RunConcat(ds: Bytes, rest: Bytes)
    requires AllDigits(ds) && DigitsEnd(rest)
    ensures DigitRun(ds + rest) == |ds|
  {
    if ds == [] {
      assert ds + rest == rest;
    } else {
      assert (ds + rest)[1..] == ds[1..] + rest;
      RunConcat(ds[1..], rest);
    }
  }

  /** Sign, and the digits that make up the rest of the text. */
  function Signed(text: Bytes): Option<(bool, nat)> {
    var neg := text != [] && text[0] == MINUS;
    var body := if neg then text[1..] else text;
    if body == [] || DigitRun(body) < |body| then None else Some((neg, Value(0, body[..DigitRun(body)])))
  }

  /** `dtl_json_u32` on a number text, with 64-bit `strtoul`: it saturates, and a
      minus sign negates modulo 2^64. */
  function ToU32(text: Bytes): Option<u32> {
    match Signed(text)
    case None => None
    case Some((neg, m)) =>
      var v := if m > ULONG_MAX then ULONG_MAX else if neg && m != 0 then ULONG_MAX + 1 - m else m;
      if v > 0xFFFF_FFFF then None else Some(v)
  }

  /** `dtl_json_i32`: `strtol` saturates, and the cast keeps the low 32 bits. */
  function ToI32(text: Bytes): Option<i32> {
    match Signed(text)
    case None => None
    case Some((neg, m)) =>
      var v: int := if neg then (if m > LONG_MAX + 1 then -LONG_MAX - 1 else -(m as int))
                    else if m > LONG_MAX then LONG_MAX else m;
      Some((v + 0x8000_0000) % 0x1_0000_0000 - 0x8000_0000)
  }

  lemma SignedDec(n: nat)
    ensures Signed(Dec(n)) == Some((false, n)) && Signed([MINUS] + Dec(n)) == Some((true, n))
  {
    DecValue(n);
    RunConcat(Dec(n), []);
    assert Dec(n) + [] == Dec(n) && Dec(n)[..|Dec(n)|] == Dec(n);
    assert Dec(n)[0] != MINUS by { assert IsDigit(Dec(n)[0]); }
    assert ([MINUS] + Dec(n))[1..] == Dec(n);
  }

  /** Integer fields survive the text: no value loses precision. */
  lemma DecimalRoundTrip(u: u32, i: i32)
    ensures ToU32(Dec(u)) == Some(u) && ToI32(DecI(i)) == Some(i)
  {
    hide Signed, Dec;
    SignedDec(u);
    var k: int := i;
    SignedDec(if k < 0 then -k else k);
  }

  // ---- the version field ----

  predicate IsBlank(c: byte) { c == 32 || 9 <= c <= 13 }

  function SkipBlank(s: Bytes): (r: Bytes)
    ensures |r| <= |s|
  {
    if s != [] && IsBlank(s[0]) then SkipBlank(s[1..]) else s
  }

  /** The `%u` conversion of `sscanf`. */
  function ScanU(text: Bytes): Option<(u32, Bytes)> {
    var s := SkipBlank(text);
    var signed := s != [] && (s[0] == MINUS || s[0] == 43);
    var body := if signed then s[1..] else s;
    var n := DigitRun(body);
    if n == 0 then None
    else
      var m := Value(0, body[..n]);
      var v := if m > ULONG_MAX then ULONG_MAX else if signed && s[0] == MINUS && m != 0 then ULONG_MAX + 1 - m else m;
      Some((v % 0x1_0000_0000, body[n..]))
  }

  const DOT: byte := 46

  /** `sscanf(ver, "%u.%u.%u")` converting all three. */
  function ScanVersion(s: Bytes): Option<(u32, u32, u32)> {
    match ScanU(s)
    case None => None
    case Some((a, s1)) =>
      if s1 == [] || s1[0] != DOT then None
      else match ScanU(s1[1..])
        case None => None
        case Some((b, s2)) =>
          if s2 == [] || s2[0] != DOT then None
          else match ScanU(s2[1..])
            case None => None
            case Some((c, _)) => Some((a, b, c))
  }

  function ShowVersion(a: u32, b: u32, c: u32): Bytes { Dec(a) + ([DOT] + (Dec(b) + ([DOT] + Dec(c)))) }

  lemma ScanDec(u: u32, rest: Bytes)
    requires DigitsEnd(rest)
    ensures ScanU(Dec(u) + rest) == Some((u, rest))
  {
    hide Dec, Value, DigitRun;
    DecValue(u);
    RunConcat(Dec(u), rest);
    var s := Dec(u) + rest;
    assert IsDigit(s[0]) by { assert s[0] == Dec(u)[0]; }
    assert SkipBlank(s) == s;
    assert s[..|Dec(u)|] == Dec(u) && s[|Dec(u)|..] == rest;
  }

  lemma VersionRoundTrip(a: u32, b: u32, c: u32)
    ensures ScanVersion(ShowVersion(a, b, c)) == Some((a, b, c))
  {
    hide Dec, ScanU;
    var s2 := [DOT] + Dec(c);
    var s1 := [DOT] + (Dec(b) + s2);
    ScanDec(a, s1);
    ScanDec(b, s2);
    ScanDec(c, []);
    assert s1[1..] == Dec(b) + s2 && s2[1..] == Dec(c) && Dec(c) + [] == Dec(c);
  }

  // ---- hexadecimal ----

  function HexDigit(v: int): byte
    requires 0 <= v < 16
  {
    if v < 10 then 48 + v else 87 + v
  }

  function HexValue(c: byte): int {
    if 48 <= c <= 57 then c - 48 else if 97 <= c <= 102 then c - 87 else if 65 <= c <= 70 then c - 55 else -1
  }

  function Hex(s: Bytes): (r: Bytes)
    ensures |r| == 2 * |s|
  {
    if s == [] then [] else [HexDigit(s[0] / 16), HexDigit(s[0] % 16)] + Hex(s[1..])
  }

  /** `dtl_json_hex` without its capacity check. */
  function Unhex(s: Bytes): Option<Bytes> {
    if s == [] then Some([])
    else if |s| < 2 || HexValue(s[0]) < 0 || HexValue(s[1]) < 0 then None
    else match Unhex(s[2..])
      case None => None
      case Some(more) => Some([HexValue(s[0]) * 16 + HexValue(s[1])] + more)
  }

  lemma {:induction false} HexRoundTrip(s: Bytes)
    ensures Unhex(Hex(s)) == Some(s)
  {
    if s != [] {
      HexRoundTrip(s[1..]);
      assert Hex(s)[2..] == Hex(s[1..]);
      assert HexValue(HexDigit(s[0] / 16)) == s[0] / 16 && HexValue(HexDigit(s[0] % 16)) == s[0] % 16;
      assert s == [s[0]] + s[1..];
    }
  }

  /** Bytes that a JSON string shows as themselves. */
  predicate Plain(s: Bytes) { forall i | 0 <= i < |s| :: 32 <= s[i] && s[i] != 34 && s[i] != 92 }

  lemma {:induction false} HexPlain(s: Bytes)
    ensures Plain(Hex(s))
  {
    if s != [] { HexPlain(s[1..]); }
  }

  lemma {:induction false} DecPlain(n: nat)
    ensures Plain(Dec(n))
  {
    if n >= 10 { DecPlain(n / 10); }
  }

  lemma VersionPlain(a: u32, b: u32, c: u32)
    ensures Plain(ShowVersion(a, b, c))
  {
    hide Dec;
    DecPlain(a);
    DecPlain(b);
    DecPlain(c);
  }

  // ---- hexadecimal digits, in either case ----

  predicate Nibble(c: byte, v: int)
    requires 0 <= v < 16
  {
    c == "0123456789abcdef"[v] as int || c == "0123456789ABCDEF"[v] as int
  }

  lemma NibbleValue(c: byte, v: int)
    requires 0 <= v < 16
    ensures Nibble(c, v) <==> HexValue(c) == v
  {
  }

  /** Two digits for each byte, the high one first. */
  predicate HexText(text: Bytes, s: Bytes) {
    && |text| == 2 * |s|
    && forall i | 0 <= i < |s| :: Nibble(text[2 * i], s[i] / 16) && Nibble(text[2 * i + 1], s[i] % 16)
  }

  lemma HexTextStep(text: Bytes, s: Bytes)
    requires text != [] && s != [] && |text| == 2 * |s|
    ensures HexText(text, s) <==>
              Nibble(text[0], s[0] / 16) && Nibble(text[1], s[0] % 16) && HexText(text[2..], s[1..])
  {
    hide Nibble;
    var t, u := text[2..], s[1..];
    forall i | 0 <= i < |u| ensures t[2 * i] == text[2 * (i + 1)] && t[2 * i + 1] == text[2 * (i + 1) + 1] && u[i] == s[i + 1] {}
    if HexText(t, u) && Nibble(text[0], s[0] / 16) && Nibble(text[1], s[0] % 16) {
      forall i | 0 <= i < |s| ensures Nibble(text[2 * i], s[i] / 16) && Nibble(text[2 * i + 1], s[i] % 16) {
        if i > 0 {
          assert Nibble(t[2 * (i - 1)], u[i - 1] / 16) && Nibble(t[2 * (i - 1) + 1], u[i - 1] % 16);
        }
      }
    }
    if HexText(text, s) {
      forall i | 0 <= i < |u| ensures Nibble(t[2 * i], u[i] / 16) && Nibble(t[2 * i + 1], u[i] % 16) {
        assert Nibble(text[2 * (i + 1)], s[i + 1] / 16);
      }
    }
  }

  /** Hexadecimal text, in any mixture of cases, denotes exactly these bytes. */
  lemma {:induction false} HexIff(text: Bytes, s: Bytes)
    ensures Unhex(text) == Some(s) <==> HexText(text, s)
    decreases |text|
  {
    hide HexText, Nibble, HexValue;
    if |text| >= 2 && s != [] {
      HexIff(text[2..], s[1..]);
      NibbleValue(text[0], s[0] / 16);
      NibbleValue(text[1], s[0] % 16);
      HexValueRange(text[0]);
      HexValueRange(text[1]);
      if |text| == 2 * |s| {
        HexTextStep(text, s);
        assert s == [s[0]] + s[1..];
      } else {
        HexTextLength(text, s);
        HexTextLength(text[2..], s[1..]);
      }
    } else if |text| != 2 * |s| {
      HexTextLength(text, s);
    } else {
      assert text == [] && s == [];
      NoHex();
    }
  }

  lemma HexValueRange(c: byte)
    ensures -1 <= HexValue(c) < 16
  {
  }

  lemma HexTextLength(text: Bytes, s: Bytes)
    requires |text| != 2 * |s|
    ensures !HexText(text, s)
  {
  }

  lemma NoHex()
    ensures HexText([], [])
  {
  }
}
