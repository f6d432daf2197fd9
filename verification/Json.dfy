/** JSON trees: how they are written and the recursive parser that reads them
    (src/report/export.c, src/report/jimport.c; string escapes as in section 7 of
    RFC 8259). */
module Json {
  import opened Core
  import opened Lex
  import opened JsonText

  const MAX_DEPTH := 64

  const COMMA: byte := 44
  const COLON: byte := 58
  const OPEN_BRACKET: byte := 91
  const CLOSE_BRACKET: byte := 93
  const OPEN_BRACE: byte := 123
  const CLOSE_BRACE: byte := 125

  /** Numbers are kept as text. */
  datatype Json =
    | Null | Bool(b: bool) | Number(text: Bytes) | String(s: Bytes)
    | Array(items: seq<Json>) | Object(members: seq<(Bytes, Json)>)

  // ---- strings ----

  function EscapeByte(c: byte): Bytes {
    if c == QUOTE then [BACKSLASH, QUOTE]
    else if c == BACKSLASH then [BACKSLASH, BACKSLASH]
    else if c == 10 then [BACKSLASH, 110]
    else if c == 13 then [BACKSLASH, 114]
    else if c == 9 then [BACKSLASH, 116]
    else if c < 32 then [BACKSLASH, 117, 48, 48, HexDigit(c / 16), HexDigit(c % 16)]
    else [c]
  }

  function Escape(s: Bytes): Bytes { if s == [] then [] else EscapeByte(s[0]) + Escape(s[1..]) }

  function ShowString(s: Bytes): Bytes { [QUOTE] + Escape(s) + [QUOTE] }

  function SimpleEscape(c: byte): Option<byte> {
    if c == 110 then Some(10) else if c == 116 then Some(9) else if c == 114 then Some(13)
    else if c == 98 then Some(8) else if c == 102 then Some(12)
    else if c == 47 || c == BACKSLASH || c == QUOTE then Some(c)
    else None
  }

  /** Four hexadecimal digits, at most 0x7F. */
  function UnicodeEscape(s: Bytes): Option<byte> {
    if |s| < 4 || HexValue(s[0]) < 0 || HexValue(s[1]) < 0 || HexValue(s[2]) < 0 || HexValue(s[3]) < 0 then None
    else
      var v := ((HexValue(s[0]) * 16 + HexValue(s[1])) * 16 + HexValue(s[2])) * 16 + HexValue(s[3]);
      if v > 0x7F then None else Some(v)
  }

  /** One character of a string: its value and its width, or failure. */
  function Character(s: Bytes): (r: Option<(byte, nat)>)
    requires s != []
    ensures r.Some? ==> 1 <= r.value.1 <= |s|
  {
    if s[0] != BACKSLASH then Some((s[0], 1))
    else if |s| < 2 then None
    else if s[1] == 117 then
      match UnicodeEscape(s[2..]) case None => None case Some(c) => Some((c, 6))
    else
      match SimpleEscape(s[1]) case None => None case Some(c) => Some((c, 2))
  }

  /** What follows the opening quote: the decoded bytes, and what follows the
      closing quote. */
  function StringBody(s: Bytes): (r: Option<(Bytes, Bytes)>)
    ensures r.Some? ==> |r.value.1| < |s|
    decreases |s|
  {
    if s == [] then None
    else if s[0] == QUOTE then Some(([], s[1..]))
    else match Character(s)
      case None => None
      case Some((c, n)) =>
        match StringBody(s[n..])
        case None => None
        case Some((more, rest)) => Some(([c] + more, rest))
  }

  lemma CharacterBack(c: byte, rest: Bytes)
    ensures var e := EscapeByte(c) + rest;
            e[0] != QUOTE && Character(e) == Some((c, |EscapeByte(c)|)) && e[|EscapeByte(c)|..] == rest
  {
    var e := EscapeByte(c) + rest;
    if c < 32 && c != 10 && c != 13 && c != 9 {
      assert e[2..][..4] == [48, 48, HexDigit(c / 16), HexDigit(c % 16)];
      assert HexValue(48) == 0 && HexValue(HexDigit(c / 16)) == c / 16 && HexValue(HexDigit(c % 16)) == c % 16;
      assert e[2..][0] == 48 && e[2..][1] == 48 && e[2..][2] == HexDigit(c / 16) && e[2..][3] == HexDigit(c % 16);
    }
  }

  /** Every byte string, escaped and quoted, is read back, consuming exactly the
      quoted span. */
  lemma {:induction false} StringBack(s: Bytes, rest: Bytes)
    ensures StringBody(Escape(s) + ([QUOTE] + rest)) == Some((s, rest))
  {
    hide EscapeByte, Character;
    var tail := [QUOTE] + rest;
    if s == [] {
      assert Escape(s) + tail == tail && tail[1..] == rest;
    } else {
      var more := Escape(s[1..]) + tail;
      Assoc(EscapeByte(s[0]), Escape(s[1..]), tail);
      CharacterBack(s[0], more);
      StringBack(s[1..], rest);
      assert s == [s[0]] + s[1..];
    }
  }

  lemma {:induction false} EscapePlain(s: Bytes)
    requires JsonText.Plain(s)
    ensures Escape(s) == s
  {
    if s != [] {
      EscapePlain(s[1..]);
      assert s == [s[0]] + s[1..];
    }
  }

  // ---- numbers ----

  predicate IsExp(c: byte) { c == 101 || c == 69 }

  /** Where an optional fraction at `j` ends. */
  function FractionEnd(s: Bytes, j: nat): (k: nat)
    requires j <= |s|
    ensures j <= k <= |s|
  {
    if j < |s| && s[j] == DOT then j + 1 + DigitRun(s[j + 1..]) else j
  }

  /** Where an optional exponent at `k` ends. */
  function ExponentEnd(s: Bytes, k: nat): (e: nat)
    requires k <= |s|
    ensures k <= e <= |s|
  {
    if k < |s| && IsExp(s[k]) then
      var m := if k + 1 < |s| && (s[k + 1] == 43 || s[k + 1] == MINUS) then k + 2 else k + 1;
      m + DigitRun(s[m..])
    else k
  }

  /** Length of the number that starts the text:
      [-]digits[.digits][e[+-]digits] */
  function NumberSpan(s: Bytes): (r: Option<nat>)
    ensures r.Some? ==> 0 < r.value <= |s|
  {
    var i := if s != [] && s[0] == MINUS then 1 else 0;
    if i >= |s| || !IsDigit(s[i]) then None
    else Some(ExponentEnd(s, FractionEnd(s, i + DigitRun(s[i..]))))
  }

  /** Texts the exporter prints for integers. */
  predicate PlainInteger(t: Bytes) {
    var ds := if t != [] && t[0] == MINUS then t[1..] else t;
    ds != [] && AllDigits(ds)
  }

  /** Texts that the parser takes whole as one number. */
  predicate NumberText(t: Bytes) { NumberSpan(t) == Some(|t|) }

  predicate NumberEnds(rest: Bytes) {
    rest == [] || !(IsDigit(rest[0]) || rest[0] == DOT || IsExp(rest[0]) || rest[0] == 43 || rest[0] == MINUS)
  }

  lemma {:induction false} RunExtends(a: Bytes, rest: Bytes)
    requires DigitsEnd(rest)
    ensures DigitRun(a + rest) == DigitRun(a)
  {
    if a == [] {
      assert a + rest == rest;
    } else {
      assert (a + rest)[1..] == a[1..] + rest;
      RunExtends(a[1..], rest);
    }
  }

  lemma FractionExtends(t: Bytes, rest: Bytes, j: nat)
    requires j <= |t| && NumberEnds(rest)
    ensures FractionEnd(t + rest, j) == FractionEnd(t, j)
  {
    var s := t + rest;
    if j < |t| {
      assert s[j] == t[j] && s[j + 1..] == t[j + 1..] + rest;
      RunExtends(t[j + 1..], rest);
    } else {
      assert s[j..] == rest && (j < |s| ==> s[j] == rest[0]);
    }
  }

  lemma ExponentExtends(t: Bytes, rest: Bytes, k: nat)
    requires k <= |t| && NumberEnds(rest)
    ensures ExponentEnd(t + rest, k) == ExponentEnd(t, k)
  {
    hide DigitRun;
    var s := t + rest;
    if k < |t| {
      assert s[k] == t[k];
      assert k + 1 < |s| ==> s[k + 1] == if k + 1 < |t| then t[k + 1] else rest[k + 1 - |t|];
      var m := if k + 1 < |t| && (t[k + 1] == 43 || t[k + 1] == MINUS) then k + 2 else k + 1;
      assert s[m..] == t[m..] + rest;
      RunExtends(t[m..], rest);
    } else {
      assert k < |s| ==> s[k] == rest[0];
    }
  }

  lemma NumberBack(t: Bytes, rest: Bytes)
    requires NumberText(t) && NumberEnds(rest)
    ensures NumberSpan(t + rest) == Some(|t|) && !IsSpace((t + rest)[0])
    ensures (t + rest)[0] == MINUS || IsDigit((t + rest)[0])
  {
    hide DigitRun, FractionEnd, ExponentEnd;
    var s := t + rest;
    var i := if t != [] && t[0] == MINUS then 1 else 0;
    assert s[0] == t[0] && s[i] == t[i] && s[i..] == t[i..] + rest;
    RunExtends(t[i..], rest);
    var j := i + DigitRun(t[i..]);
    FractionExtends(t, rest, j);
    ExponentExtends(t, rest, FractionEnd(t, j));
  }

  lemma IntegerIsNumber(t: Bytes)
    requires PlainInteger(t)
    ensures NumberText(t)
  {
    var i := if t[0] == MINUS then 1 else 0;
    var ds := t[i..];
    assert ds + [] == ds;
    RunConcat(ds, []);
    assert IsDigit(ds[0]) && t[i] == ds[0];
  }

  lemma DecIsPlain(n: nat, i: int)
    ensures NumberText(Dec(n)) && NumberText(DecI(i))
  {
    hide Dec;
    DecValue(n);
    DecValue(if i < 0 then -i else i);
    assert i < 0 ==> DecI(i)[1..] == Dec(-i);
    assert IsDigit(Dec(n)[0]) && IsDigit(Dec(if i < 0 then -i else i)[0]);
    IntegerIsNumber(Dec(n));
    IntegerIsNumber(DecI(i));
  }

  // ---- values ----

  const TRUE_TEXT: Bytes := [116, 114, 117, 101]
  const FALSE_TEXT: Bytes := [102, 97, 108, 115, 101]
  const NULL_TEXT: Bytes := [110, 117, 108, 108]

  function Show(j: Json): Bytes {
    match j
    case Null => NULL_TEXT
    case Bool(b) => if b then TRUE_TEXT else FALSE_TEXT
    case Number(t) => t
    case String(s) => ShowString(s)
    case Array(items) => [OPEN_BRACKET] + ShowItems(items) + [CLOSE_BRACKET]
    case Object(ms) => [OPEN_BRACE] + ShowMembers(ms) + [CLOSE_BRACE]
  }

  function ShowItems(items: seq<Json>): Bytes {
    if items == [] then []
    else if |items| == 1 then Show(items[0])
    else Show(items[0]) + ([COMMA] + ShowItems(items[1..]))
  }

  function ShowMember(m: (Bytes, Json)): Bytes { ShowString(m.0) + ([COLON] + Show(m.1)) }

  function ShowMembers(ms: seq<(Bytes, Json)>): Bytes {
    if ms == [] then []
    else if |ms| == 1 then ShowMember(ms[0])
    else ShowMember(ms[0]) + ([COMMA] + ShowMembers(ms[1..]))
  }

  type Read<T> = Option<(T, Bytes)>

  /** `dtl_json_parse_value` at nesting `depth`. */
  function ReadValue(text: Bytes, depth: nat): (r: Read<Json>)
    ensures r.Some? ==> |r.value.1| < |text|
    decreases |text|, 0
  {
    var s := SkipSpace(text);
    if depth + 1 > MAX_DEPTH || s == [] then None
    else if s[0] == OPEN_BRACE then Braces(s[1..], depth + 1)
    else if s[0] == OPEN_BRACKET then Brackets(s[1..], depth + 1)
    else if s[0] == QUOTE then
      match StringBody(s[1..]) case None => None case Some((b, rest)) => Some((String(b), rest))
    else if s[0] == 116 then (if TRUE_TEXT <= s then Some((Bool(true), s[4..])) else None)
    else if s[0] == 102 then (if FALSE_TEXT <= s then Some((Bool(false), s[5..])) else None)
    else if s[0] == 110 then (if NULL_TEXT <= s then Some((Null, s[4..])) else None)
    else match NumberSpan(s) case None => None case Some(n) => Some((Number(s[..n]), s[n..]))
  }

  /** After an opening bracket. */
  function Brackets(text: Bytes, depth: nat): (r: Read<Json>)
    ensures r.Some? ==> |r.value.1| < |text|
    decreases |text|, 2
  {
    var s := SkipSpace(text);
    if s != [] && s[0] == CLOSE_BRACKET then Some((Array([]), s[1..]))
    else match Items(s, depth) case None => None case Some((items, rest)) => Some((Array(items), rest))
  }

  function Items(s: Bytes, depth: nat): (r: Read<seq<Json>>)
    ensures r.Some? ==> |r.value.1| < |s|
    decreases |s|, 1
  {
    match ReadValue(s, depth)
    case None => None
    case Some((v, after)) =>
      var t := SkipSpace(after);
      if t == [] then None
      else if t[0] == CLOSE_BRACKET then Some(([v], t[1..]))
      else if t[0] != COMMA then None
      else match Items(t[1..], depth) case None => None case Some((more, rest)) => Some(([v] + more, rest))
  }

  /** After an opening brace. */
  function Braces(text: Bytes, depth: nat): (r: Read<Json>)
    ensures r.Some? ==> |r.value.1| < |text|
    decreases |text|, 2
  {
    var s := SkipSpace(text);
    if s != [] && s[0] == CLOSE_BRACE then Some((Object([]), s[1..]))
    else match Members(s, depth) case None => None case Some((ms, rest)) => Some((Object(ms), rest))
  }

  /** A key, a colon and a value. */
  function Member(text: Bytes, depth: nat): (r: Read<(Bytes, Json)>)
    ensures r.Some? ==> |r.value.1| < |text|
    decreases |text|, 0
  {
    var s := SkipSpace(text);
    if s == [] || s[0] != QUOTE then None
    else match StringBody(s[1..])
      case None => None
      case Some((key, after)) =>
        var t := SkipSpace(after);
        if t == [] || t[0] != COLON then None
        else match ReadValue(t[1..], depth) case None => None case Some((v, rest)) => Some(((key, v), rest))
  }

  function Members(s: Bytes, depth: nat): (r: Read<seq<(Bytes, Json)>>)
    ensures r.Some? ==> |r.value.1| < |s|
    decreases |s|, 1
  {
    match Member(s, depth)
    case None => None
    case Some((m, after)) =>
      var t := SkipSpace(after);
      if t == [] then None
      else if t[0] == CLOSE_BRACE then Some(([m], t[1..]))
      else if t[0] != COMMA then None
      else match Members(t[1..], depth) case None => None case Some((more, rest)) => Some(([m] + more, rest))
  }

  // ---- reading what was written ----

  /** Number texts are numbers and the nesting stays within the limit. */
  predicate Writable(j: Json, depth: nat) {
    depth + 1 <= MAX_DEPTH &&
    match j
    case Number(t) => NumberText(t)
    case Array(items) => forall x | x in items :: Writable(x, depth + 1)
    case Object(ms) => forall m | m in ms :: Writable(m.1, depth + 1)
    case _ => true
  }

  lemma NoSpace(s: Bytes)
    requires s == [] || !IsSpace(s[0])
    ensures SkipSpace(s) == s
  {
  }

  lemma ScalarBack(j: Json, rest: Bytes, depth: nat)
    requires Writable(j, depth) && !j.Array? && !j.Object? && (j.Number? ==> NumberEnds(rest))
    ensures Show(j) + rest != [] && !IsSpace((Show(j) + rest)[0]) && (Show(j) + rest)[0] != CLOSE_BRACKET
    ensures ReadValue(Show(j) + rest, depth) == Some((j, rest))
  {
    hide StringBody, NumberSpan, Escape;
    var s := Show(j) + rest;
    match j
    case Number(t) =>
      NumberBack(t, rest);
      assert s[..|t|] == t && s[|t|..] == rest;
    case String(b) =>
      assert s[1..] == Escape(b) + ([QUOTE] + rest);
      StringBack(b, rest);
    case Bool(b) =>
      assert s[4..] == (if b then rest else [101] + rest) && (!b ==> s[5..] == rest);
    case Null =>
      assert s[4..] == rest;
  }

  lemma {:induction false} ValueBack(j: Json, rest: Bytes, depth: nat)
    requires Writable(j, depth) && (j.Number? ==> NumberEnds(rest))
    ensures Show(j) + rest != [] && !IsSpace((Show(j) + rest)[0]) && (Show(j) + rest)[0] != CLOSE_BRACKET
    ensures ReadValue(Show(j) + rest, depth) == Some((j, rest))
    decreases j, 0
  {
    hide Brackets, Braces, ShowItems, ShowMembers, StringBody, NumberSpan;
    var s := Show(j) + rest;
    match j
    case Array(items) =>
      var inner := ShowItems(items) + ([CLOSE_BRACKET] + rest);
      assert s == [OPEN_BRACKET] + inner && s[1..] == inner;
      BracketsBack(items, rest, depth + 1);
    case Object(ms) =>
      var inner := ShowMembers(ms) + ([CLOSE_BRACE] + rest);
      assert s == [OPEN_BRACE] + inner && s[1..] == inner;
      BracesBack(ms, rest, depth + 1);
    case _ =>
      ScalarBack(j, rest, depth);
  }

  lemma {:induction false} BracketsBack(items: seq<Json>, rest: Bytes, depth: nat)
    requires forall x | x in items :: Writable(x, depth)
    ensures Brackets(ShowItems(items) + ([CLOSE_BRACKET] + rest), depth) == Some((Array(items), rest))
    decreases items, 2
  {
    var s := ShowItems(items) + ([CLOSE_BRACKET] + rest);
    if items == [] {
      assert s == [CLOSE_BRACKET] + rest && s[1..] == rest;
    } else {
      ItemsBack(items, rest, depth);
      NoSpace(s);
    }
  }

  lemma {:induction false} ItemsBack(items: seq<Json>, rest: Bytes, depth: nat)
    requires items != [] && forall x | x in items :: Writable(x, depth)
    ensures var s := ShowItems(items) + ([CLOSE_BRACKET] + rest);
            && s != [] && !IsSpace(s[0]) && s[0] != CLOSE_BRACKET
            && Items(s, depth) == Some((items, rest))
    decreases items, 1
  {
    hide Show, ReadValue;
    var tail := if |items| == 1 then [CLOSE_BRACKET] + rest
                else [COMMA] + (ShowItems(items[1..]) + ([CLOSE_BRACKET] + rest));
    assert ShowItems(items) + ([CLOSE_BRACKET] + rest) == Show(items[0]) + tail;
    ValueBack(items[0], tail, depth);
    NoSpace(tail);
    if |items| > 1 {
      ItemsBack(items[1..], rest, depth);
      assert tail[1..] == ShowItems(items[1..]) + ([CLOSE_BRACKET] + rest);
      assert items == [items[0]] + items[1..];
    } else {
      assert tail[1..] == rest && items == [items[0]];
    }
  }

  lemma {:induction false} BracesBack(ms: seq<(Bytes, Json)>, rest: Bytes, depth: nat)
    requires forall m | m in ms :: Writable(m.1, depth)
    ensures Braces(ShowMembers(ms) + ([CLOSE_BRACE] + rest), depth) == Some((Object(ms), rest))
    decreases ms, 2
  {
    var s := ShowMembers(ms) + ([CLOSE_BRACE] + rest);
    if ms == [] {
      assert s == [CLOSE_BRACE] + rest && s[1..] == rest;
    } else {
      MembersBack(ms, rest, depth);
      NoSpace(s);
    }
  }

  lemma {:induction false} MemberBack(m: (Bytes, Json), tail: Bytes, depth: nat)
    requires Writable(m.1, depth) && NumberEnds(tail)
    ensures var s := ShowMember(m) + tail; s != [] && s[0] == QUOTE && Member(s, depth) == Some((m, tail))
    decreases m, 0
  {
    hide Show, ReadValue, Escape, StringBody;
    var s := ShowMember(m) + tail;
    var after := [COLON] + (Show(m.1) + tail);
    assert s == [QUOTE] + (Escape(m.0) + ([QUOTE] + after));
    NoSpace(s);
    assert s[1..] == Escape(m.0) + ([QUOTE] + after);
    StringBack(m.0, after);
    NoSpace(after);
    assert after[1..] == Show(m.1) + tail;
    ValueBack(m.1, tail, depth);
  }

  lemma {:induction false} MembersBack(ms: seq<(Bytes, Json)>, rest: Bytes, depth: nat)
    requires ms != [] && forall m | m in ms :: Writable(m.1, depth)
    ensures var s := ShowMembers(ms) + ([CLOSE_BRACE] + rest);
            && s != [] && s[0] == QUOTE
            && Members(s, depth) == Some((ms, rest))
    decreases ms, 1
  {
    hide ShowMember, Member;
    var tail := if |ms| == 1 then [CLOSE_BRACE] + rest
                else [COMMA] + (ShowMembers(ms[1..]) + ([CLOSE_BRACE] + rest));
    assert ShowMembers(ms) + ([CLOSE_BRACE] + rest) == ShowMember(ms[0]) + tail;
    MemberBack(ms[0], tail, depth);
    NoSpace(tail);
    if |ms| > 1 {
      MembersBack(ms[1..], rest, depth);
      assert tail[1..] == ShowMembers(ms[1..]) + ([CLOSE_BRACE] + rest);
      assert ms == [ms[0]] + ms[1..];
    } else {
      assert tail[1..] == rest && ms == [ms[0]];
    }
  }
}
