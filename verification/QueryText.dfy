/** The filter language as text: how each token is spelled, which blanks may stand where,
    and the proof that the lexer of src/query/lex.c reads exactly these spellings. */
module QueryText {
  import opened Core
  import opened Lex
  import opened QueryGrammar
  import opened QueryParser

  // ---- spelling, with the characters written out ----

  predicate BlankChar(c: byte) { c == ' ' as int || c == '\t' as int || c == '\n' as int || c == '\r' as int }

  predicate DigitChar(c: byte) { '0' as int <= c <= '9' as int }

  predicate NameStart(c: byte) { 'a' as int <= c <= 'z' as int || 'A' as int <= c <= 'Z' as int || c == '_' as int }

  predicate NameChar(c: byte) { NameStart(c) || DigitChar(c) }

  predicate Blanks(s: Bytes) { forall i | 0 <= i < |s| :: BlankChar(s[i]) }

  predicate Digits10(s: Bytes) { s != [] && forall i | 0 <= i < |s| :: DigitChar(s[i]) }

  /** The number that digits denote, last digit first. */
  function Decimal(s: Bytes): int {
    if s == [] then 0 else 10 * Decimal(s[..|s| - 1]) + (s[|s| - 1] as int - '0' as int)
  }

  predicate Name(s: Bytes) { s != [] && NameStart(s[0]) && forall i | 0 <= i < |s| :: NameChar(s[i]) }

  /** Between quotes: no NUL, every quote behind a backslash, and no backslash alone at
      the end. */
  predicate Span(s: Bytes) {
    if s == [] then true
    else if s[0] == '\\' as int then |s| >= 2 && s[1] != 0 && Span(s[2..])
    else s[0] != '"' as int && s[0] != 0 && Span(s[1..])
  }

  /** The word `w` spells the token `t`. */
  predicate Spells(w: Bytes, t: Token) {
    match t
    case End => false
    case Num(n) =>
      || (Digits10(w) && n == Decimal(w) <= 9_223_372_036_854_775_807)
      || (|w| > 1 && w[0] == '-' as int && Digits10(w[1..]) && -n == Decimal(w[1..]) <= 9_223_372_036_854_775_807)
    case Str(raw) => Span(raw) && w == ['"' as int] + raw + ['"' as int]
    case Ident(name) => Name(w) && w == name
    case AndAnd => w == Ascii("&&")
    case OrOr => w == Ascii("||")
    case Eq => w == Ascii("==")
    case Ne => w == Ascii("!=")
    case Lt => w == Ascii("<")
    case Le => w == Ascii("<=")
    case Gt => w == Ascii(">")
    case Ge => w == Ascii(">=")
    case Bang => w == Ascii("!")
    case LParen => w == Ascii("(")
    case RParen => w == Ascii(")")
    case Dot => w == Ascii(".")
  }

  /** What follows does not run into the token's own word. */
  predicate Apart(t: Token, rest: Bytes) {
    rest == [] ||
    match t
    case Num(_) => !DigitChar(rest[0])
    case Ident(_) => !NameChar(rest[0])
    case Bang => rest[0] != '=' as int
    case Lt => rest[0] != '=' as int
    case Gt => rest[0] != '=' as int
    case _ => true
  }

  /** A word and the blanks before it. */
  datatype Piece = Piece(gap: Bytes, word: Bytes)

  function Joined(ps: seq<Piece>, tail: Bytes): Bytes {
    if ps == [] then tail else ps[0].gap + (ps[0].word + Joined(ps[1..], tail))
  }

  /** Blanks up to the end of the C string. */
  predicate Trailing(tail: Bytes) {
    tail == [] || tail[0] == 0 || (BlankChar(tail[0]) && Trailing(tail[1..]))
  }

  /** The pieces spell the tokens one by one, and only blanks follow. */
  predicate Spelling(ps: seq<Piece>, tail: Bytes, ts: seq<Token>) {
    if ps == [] || ts == [] then ps == [] && ts == [] && Trailing(tail)
    else
      && Blanks(ps[0].gap) && Spells(ps[0].word, ts[0]) && Apart(ts[0], Joined(ps[1..], tail))
      && Spelling(ps[1..], tail, ts[1..])
  }

  // ---- the lexer reads every spelling ----

  lemma SameChars(c: byte)
    ensures BlankChar(c) == IsSpace(c) && DigitChar(c) == IsDigit(c)
    ensures NameStart(c) == IsIdentStart(c) && NameChar(c) == IsIdent(c)
  {
  }

  lemma {:induction false} SkipsGap(gap: Bytes, rest: Bytes)
    requires Blanks(gap) && (rest == [] || !BlankChar(rest[0]))
    ensures SkipSpace(gap + rest) == rest
  {
    if gap == [] {
      assert gap + rest == rest;
    } else {
      assert (gap + rest)[1..] == gap[1..] + rest;
      SkipsGap(gap[1..], rest);
    }
  }

  lemma {:induction false} SkipsTail(tail: Bytes)
    ensures Trailing(tail) <==> At(SkipSpace(tail), 0) == NUL
  {
    if tail != [] && BlankChar(tail[0]) { SkipsTail(tail[1..]); }
  }

  lemma {:induction false} DecimalValue(v: nat, s: Bytes)
    requires forall i | 0 <= i < |s| :: IsDigit(s[i])
    ensures Value(v, s) == v * Tens(|s|) + Decimal(s) && Decimal(s) >= 0
  {
    if s != [] {
      var n := |s| - 1;
      DecimalValue(v, s[..n]);
      ValueEnd(v, s);
      TensStep(v, Tens(n));
    }
  }

  function Tens(k: nat): nat { if k == 0 then 1 else 10 * Tens(k - 1) }

  lemma TensStep(v: nat, t: nat)
    ensures 10 * (v * t) == v * (10 * t)
  {
  }

  lemma {:induction false} ValueEnd(v: nat, s: Bytes)
    requires s != [] && forall i | 0 <= i < |s| :: IsDigit(s[i])
    ensures Value(v, s) == 10 * Value(v, s[..|s| - 1]) + (s[|s| - 1] as int - 48)
    decreases |s|
  {
    var n := |s| - 1;
    assert IsDigit(s[0]) && IsDigit(s[n]);
    if n == 0 {
      assert s[1..] == [] && s[..0] == [];
    } else {
      assert s[1..][..n - 1] == s[..n][1..];
      ValueEnd(v * 10 + (s[0] as int - 48), s[1..]);
    }
  }

  lemma {:induction false} RunIs(s: Bytes, n: nat)
    requires n <= |s| && (forall i | 0 <= i < n :: IsDigit(s[i])) && (n == |s| || !IsDigit(s[n]))
    ensures DigitRun(s) == n
  {
    if n > 0 { RunIs(s[1..], n - 1); }
  }

  /** A run of digits, cut where no digit follows. */
  lemma DigitsRead(w: Bytes, rest: Bytes)
    requires Digits10(w) && (rest == [] || !DigitChar(rest[0]))
    ensures Digits(w + rest, 0) == if Decimal(w) <= INT64_MAX then Ok((Decimal(w), rest)) else Error(BadQuery)
  {
    hide Digits, Value, Decimal, DigitRun;
    var s := w + rest;
    RunIs(s, |w|);
    assert s[..|w|] == w && s[|w|..] == rest;
    DigitsMeaning(s, 0);
    DecimalValue(0, w);
  }

  lemma {:induction false} NameRead(w: Bytes, rest: Bytes)
    requires (forall i | 0 <= i < |w| :: NameChar(w[i])) && (rest == [] || !NameChar(rest[0]))
    ensures IdentLen(w + rest) == |w|
  {
    if w == [] {
      assert w + rest == rest;
    } else {
      assert (w + rest)[1..] == w[1..] + rest;
      NameRead(w[1..], rest);
    }
  }

  lemma {:induction false} SpanRead(raw: Bytes, rest: Bytes)
    requires Span(raw)
    ensures Quoted(raw + ([QUOTE] + rest)) == Ok((raw, rest))
  {
    var tail := [QUOTE] + rest;
    var s := raw + tail;
    if raw == [] {
      assert s == tail && tail[1..] == rest;
    } else if raw[0] == BACKSLASH {
      SpanRead(raw[2..], rest);
      assert s[2..] == raw[2..] + tail && s[..2] == raw[..2] && s[1] == raw[1];
      assert raw[..2] + raw[2..] == raw;
    } else {
      SpanRead(raw[1..], rest);
      assert s[1..] == raw[1..] + tail && s[..1] == raw[..1];
      assert raw[..1] + raw[1..] == raw;
    }
  }

  lemma NumberRead(w: Bytes, t: Token, rest: Bytes)
    requires t.Num? && Spells(w, t) && Apart(t, rest)
    ensures w != [] && Next(w + rest) == Ok((t, rest)) && !BlankChar(w[0])
  {
    hide Digits, Decimal;
    var s := w + rest;
    assert s[0] == w[0] && SkipSpace(s) == s;
    if Digits10(w) {
      DigitsRead(w, rest);
    } else {
      assert s[1..] == w[1..] + rest && At(s, 1) == w[1];
      DigitsRead(w[1..], rest);
    }
  }

  lemma OperatorRead(w: Bytes, t: Token, rest: Bytes)
    requires !t.Num? && !t.Str? && !t.Ident? && Spells(w, t) && Apart(t, rest)
    ensures w != [] && Next(w + rest) == Ok((t, rest)) && !BlankChar(w[0])
  {
    var s := w + rest;
    assert s[0] == w[0] && SkipSpace(s) == s;
    assert s[|w|..] == rest;
    if |w| == 2 {
      assert At(s, 1) == w[1];
    } else if rest != [] {
      assert At(s, 1) == rest[0];
    }
  }

  /** One token off the front, whatever follows it. */
  lemma WordRead(w: Bytes, t: Token, rest: Bytes)
    requires Spells(w, t) && Apart(t, rest)
    ensures w != [] && Next(w + rest) == Ok((t, rest)) && !BlankChar(w[0])
  {
    match t
    case Num(_) =>
      NumberRead(w, t, rest);
    case Str(raw) =>
      var s := w + rest;
      assert s == [QUOTE] + (raw + ([QUOTE] + rest)) && SkipSpace(s) == s && s[1..] == raw + ([QUOTE] + rest);
      SpanRead(raw, rest);
    case Ident(_) =>
      var s := w + rest;
      assert s[0] == w[0] && SkipSpace(s) == s;
      NameRead(w, rest);
      assert s[..|w|] == w && s[|w|..] == rest;
    case _ =>
      OperatorRead(w, t, rest);
  }

  lemma NextSkips(gap: Bytes, s: Bytes)
    requires Blanks(gap) && s != [] && !BlankChar(s[0])
    ensures Next(gap + s) == Next(s)
  {
    hide Digits, Quoted, IdentLen, Operator, Number;
    SkipsGap(gap, s);
    SkipsGap([], s);
    assert [] + s == s;
  }

  lemma {:induction false} SpellingLexes(ps: seq<Piece>, tail: Bytes, ts: seq<Token>)
    requires Spelling(ps, tail, ts)
    ensures Lexed(Joined(ps, tail)) == (ts, true)
    decreases |ps|
  {
    hide Next, Apart, Spells, Trailing;
    var text := Joined(ps, tail);
    if ps == [] {
      TailLexes(tail);
    } else {
      var w, rest := ps[0].word, Joined(ps[1..], tail);
      WordRead(w, ts[0], rest);
      assert (w + rest)[0] == w[0];
      NextSkips(ps[0].gap, w + rest);
      SpellingLexes(ps[1..], tail, ts[1..]);
      assert !ts[0].End? by { NoEnd(w, ts[0]); }
      assert ts == [ts[0]] + ts[1..];
    }
  }

  lemma TailLexes(tail: Bytes)
    requires Trailing(tail)
    ensures Lexed(tail) == ([], true)
  {
    SkipsTail(tail);
  }

  lemma NoEnd(w: Bytes, t: Token)
    requires Spells(w, t)
    ensures !t.End?
  {
  }

  // ---- and only spellings ----

  /** Splits off the leading blanks. */
  lemma {:induction false} GapOf(text: Bytes) returns (gap: Bytes)
    ensures Blanks(gap) && gap + SkipSpace(text) == text
  {
    if text != [] && IsSpace(text[0]) {
      var more := GapOf(text[1..]);
      gap := [text[0]] + more;
      assert text == [text[0]] + text[1..];
    } else {
      gap := [];
      assert gap + text == text;
    }
  }

  lemma {:induction false} QuotedIsSpan(s: Bytes)
    requires Quoted(s).Ok?
    ensures Span(Quoted(s).value.0)
  {
    if s[0] == QUOTE {
    } else if s[0] == BACKSLASH {
      QuotedIsSpan(s[2..]);
      var (raw, rest) := Quoted(s[2..]).value;
      assert (s[..2] + raw)[2..] == raw;
    } else {
      QuotedIsSpan(s[1..]);
      var (raw, rest) := Quoted(s[1..]).value;
      assert (s[..1] + raw)[1..] == raw;
    }
  }

  lemma {:induction false} IdentIsName(s: Bytes)
    ensures var n := IdentLen(s);
            (forall i | 0 <= i < n :: NameChar(s[i])) && (n == |s| || !NameChar(s[n]))
  {
    if s != [] && IsIdent(s[0]) {
      IdentIsName(s[1..]);
      assert forall i | 1 <= i < IdentLen(s) :: s[i] == s[1..][i - 1];
    }
  }

  lemma {:induction false} RunEnds(s: Bytes)
    ensures DigitRun(s) == |s| || !IsDigit(s[DigitRun(s)])
  {
    if s != [] && IsDigit(s[0]) { RunEnds(s[1..]); }
  }

  lemma DigitsCut(s: Bytes) returns (w: Bytes)
    requires s != [] && IsDigit(s[0]) && Digits(s, 0).Ok?
    ensures var (v, rest) := Digits(s, 0).value;
            && w + rest == s && Digits10(w) && Decimal(w) == v <= INT64_MAX
            && (rest == [] || !DigitChar(rest[0]))
  {
    hide Digits, Value, Decimal;
    DigitsMeaning(s, 0);
    RunEnds(s);
    w := s[..DigitRun(s)];
    DecimalValue(0, w);
  }

  lemma NumberCut(s: Bytes) returns (w: Bytes)
    requires s != [] && (IsDigit(s[0]) || (s[0] == MINUS && IsDigit(At(s, 1)))) && Number(s).Ok?
    ensures var (t, rest) := Number(s).value;
            w + rest == s && Spells(w, t) && Apart(t, rest)
  {
    hide Digits, Decimal;
    if s[0] == MINUS {
      var ds := DigitsCut(s[1..]);
      w := [s[0]] + ds;
      assert w[1..] == ds && w + Number(s).value.1 == [s[0]] + (ds + Number(s).value.1);
    } else {
      w := DigitsCut(s);
    }
  }

  /** The word that gave a token. */
  lemma WordOf(s: Bytes) returns (w: Bytes)
    requires SkipSpace(s) == s && Next(s).Ok? && !Next(s).value.0.End?
    ensures var (t, rest) := Next(s).value;
            w + rest == s && Spells(w, t) && Apart(t, rest)
  {
    hide Digits, Quoted, IdentLen, Operator, Span, Decimal, Digits10, Number;
    var (t, rest) := Next(s).value;
    assert s != [] && s[0] != NUL;
    if IsDigit(s[0]) || (s[0] == MINUS && IsDigit(At(s, 1))) {
      w := NumberCut(s);
    } else if IsIdentStart(s[0]) {
      IdentIsName(s);
      w := s[..IdentLen(s)];
    } else if s[0] == QUOTE {
      QuotedSpan(s[1..]);
      QuotedIsSpan(s[1..]);
      w := [QUOTE] + t.raw + [QUOTE];
      assert w + rest == [s[0]] + (t.raw + [QUOTE] + rest);
    } else {
      assert !IsSpace(s[0]);
      w := OperatorWord(s);
    }
  }

  lemma OperatorWord(s: Bytes) returns (w: Bytes)
    requires s != [] && !IsSpace(s[0]) && !IsDigit(s[0]) && !IsIdentStart(s[0]) && s[0] != QUOTE && s[0] != NUL
    requires !(s[0] == MINUS && IsDigit(At(s, 1))) && Next(s).Ok?
    ensures var (t, rest) := Next(s).value;
            w + rest == s && Spells(w, t) && Apart(t, rest)
  {
    OperatorFits(s);
    var n := Operator(s[0], At(s, 1)).value.1;
    w := s[..n];
    assert w == if n == 2 then [s[0], s[1]] else [s[0]];
  }

  lemma {:induction false} LexedSpells(text: Bytes) returns (ps: seq<Piece>, tail: Bytes)
    requires Lexed(text).1
    ensures Spelling(ps, tail, Lexed(text).0) && Joined(ps, tail) == text
    decreases |text|
  {
    hide Spells, Apart, Next, Trailing;
    var (t, rest) := Next(text).value;
    if t.End? {
      ps, tail := [], text;
      EndIsTail(text);
    } else {
      var gap := GapOf(text);
      var s := SkipSpace(text);
      NextOfSkipped(text);
      var w := WordOf(s);
      var more;
      more, tail := LexedSpells(rest);
      ps := [Piece(gap, w)] + more;
      assert ps[1..] == more;
      var ts := Lexed(text).0;
      assert ts == [t] + Lexed(rest).0 && ts[1..] == Lexed(rest).0;
    }
  }

  lemma EndIsTail(text: Bytes)
    requires Next(text).Ok? && Next(text).value.0.End?
    ensures Trailing(text)
  {
    hide Digits, Quoted, IdentLen, Operator;
    SkipsTail(text);
    var s := SkipSpace(text);
    if At(s, 0) != NUL && Operator(s[0], At(s, 1)).Ok? { OperatorFits(s); }
  }

  lemma {:induction false} SkipTwice(text: Bytes)
    ensures SkipSpace(SkipSpace(text)) == SkipSpace(text)
  {
    if text != [] && IsSpace(text[0]) { SkipTwice(text[1..]); }
  }

  lemma NextOfSkipped(text: Bytes)
    ensures Next(SkipSpace(text)) == Next(text) && SkipSpace(SkipSpace(text)) == SkipSpace(text)
  {
    SkipTwice(text);
  }

  /** Pieces of the text that spell the tokens. */
  ghost predicate Writes(text: Bytes, ts: seq<Token>) {
    exists ps, tail :: Spelling(ps, tail, ts) && Joined(ps, tail) == text
  }

  /** A text has no lexical error and these tokens exactly when it is a spelling of them;
      so every spelling is unambiguous, and longest words are never cut short. */
  lemma LexedIff(text: Bytes, ts: seq<Token>)
    ensures Lexed(text) == (ts, true) <==> Writes(text, ts)
  {
    hide Lexed, Spelling, Joined;
    if Lexed(text) == (ts, true) {
      var ps, tail := LexedSpells(text);
      assert Spelling(ps, tail, ts) && Joined(ps, tail) == text;
    }
    if Writes(text, ts) {
      var ps, tail :| Spelling(ps, tail, ts) && Joined(ps, tail) == text;
      SpellingLexes(ps, tail, ts);
    }
  }

  /** Of the spans that the lexer yields exactly one denotes each string: quotes and
      backslashes behind a backslash, everything else as it is. */
  lemma {:induction false} LiteralIff(raw: Bytes, s: Bytes)
    requires Span(raw)
    ensures Unescaped(raw) == Some(s) <==> raw == Escaped(s)
    decreases |raw|
  {
    if raw == [] {
      if s != [] { EscapedStart(s); }
    } else if s == [] {
    } else {
      EscapedStart(s);
      var e := Escaped(s);
      if raw[0] == BACKSLASH {
        LiteralIff(raw[2..], s[1..]);
        assert raw == [raw[0], raw[1]] + raw[2..];
        if s[0] == QUOTE || s[0] == BACKSLASH { assert e[2..] == Escaped(s[1..]); }
      } else {
        LiteralIff(raw[1..], s[1..]);
        assert raw == [raw[0]] + raw[1..];
        if s[0] != QUOTE && s[0] != BACKSLASH { assert e[1..] == Escaped(s[1..]); }
      }
      assert s == [s[0]] + s[1..];
    }
  }

  lemma EscapedStart(s: Bytes)
    requires s != []
    ensures Escaped(s) == (if s[0] == '"' as int || s[0] == '\\' as int then ['\\' as int, s[0]] else [s[0]]) + Escaped(s[1..])
  {
  }

  // ---- queries as text ----

  /** The text is a spelling of the derivation. */
  ghost predicate Spelt(text: Bytes, o: Disj) { Writes(text, YieldO(o)) }

  /** From characters to tree: a query is accepted with a tree exactly when the text
      spells a derivation, within the depth budget, that has this tree. */
  lemma CompileTextIff(text: Bytes, t: Ast)
    ensures Compile(text) == Ok(t) <==> exists o :: Spelt(text, o) && FitsO(o, 0) && TreeO(o) == t
  {
    hide Lexed, ParseTokens, Writes, YieldO, TreeO, FitsO;
    CompileIff(text, t);
    if Compile(text) == Ok(t) {
      var o :| Derives(o, Lexed(text).0, t);
      LexedIff(text, YieldO(o));
      assert Spelt(text, o);
    }
    if exists o :: Spelt(text, o) && FitsO(o, 0) && TreeO(o) == t {
      var o :| Spelt(text, o) && FitsO(o, 0) && TreeO(o) == t;
      LexedIff(text, YieldO(o));
      assert Derives(o, Lexed(text).0, t);
    }
  }

  /** How each comparison is written. */
  function OperatorText(op: CmpOp): string {
    match op
    case OpEq => "=="
    case OpNe => "!="
    case OpLt => "<"
    case OpLe => "<="
    case OpGt => ">"
    case OpGe => ">="
  }

  lemma OperatorSpelt(w: Bytes, op: CmpOp)
    ensures Spells(w, TokenOf(op)) <==> w == Ascii(OperatorText(op))
  {
    hide Ascii;
  }
}
