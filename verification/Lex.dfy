/** Tokenizer of the filter language (src/query/lex.c). A query is a C string: the
    lexer sees a NUL after its last byte and never reads beyond it. */
module Lex {
  import opened Core

  const INT64_MAX := 0x7FFF_FFFF_FFFF_FFFF

  const NUL: byte := 0
  const QUOTE: byte := 34
  const BACKSLASH: byte := 92
  const MINUS: byte := 45

  datatype Token =
    | End | Num(num: int) | Str(raw: Bytes) | Ident(name: Bytes)
    | AndAnd | OrOr | Eq | Ne | Lt | Le | Gt | Ge | Bang | LParen | RParen | Dot

  predicate IsSpace(c: byte) { c == 32 || c == 9 || c == 10 || c == 13 }

  predicate IsDigit(c: byte) { 48 <= c <= 57 }

  predicate IsIdentStart(c: byte) { 97 <= c <= 122 || 65 <= c <= 90 || c == 95 }

  predicate IsIdent(c: byte) { IsIdentStart(c) || IsDigit(c) }

  /** `s[k]`, with the terminator. */
  function At(s: Bytes, k: nat): byte { if k < |s| then s[k] else NUL }

  // ---- the pieces of a token ----

  function SkipSpace(s: Bytes): (r: Bytes)
    ensures |r| <= |s|
  {
    if s != [] && IsSpace(s[0]) then SkipSpace(s[1..]) else s
  }

  /** Decimal digits onto `val`, with the overflow guard of the source. */
  function Digits(s: Bytes, val: nat): (r: Result<(nat, Bytes)>)
    ensures r.Ok? ==> |r.value.1| <= |s|
    ensures r.Ok? && s != [] && IsDigit(s[0]) ==> |r.value.1| < |s|
  {
    if s != [] && IsDigit(s[0]) then
      var d := s[0] as int - 48;
      if val > (INT64_MAX - d) / 10 then Error(BadQuery) else Digits(s[1..], val * 10 + d)
    else Ok((val, s))
  }

  function IdentLen(s: Bytes): (n: nat)
    ensures n <= |s|
    ensures s != [] && IsIdentStart(s[0]) ==> n > 0
  {
    if s != [] && IsIdent(s[0]) then 1 + IdentLen(s[1..]) else 0
  }

  /** The raw bytes up to the closing quote, and what follows it. */
  function Quoted(s: Bytes): (r: Result<(Bytes, Bytes)>)
    ensures r.Ok? ==> |r.value.1| < |s|
  {
    if At(s, 0) == NUL then Error(BadQuery)
    else if s[0] == QUOTE then Ok(([], s[1..]))
    else if s[0] == BACKSLASH then
      if At(s, 1) == NUL then Error(BadQuery)
      else
        var (raw, rest) :- Quoted(s[2..]);
        Ok((s[..2] + raw, rest))
    else
      var (raw, rest) :- Quoted(s[1..]);
      Ok((s[..1] + raw, rest))
  }

  function Number(s: Bytes): (r: Result<(Token, Bytes)>)
    requires s != [] && (IsDigit(s[0]) || (s[0] == MINUS && IsDigit(At(s, 1))))
    ensures r.Ok? ==> |r.value.1| < |s|
  {
    if s[0] == MINUS then
      var (v, rest) :- Digits(s[1..], 0);
      Ok((Num(-(v as int)), rest))
    else
      var (v, rest) :- Digits(s, 0);
      Ok((Num(v), rest))
  }

  /** Operator tokens: the token and its width. */
  function Operator(c: byte, next: byte): Result<(Token, nat)> {
    if c == 38 then (if next == 38 then Ok((AndAnd, 2)) else Error(BadQuery))
    else if c == 124 then (if next == 124 then Ok((OrOr, 2)) else Error(BadQuery))
    else if c == 61 then (if next == 61 then Ok((Eq, 2)) else Error(BadQuery))
    else if c == 33 then Ok(if next == 61 then (Ne, 2) else (Bang, 1))
    else if c == 60 then Ok(if next == 61 then (Le, 2) else (Lt, 1))
    else if c == 62 then Ok(if next == 61 then (Ge, 2) else (Gt, 1))
    else if c == 40 then Ok((LParen, 1))
    else if c == 41 then Ok((RParen, 1))
    else if c == 46 then Ok((Dot, 1))
    else Error(BadQuery)
  }

  lemma OperatorFits(s: Bytes)
    requires s != [] && Operator(s[0], At(s, 1)).Ok?
    ensures 1 <= Operator(s[0], At(s, 1)).value.1 <= |s| && !Operator(s[0], At(s, 1)).value.0.End?
  {
  }

  /** One token of the remaining text. */
  function Next(text: Bytes): (r: Result<(Token, Bytes)>)
    ensures r.Ok? ==> |r.value.1| <= |text|
    ensures r.Ok? && !r.value.0.End? ==> |r.value.1| < |text|
    ensures r.Error? ==> r.err == BadQuery
  {
    var s := SkipSpace(text);
    if At(s, 0) == NUL then Ok((End, s))
    else if IsDigit(s[0]) || (s[0] == MINUS && IsDigit(At(s, 1))) then
      DigitsFail(s, 0);
      DigitsFail(s[1..], 0);
      Number(s)
    else if IsIdentStart(s[0]) then Ok((Ident(s[..IdentLen(s)]), s[IdentLen(s)..]))
    else if s[0] == QUOTE then
      QuotedFail(s[1..]);
      var (raw, rest) :- Quoted(s[1..]);
      Ok((Str(raw), rest))
    else
      var (t, n) :- Operator(s[0], At(s, 1));
      OperatorFits(s);
      Ok((t, s[n..]))
  }

  lemma {:induction false} DigitsFail(s: Bytes, val: nat)
    ensures Digits(s, val).Error? ==> Digits(s, val).err == BadQuery
    decreases |s|
  {
    if s != [] && IsDigit(s[0]) { DigitsFail(s[1..], val * 10 + (s[0] as int - 48)); }
  }

  lemma {:induction false} QuotedFail(s: Bytes)
    ensures Quoted(s).Error? ==> Quoted(s).err == BadQuery
  {
    if At(s, 0) != NUL && s[0] != QUOTE {
      if s[0] == BACKSLASH {
        if At(s, 1) != NUL { QuotedFail(s[2..]); }
      } else {
        QuotedFail(s[1..]);
      }
    }
  }

  /** The tokens before the end of the text or the first lexical error, and whether
      there was none. */
  function Lexed(text: Bytes): (seq<Token>, bool)
    decreases |text|
  {
    match Next(text)
    case Error(_) => ([], false)
    case Ok((t, rest)) =>
      if t.End? then ([], true)
      else var (ts, ok) := Lexed(rest); ([t] + ts, ok)
  }

  // ---- what the pieces mean ----

  function Value(val: nat, ds: Bytes): nat
    requires forall i | 0 <= i < |ds| :: IsDigit(ds[i])
    decreases |ds|
  {
    if ds == [] then val else assert IsDigit(ds[0]); Value(val * 10 + (ds[0] as int - 48), ds[1..])
  }

  function DigitRun(s: Bytes): (n: nat)
    ensures n <= |s| && forall i | 0 <= i < n :: IsDigit(s[i])
  {
    if s != [] && IsDigit(s[0]) then 1 + DigitRun(s[1..]) else 0
  }

  lemma {:induction false} ValueGrows(val: nat, ds: Bytes)
    requires forall i | 0 <= i < |ds| :: IsDigit(ds[i])
    ensures Value(val, ds) >= val
    decreases |ds|
  {
    if ds != [] { ValueGrows(val * 10 + (ds[0] as int - 48), ds[1..]); }
  }

  /** The overflow guard refuses exactly the numbers above the 64-bit maximum. */
  lemma {:induction false} DigitsMeaning(s: Bytes, val: nat)
    requires val <= INT64_MAX
    ensures var n := DigitRun(s);
            var v := Value(val, s[..n]);
            Digits(s, val) == if v <= INT64_MAX then Ok((v, s[n..])) else Error(BadQuery)
    decreases |s|
  {
    if s != [] && IsDigit(s[0]) {
      var n := DigitRun(s);
      var d := s[0] as int - 48;
      assert s[..n][1..] == s[1..][..n - 1] && s[n..] == s[1..][n - 1..];
      if val > (INT64_MAX - d) / 10 {
        ValueGrows(val * 10 + d, s[..n][1..]);
      } else {
        DigitsMeaning(s[1..], val * 10 + d);
      }
    }
  }

  /** Ends in an escape with nothing to escape. */
  predicate Dangling(raw: Bytes) {
    if raw == [] then false
    else if raw[0] == BACKSLASH then |raw| == 1 || Dangling(raw[2..])
    else Dangling(raw[1..])
  }

  /** A string span never ends inside an escape, never holds an unescaped quote and
      with its closing quote makes up what was consumed. */
  lemma {:induction false} QuotedSpan(s: Bytes)
    requires Quoted(s).Ok?
    ensures var (raw, rest) := Quoted(s).value; !Dangling(raw) && s == raw + [QUOTE] + rest
  {
    if s[0] == QUOTE {
      assert s == [] + [QUOTE] + s[1..];
    } else if s[0] == BACKSLASH {
      QuotedSpan(s[2..]);
      var (raw, rest) := Quoted(s[2..]).value;
      assert (s[..2] + raw)[2..] == raw;
    } else {
      QuotedSpan(s[1..]);
      var (raw, rest) := Quoted(s[1..]).value;
      assert (s[..1] + raw)[1..] == raw;
    }
  }

  /** So no string token of any text has a dangling escape. */
  lemma {:induction false} NoDanglingToken(text: Bytes)
    ensures forall t | t in Lexed(text).0 && t.Str? :: !Dangling(t.raw)
    decreases |text|
  {
    hide Quoted, Digits, Dangling;
    match Next(text)
    case Error(_) =>
    case Ok((t, rest)) =>
      if !t.End? {
        NoDanglingToken(rest);
        if t.Str? { QuotedSpan(SkipSpace(text)[1..]); }
      }
  }

  // ---- the lexer object ----

  class Lexer {
    const src: Bytes
    var pos: nat

    ghost predicate Valid()
      reads this`pos
    {
      pos <= |src|
    }

    ghost function Rest(): Bytes
      reads this`pos
      requires Valid()
    {
      src[pos..]
    }

    constructor (text: Bytes)
      ensures Valid() && src == text && Rest() == text
    {
      src, pos := text, 0;
    }

    /** `dtl_lex_number` */
    method LexNumber() returns (r: Result<Token>)
      requires Valid() && var s := Rest(); s != [] && (IsDigit(s[0]) || (s[0] == MINUS && IsDigit(At(s, 1))))
      modifies this`pos
      ensures Valid()
      ensures match Number(old(Rest()))
              case Ok((t, rest)) => r == Ok(t) && Rest() == rest
              case Error(e) => r == Error(e)
    {
      ghost var s := Rest();
      var negative := src[pos] == MINUS;
      if negative {
        pos := pos + 1;
        assert Rest() == s[1..];
      }
      var val: nat := 0;
      ghost var goal := Digits(Rest(), 0);
      if !(pos < |src| && IsDigit(src[pos])) {
        return Error(BadQuery);
      }
      while pos < |src| && IsDigit(src[pos])
        invariant Valid() && goal == Digits(Rest(), val)
        decreases |src| - pos
      {
        var d := src[pos] as int - 48;
        assert Rest()[1..] == src[pos + 1..];
        if val > (INT64_MAX - d) / 10 {
          return Error(BadQuery);
        }
        val := val * 10 + d;
        pos := pos + 1;
      }
      return Ok(Num(if negative then -(val as int) else val));
    }

    /** `dtl_lex_string` */
    method LexString() returns (r: Result<Token>)
      requires Valid() && pos < |src|
      modifies this`pos
      ensures Valid()
      ensures match Quoted(old(Rest())[1..])
              case Ok((raw, rest)) => r == Ok(Str(raw)) && Rest() == rest
              case Error(e) => r == Error(e)
    {
      hide Quoted, More;
      ghost var s := Rest();
      pos := pos + 1;
      var start := pos;
      ghost var goal := Quoted(Rest());
      assert Rest() == s[1..] && src[start..pos] == [];
      MoreNothing(goal);
      while true
        invariant start <= pos && Valid()
        invariant goal == More(src[start..pos], Quoted(Rest()))
        decreases |src| - pos
      {
        QuotedStep(src[start..pos], Rest());
        var c := At(src, pos);
        if c == NUL {
          return Error(BadQuery);
        }
        assert Rest()[1..] == src[pos + 1..] && src[start..pos + 1] == src[start..pos] + Rest()[..1];
        if c == QUOTE {
          pos := pos + 1;
          return Ok(Str(src[start..pos - 1]));
        }
        if c == BACKSLASH {
          if At(src, pos + 1) == NUL {
            return Error(BadQuery);
          }
          assert Rest()[2..] == src[pos + 2..] && src[start..pos + 2] == src[start..pos] + Rest()[..2];
          pos := pos + 2;
        } else {
          pos := pos + 1;
        }
      }
    }

    /** `dtl_lex_next` */
    method LexNext() returns (r: Result<Token>)
      requires Valid()
      modifies this`pos
      ensures Valid()
      ensures match Next(old(Rest()))
              case Ok((t, rest)) => r == Ok(t) && Rest() == rest
              case Error(e) => r == Error(e)
    {
      hide Digits, Quoted, IdentLen;
      ghost var s := SkipSpace(Rest());
      while pos < |src| && IsSpace(src[pos])
        invariant Valid() && s == SkipSpace(Rest())
        decreases |src| - pos
      {
        assert Rest()[1..] == src[pos + 1..];
        pos := pos + 1;
      }
      assert s == Rest();
      var c, next := At(src, pos), At(src, pos + 1);
      assert c == At(s, 0) && next == At(s, 1);
      if c == NUL {
        return Ok(End);
      }
      if IsDigit(c) || (c == MINUS && IsDigit(next)) {
        r := LexNumber();
        return;
      }
      if IsIdentStart(c) {
        r := LexIdent();
        return;
      }
      if c == QUOTE {
        r := LexString();
        return;
      }
      var op := Operator(c, next);
      if op.Error? {
        return Error(op.err);
      }
      OperatorFits(s);
      assert s[op.value.1..] == src[pos + op.value.1..];
      pos := pos + op.value.1;
      return Ok(op.value.0);
    }

    method LexIdent() returns (r: Result<Token>)
      requires Valid() && pos < |src|
      modifies this`pos
      ensures Valid()
      ensures var s := old(Rest()); r == Ok(Ident(s[..IdentLen(s)])) && Rest() == s[IdentLen(s)..]
    {
      ghost var s := Rest();
      var start := pos;
      while pos < |src| && IsIdent(src[pos])
        invariant start <= pos && Valid() && IdentLen(s) == pos - start + IdentLen(Rest())
        decreases |src| - pos
      {
        assert Rest()[1..] == src[pos + 1..];
        pos := pos + 1;
      }
      assert s[..pos - start] == src[start..pos] && s[pos - start..] == Rest();
      return Ok(Ident(src[start..pos]));
    }
  }

  /** `raw` was scanned already; `r` is what the rest of the scan gives. */
  ghost function More(raw: Bytes, r: Result<(Bytes, Bytes)>): Result<(Bytes, Bytes)> {
    match r
    case Ok((more, rest)) => Ok((raw + more, rest))
    case Error(e) => Error(e)
  }

  lemma MoreNothing(r: Result<(Bytes, Bytes)>)
    ensures More([], r) == r
  {
    if r.Ok? { assert [] + r.value.0 == r.value.0; }
  }

  lemma QuotedStep(before: Bytes, s: Bytes)
    ensures More(before, Quoted(s))
         == if At(s, 0) == NUL then Error(BadQuery)
            else if s[0] == QUOTE then Ok((before, s[1..]))
            else if s[0] == BACKSLASH then
              if At(s, 1) == NUL then Error(BadQuery) else More(before + s[..2], Quoted(s[2..]))
            else More(before + s[..1], Quoted(s[1..]))
  {
    if At(s, 0) != NUL {
      if s[0] == QUOTE {
        assert before + [] == before;
      } else if s[0] == BACKSLASH {
        if At(s, 1) != NUL { MoreAssoc(before, s[..2], Quoted(s[2..])); }
      } else {
        MoreAssoc(before, s[..1], Quoted(s[1..]));
      }
    }
  }

  lemma MoreAssoc(a: Bytes, b: Bytes, r: Result<(Bytes, Bytes)>)
    ensures More(a, More(b, r)) == More(a + b, r)
  {
    if r.Ok? { Assoc(a, b, r.value.0); }
  }
}
