/** The parser object: a lexer, one token of lookahead and a latched error
    (src/query/parse.c). */
module QueryParser {
  import opened Core
  import opened Lex
  import opened QueryGrammar

  /** `dtl_parse`: any lexical error of the text is an error of the query. */
  function Compile(text: Bytes): Result<Ast> {
    var (ts, ok) := Lexed(text);
    if ok then ParseTokens(ts) else Error(BadQuery)
  }

  /** Accepted queries are exactly those that lex and have a derivation. */
  lemma CompileIff(text: Bytes, t: Ast)
    ensures Compile(text) == Ok(t) <==> Lexed(text).1 && exists o :: Derives(o, Lexed(text).0, t)
  {
    hide Derives, Lexed, ParseTokens;
    AcceptsGrammar(Lexed(text).0, t);
  }

  // ---- string literals ----

  ghost function After(done: Bytes, r: Option<Bytes>): Option<Bytes> {
    match r
    case None => None
    case Some(more) => Some(done + more)
  }

  lemma AfterStep(done: Bytes, raw: Bytes)
    requires raw != []
    ensures After(done, Unescaped(raw))
         == if raw[0] == BACKSLASH then
              if |raw| < 2 || (raw[1] != QUOTE && raw[1] != BACKSLASH) then None
              else After(done + [raw[1]], Unescaped(raw[2..]))
            else After(done + [raw[0]], Unescaped(raw[1..]))
  {
    if raw[0] == BACKSLASH {
      if |raw| >= 2 && Unescaped(raw[2..]).Some? { Assoc(done, [raw[1]], Unescaped(raw[2..]).value); }
    } else if Unescaped(raw[1..]).Some? {
      Assoc(done, [raw[0]], Unescaped(raw[1..]).value);
    }
  }

  /** The first thing wrong with the span is that it ends inside an escape. */
  predicate EndsInEscape(raw: Bytes) {
    if raw == [] then false
    else if raw[0] == BACKSLASH then
      |raw| == 1 || ((raw[1] == QUOTE || raw[1] == BACKSLASH) && EndsInEscape(raw[2..]))
    else EndsInEscape(raw[1..])
  }

  /** That is, it dangles and everything before the last backslash decodes. */
  lemma {:induction false} EndsInEscapeIff(raw: Bytes)
    ensures EndsInEscape(raw) <==> Dangling(raw) && Unescaped(raw[..|raw| - 1]).Some?
    ensures EndsInEscape(raw) ==> Unescaped(raw) == None
  {
    if raw != [] {
      var n := |raw| - 1;
      if raw[0] != BACKSLASH {
        EndsInEscapeIff(raw[1..]);
        if n > 0 { assert raw[..n][1..] == raw[1..][..n - 1] && raw[..n][0] == raw[0]; }
      } else if n >= 1 {
        EndsInEscapeIff(raw[2..]);
        if n >= 2 { assert raw[..n][2..] == raw[2..][..n - 2] && raw[..n][0] == raw[0] && raw[..n][1] == raw[1]; }
      } else {
        assert raw[..0] == [];
      }
    }
  }

  /** `dtl_parse_string`; `dangled` tells which of the two failures it was. */
  method DecodeString(raw: Bytes) returns (r: Option<Bytes>, dangled: bool)
    ensures r == Unescaped(raw)
    ensures dangled <==> EndsInEscape(raw)
    ensures dangled ==> Dangling(raw)
  {
    hide Unescaped;
    EndsInEscapeIff(raw);
    var buf := new byte[|raw| + 1](_ => 0);
    var i: nat, o: nat := 0, 0;
    ghost var goal := Unescaped(raw);
    assert raw[0..] == raw && buf[..0] == [] && After([], goal) == goal by { AfterNothing(goal); }
    while i < |raw|
      invariant o <= i <= |raw|
      invariant goal == After(buf[..o], Unescaped(raw[i..]))
      invariant EndsInEscape(raw) == EndsInEscape(raw[i..])
    {
      ghost var done, t := buf[..o], raw[i..];
      AfterStep(done, t);
      var c := raw[i];
      if c == BACKSLASH {
        if i + 1 >= |raw| {
          return None, true;
        }
        var e := raw[i + 1];
        if e != QUOTE && e != BACKSLASH {
          return None, false;
        }
        assert t[2..] == raw[i + 2..] && t[1] == e;
        buf[o] := e;
        assert buf[..o + 1] == done + [e];
        i, o := i + 2, o + 1;
      } else {
        assert t[1..] == raw[i + 1..];
        buf[o] := c;
        assert buf[..o + 1] == done + [c];
        i, o := i + 1, o + 1;
      }
    }
    assert raw[|raw|..] == [] && buf[..o] + [] == buf[..o];
    assert Unescaped([]) == Some([]) by { UnescapedNothing(); }
    return Some(buf[..o]), false;
  }

  lemma UnescapedNothing()
    ensures Unescaped([]) == Some([])
  {
  }

  lemma AfterNothing(r: Option<Bytes>)
    ensures After([], r) == r
  {
    if r.Some? { assert [] + r.value == r.value; }
  }

  // ---- the parser ----

  class Parser {
    const lex: Lexer
    var cur: Token
    var err: Option<Err>

    ghost predicate Valid()
      reads this, lex
    {
      lex.Valid() && (err.Some? ==> err.value == BadQuery) && (cur.Str? ==> !Dangling(cur.raw))
    }

    /** Before a rule is entered: a lexical error has put END in the lookahead. */
    ghost predicate Ready()
      reads this, lex
    {
      Valid() && (err.Some? ==> cur.End?)
    }

    /** The tokens the parser has not consumed, up to the end or a lexical error. */
    ghost function Ahead(): seq<Token>
      reads this, lex
      requires Valid()
    {
      if cur.End? then [] else [cur] + Lexed(lex.Rest()).0
    }

    /** No error so far and none lies ahead in the text. */
    ghost predicate Clean()
      reads this, lex
      requires Valid()
    {
      err.None? && (cur.End? || Lexed(lex.Rest()).1)
    }

    /** What a rule leaves behind when its specification says `r`. */
    twostate predicate Did(r: Parsed, new node: Option<Ast>)
      reads this, lex
      requires old(Valid())
    {
      match r
      case None => Valid() && node.None? && err.Some?
      case Some((a, rest)) =>
        node == Some(a) && Ready() && Ahead() == rest && (Clean() <==> old(Clean()))
    }

    constructor (text: Bytes)
      ensures Ready() && fresh(lex) && cur.End? && err.None? && lex.Rest() == text
    {
      lex := new Lexer(text);
      cur, err := End, None;
    }

    /** `dtl_parse_advance`: a lexical error is latched and looks like the end. */
    method Advance()
      requires Ready() && err.None?
      modifies this, lex
      ensures Ready()
      ensures Ahead() == Lexed(old(lex.Rest())).0
      ensures Clean() <==> Lexed(old(lex.Rest())).1
      ensures !old(cur).End? ==> Ahead() == old(Ahead())[1..] && (Clean() <==> old(Clean()))
    {
      hide Next;
      ghost var rest := lex.Rest();
      NextFacts(rest);
      var t := lex.LexNext();
      match t {
        case Ok(tok) =>
          cur := tok;
        case Error(e) =>
          if err.None? {
            err := Some(e);
          }
          cur := End;
      }
    }

    /** A string token never ends in an unfinished escape. */
    lemma NextFacts(s: Bytes)
      ensures match Next(s)
              case Error(e) => e == BadQuery
              case Ok((t, _)) => t.Str? ==> !Dangling(t.raw)
    {
      hide Quoted, Digits, Dangling, IdentLen;
      if Next(s).Ok? && Next(s).value.0.Str? { QuotedSpan(SkipSpace(s)[1..]); }
    }

    /** `dtl_parse_fail` */
    method Fail()
      requires Valid()
      modifies this`err
      ensures Valid() && err.Some?
    {
      if err.None? {
        err := Some(BadQuery);
      }
    }

    /** An identifier, dotted or not. */
    method ParseField() returns (node: Option<Ast>)
      requires Ready() && cur.Ident?
      modifies this, lex
      ensures forall d: nat | d <= MAX_DEPTH :: Did(Primary(old(Ahead()), d), node)
    {
      hide Lexed;
      ghost var ts := Ahead();
      var a := cur.name;
      Advance();
      assert Ahead() == ts[1..] && First(ts[1..]) == cur;
      if !cur.Dot? {
        return Some(Field(a, None));
      }
      Advance();
      assert Ahead() == ts[2..] && First(ts[2..]) == cur;
      if !cur.Ident? {
        Fail();
        return None;
      }
      var b := cur.name;
      assert ts[2] == cur;
      Advance();
      assert Ahead() == ts[3..];
      return Some(Field(a, Some(b)));
    }

    /** `dtl_parse_primary` */
    method ParsePrimary(depth: nat) returns (node: Option<Ast>)
      requires Ready()
      modifies this, lex
      ensures Did(Primary(old(Ahead()), depth), node)
      decreases |Ahead()|, 0
    {
      hide Lexed, Unescaped, Expr, Dangling;
      ghost var ts := Ahead();
      if err.Some? || depth > MAX_DEPTH {
        Fail();
        return None;
      }
      match cur {
        case Num(n) =>
          Advance();
          return Some(IntLit(n));
        case Str(raw) =>
          var s, dangled := DecodeString(raw);
          assert !dangled;
          if s.None? {
            Fail();
            return None;
          }
          Advance();
          return Some(StrLit(s.value));
        case Ident(_) =>
          node := ParseField();
        case LParen =>
          Advance();
          node := ParseExpr(depth + 1);
          if node.None? {
            return None;
          }
          if !cur.RParen? {
            Fail();
            return None;
          }
          Advance();
        case Bang =>
          Advance();
          var child := ParsePrimary(depth + 1);
          if child.None? {
            return None;
          }
          return Some(Not(child.value));
        case _ =>
          Fail();
          return None;
      }
    }

    /** `dtl_parse_cmp` */
    method ParseCmp(depth: nat) returns (node: Option<Ast>)
      requires Ready()
      modifies this, lex
      ensures Did(Comparison(old(Ahead()), depth), node)
      decreases |Ahead()|, 1
    {
      hide Lexed, Primary;
      if err.Some? || depth > MAX_DEPTH {
        assert err.Some? ==> Primary([], depth + 1) == None by { NothingToParse(depth + 1); }
        Fail();
        return None;
      }
      var left := ParsePrimary(depth + 1);
      if left.None? {
        return None;
      }
      var op := OpOf(cur);
      assert First(Ahead()) == cur;
      if op.None? {
        return left;
      }
      Advance();
      var right := ParsePrimary(depth + 1);
      if right.None? {
        return None;
      }
      return Some(Cmp(op.value, left.value, right.value));
    }

    lemma NothingToParse(depth: nat)
      ensures Primary([], depth) == None && Comparison([], depth) == None && Conjunction([], depth) == None
    {
    }

    /** `dtl_parse_and` */
    method ParseAnd(depth: nat) returns (node: Option<Ast>)
      requires Ready()
      modifies this, lex
      ensures Did(Conjunction(old(Ahead()), depth), node)
      decreases |Ahead()|, 2
    {
      hide Lexed, Comparison;
      if err.Some? || depth > MAX_DEPTH {
        assert err.Some? ==> Comparison([], depth + 1) == None by { NothingToParse(depth + 1); }
        Fail();
        return None;
      }
      ghost var goal := Conjunction(Ahead(), depth);
      var left := ParseCmp(depth + 1);
      if left.None? {
        return None;
      }
      while cur.AndAnd?
        invariant Ready() && left.Some? && (Clean() <==> old(Clean()))
        invariant goal == AndTail(left.value, Ahead(), depth) && |Ahead()| < |old(Ahead())|
        decreases |Ahead()|
      {
        Advance();
        var right := ParseCmp(depth + 1);
        if right.None? {
          return None;
        }
        left := Some(And(left.value, right.value));
      }
      return left;
    }

    /** `dtl_parse_expr` */
    method ParseExpr(depth: nat) returns (node: Option<Ast>)
      requires Ready()
      modifies this, lex
      ensures Did(Expr(old(Ahead()), depth), node)
      decreases |Ahead()|, 3
    {
      hide Lexed, Conjunction;
      if err.Some? || depth > MAX_DEPTH {
        assert err.Some? ==> Conjunction([], depth + 1) == None by { NothingToParse(depth + 1); }
        Fail();
        return None;
      }
      ghost var goal := Expr(Ahead(), depth);
      var left := ParseAnd(depth + 1);
      if left.None? {
        return None;
      }
      while cur.OrOr?
        invariant Ready() && left.Some? && (Clean() <==> old(Clean()))
        invariant goal == OrTail(left.value, Ahead(), depth) && |Ahead()| < |old(Ahead())|
        decreases |Ahead()|
      {
        Advance();
        var right := ParseAnd(depth + 1);
        if right.None? {
          return None;
        }
        left := Some(Or(left.value, right.value));
      }
      return left;
    }
  }

  /** `dtl_parse` */
  method ParseQuery(text: Bytes) returns (r: Result<Ast>)
    ensures r == Compile(text)
  {
    hide Lexed, Expr;
    var p := new Parser(text);
    p.Advance();
    var root := p.ParseExpr(0);
    if p.err.Some? {
      return Error(p.err.value);
    }
    if root.None? {
      return Error(BadQuery);
    }
    if !p.cur.End? {
      return Error(BadQuery);
    }
    return Ok(root.value);
  }
}
