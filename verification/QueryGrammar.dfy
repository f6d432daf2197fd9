/** The filter language's grammar, its recursive-descent parser as functions on
    token sequences, and the proof that the parser accepts exactly the grammar
    within the depth budget (src/query/parse.c, src/query/parse.h). */
module QueryGrammar {
  import opened Core
  import opened Lex

  const MAX_DEPTH := 64

  datatype CmpOp = OpEq | OpNe | OpLt | OpLe | OpGt | OpGe

  datatype Ast =
    | Or(orLeft: Ast, orRight: Ast)
    | And(andLeft: Ast, andRight: Ast)
    | Cmp(op: CmpOp, left: Ast, right: Ast)
    | Not(child: Ast)
    | Field(first: Bytes, second: Option<Bytes>)
    | IntLit(ival: int)
    | StrLit(text: Bytes)

  function OpOf(t: Token): Option<CmpOp> {
    match t
    case Eq => Some(OpEq)
    case Ne => Some(OpNe)
    case Lt => Some(OpLt)
    case Le => Some(OpLe)
    case Gt => Some(OpGt)
    case Ge => Some(OpGe)
    case _ => None
  }

  function TokenOf(op: CmpOp): (t: Token)
    ensures OpOf(t) == Some(op)
  {
    match op
    case OpEq => Eq
    case OpNe => Ne
    case OpLt => Lt
    case OpLe => Le
    case OpGt => Gt
    case OpGe => Ge
  }

  /** The two escapes of string literals; any other is an error. */
  function Unescaped(raw: Bytes): Option<Bytes> {
    if raw == [] then Some([])
    else if raw[0] == BACKSLASH then
      if |raw| < 2 || (raw[1] != QUOTE && raw[1] != BACKSLASH) then None
      else match Unescaped(raw[2..])
        case None => None
        case Some(more) => Some([raw[1]] + more)
    else match Unescaped(raw[1..])
      case None => None
      case Some(more) => Some([raw[0]] + more)
  }

  /** Writing a string as a literal. */
  function Escaped(s: Bytes): Bytes {
    if s == [] then []
    else (if s[0] == QUOTE || s[0] == BACKSLASH then [BACKSLASH, s[0]] else [s[0]]) + Escaped(s[1..])
  }

  lemma {:induction false} UnescapeEscaped(s: Bytes)
    ensures Unescaped(Escaped(s)) == Some(s)
  {
    if s != [] {
      UnescapeEscaped(s[1..]);
      var e := Escaped(s);
      if s[0] == QUOTE || s[0] == BACKSLASH {
        assert e[2..] == Escaped(s[1..]);
      } else {
        assert e[1..] == Escaped(s[1..]);
      }
      assert s == [s[0]] + s[1..];
    }
  }

  lemma {:induction false} QuotedEscaped(s: Bytes, rest: Bytes)
    requires NUL !in s
    ensures Quoted(Escaped(s) + ([QUOTE] + rest)) == Ok((Escaped(s), rest))
  {
    var tail := [QUOTE] + rest;
    var lit := Escaped(s) + tail;
    if s == [] {
      assert lit == tail && lit[1..] == rest;
    } else {
      QuotedEscaped(s[1..], rest);
      var more := Escaped(s[1..]) + tail;
      if s[0] == QUOTE || s[0] == BACKSLASH {
        assert lit[2..] == more && lit[..2] == [BACKSLASH, s[0]];
      } else {
        assert lit[1..] == more && lit[..1] == [s[0]];
      }
    }
  }

  /** Every string without a NUL can be written between quotes and is read back. */
  lemma LiteralRoundTrip(s: Bytes, rest: Bytes)
    requires NUL !in s
    ensures var q := Quoted(Escaped(s) + ([QUOTE] + rest));
            q.Ok? && q.value.1 == rest && Unescaped(q.value.0) == Some(s)
  {
    hide Quoted, Unescaped, Escaped;
    QuotedEscaped(s, rest);
    UnescapeEscaped(s);
  }

  // ---- the parser on token sequences ----

  type Parsed = Option<(Ast, seq<Token>)>

  function First(ts: seq<Token>): Token { if ts == [] then End else ts[0] }

  function Primary(ts: seq<Token>, depth: nat): (r: Parsed)
    ensures r.Some? ==> |r.value.1| < |ts|
    decreases |ts|, 0
  {
    if depth > MAX_DEPTH || ts == [] then None
    else match ts[0]
      case Num(n) => Some((IntLit(n), ts[1..]))
      case Str(raw) => (match Unescaped(raw) case None => None case Some(s) => Some((StrLit(s), ts[1..])))
      case Ident(a) =>
        if First(ts[1..]) != Dot then Some((Field(a, None), ts[1..]))
        else if !First(ts[2..]).Ident? then None
        else Some((Field(a, Some(ts[2].name)), ts[3..]))
      case LParen =>
        (match Expr(ts[1..], depth + 1)
         case None => None
         case Some((inner, rest)) => if First(rest) == RParen then Some((inner, rest[1..])) else None)
      case Bang =>
        (match Primary(ts[1..], depth + 1) case None => None case Some((c, rest)) => Some((Not(c), rest)))
      case _ => None
  }

  function Comparison(ts: seq<Token>, depth: nat): (r: Parsed)
    ensures r.Some? ==> |r.value.1| < |ts|
    decreases |ts|, 1
  {
    if depth > MAX_DEPTH then None
    else match Primary(ts, depth + 1)
      case None => None
      case Some((l, rest)) =>
        match OpOf(First(rest))
        case None => Some((l, rest))
        case Some(op) =>
          match Primary(rest[1..], depth + 1)
          case None => None
          case Some((r, rest')) => Some((Cmp(op, l, r), rest'))
  }

  /** The loop over `&&`, with the tree built so far. */
  function AndTail(left: Ast, ts: seq<Token>, depth: nat): (r: Parsed)
    ensures r.Some? ==> |r.value.1| <= |ts|
    decreases |ts|, 2
  {
    if First(ts) != AndAnd then Some((left, ts))
    else match Comparison(ts[1..], depth + 1)
      case None => None
      case Some((r, rest)) => AndTail(And(left, r), rest, depth)
  }

  function Conjunction(ts: seq<Token>, depth: nat): (r: Parsed)
    ensures r.Some? ==> |r.value.1| < |ts|
    decreases |ts|, 3
  {
    if depth > MAX_DEPTH then None
    else match Comparison(ts, depth + 1)
      case None => None
      case Some((l, rest)) => AndTail(l, rest, depth)
  }

  /** The loop over `||`. */
  function OrTail(left: Ast, ts: seq<Token>, depth: nat): (r: Parsed)
    ensures r.Some? ==> |r.value.1| <= |ts|
    decreases |ts|, 4
  {
    if First(ts) != OrOr then Some((left, ts))
    else match Conjunction(ts[1..], depth + 1)
      case None => None
      case Some((r, rest)) => OrTail(Or(left, r), rest, depth)
  }

  function Expr(ts: seq<Token>, depth: nat): (r: Parsed)
    ensures r.Some? ==> |r.value.1| < |ts|
    decreases |ts|, 5
  {
    if depth > MAX_DEPTH then None
    else match Conjunction(ts, depth + 1)
      case None => None
      case Some((l, rest)) => OrTail(l, rest, depth)
  }

  /** A whole query. */
  function ParseTokens(ts: seq<Token>): Result<Ast> {
    match Expr(ts, 0)
    case None => Error(BadQuery)
    case Some((a, rest)) => if rest == [] then Ok(a) else Error(BadQuery)
  }

  // ---- the grammar, as derivations ----

  datatype Prim =
    | NumP(n: int) | StrP(raw: Bytes) | NameP(a: Bytes) | DottedP(q: Bytes, f: Bytes)
    | ParenP(e: Disj) | NotP(p: Prim)

  datatype Comp = OneC(p: Prim) | OpC(l: Prim, op: CmpOp, r: Prim)

  /** Left-associative chains. */
  datatype Conj = OneA(c: Comp) | MoreA(a: Conj, c: Comp)

  datatype Disj = OneO(a: Conj) | MoreO(o: Disj, a: Conj)

  function YieldP(p: Prim): seq<Token> {
    match p
    case NumP(n) => [Num(n)]
    case StrP(raw) => [Str(raw)]
    case NameP(a) => [Ident(a)]
    case DottedP(q, f) => [Ident(q), Dot, Ident(f)]
    case ParenP(e) => [LParen] + YieldO(e) + [RParen]
    case NotP(p') => [Bang] + YieldP(p')
  }

  function YieldC(c: Comp): seq<Token> {
    match c
    case OneC(p) => YieldP(p)
    case OpC(l, op, r) => YieldP(l) + [TokenOf(op)] + YieldP(r)
  }

  function YieldA(a: Conj): seq<Token> {
    match a
    case OneA(c) => YieldC(c)
    case MoreA(a', c) => YieldA(a') + [AndAnd] + YieldC(c)
  }

  function YieldO(o: Disj): seq<Token> {
    match o
    case OneO(a) => YieldA(a)
    case MoreO(o', a) => YieldO(o') + [OrOr] + YieldA(a)
  }

  /** String literals decode, and no rule is entered below the depth limit: the
      depth grows by one for each rule entered, hence by four for a parenthesis. */
  predicate FitsP(p: Prim, depth: nat) {
    depth <= MAX_DEPTH &&
    match p
    case StrP(raw) => Unescaped(raw).Some?
    case ParenP(e) => FitsO(e, depth + 1)
    case NotP(p') => FitsP(p', depth + 1)
    case _ => true
  }

  predicate FitsC(c: Comp, depth: nat) {
    depth <= MAX_DEPTH &&
    match c
    case OneC(p) => FitsP(p, depth + 1)
    case OpC(l, _, r) => FitsP(l, depth + 1) && FitsP(r, depth + 1)
  }

  predicate FitsA(a: Conj, depth: nat) {
    depth <= MAX_DEPTH &&
    match a
    case OneA(c) => FitsC(c, depth + 1)
    case MoreA(a', c) => FitsA(a', depth) && FitsC(c, depth + 1)
  }

  predicate FitsO(o: Disj, depth: nat) {
    depth <= MAX_DEPTH &&
    match o
    case OneO(a) => FitsA(a, depth + 1)
    case MoreO(o', a) => FitsO(o', depth) && FitsA(a, depth + 1)
  }

  function TreeP(p: Prim): Ast {
    match p
    case NumP(n) => IntLit(n)
    case StrP(raw) => StrLit(match Unescaped(raw) case Some(s) => s case None => [])
    case NameP(a) => Field(a, None)
    case DottedP(q, f) => Field(q, Some(f))
    case ParenP(e) => TreeO(e)
    case NotP(p') => Not(TreeP(p'))
  }

  function TreeC(c: Comp): Ast {
    match c
    case OneC(p) => TreeP(p)
    case OpC(l, op, r) => Cmp(op, TreeP(l), TreeP(r))
  }

  function TreeA(a: Conj): Ast {
    match a
    case OneA(c) => TreeC(c)
    case MoreA(a', c) => And(TreeA(a'), TreeC(c))
  }

  function TreeO(o: Disj): Ast {
    match o
    case OneO(a) => TreeA(a)
    case MoreO(o', a) => Or(TreeO(o'), TreeA(a))
  }

  // ---- every derivation is parsed ----

  predicate NoDot(rest: seq<Token>) { First(rest) != Dot }

  predicate NoOp(rest: seq<Token>) { NoDot(rest) && OpOf(First(rest)).None? }

  predicate NoAnd(rest: seq<Token>) { NoOp(rest) && First(rest) != AndAnd }

  predicate NoOr(rest: seq<Token>) { NoAnd(rest) && First(rest) != OrOr }

  lemma {:induction false} CompleteP(p: Prim, rest: seq<Token>, depth: nat)
    requires FitsP(p, depth) && NoDot(rest)
    ensures Primary(YieldP(p) + rest, depth) == Some((TreeP(p), rest))
    decreases p, 0
  {
    hide Unescaped, Expr, YieldO, TreeO, FitsO;
    var ts := YieldP(p) + rest;
    match p
    case ParenP(e) =>
      var after := [RParen] + rest;
      assert ts == [LParen] + (YieldO(e) + after) && ts[1..] == YieldO(e) + after && after[1..] == rest;
      CompleteO(e, after, depth + 1);
    case NotP(p') =>
      assert ts[1..] == YieldP(p') + rest;
      CompleteP(p', rest, depth + 1);
    case _ => CompleteLeaf(p, rest, depth);
  }

  lemma CompleteLeaf(p: Prim, rest: seq<Token>, depth: nat)
    requires !p.ParenP? && !p.NotP? && FitsP(p, depth) && NoDot(rest)
    ensures Primary(YieldP(p) + rest, depth) == Some((TreeP(p), rest))
  {
    hide Unescaped, Expr;
    var ts := YieldP(p) + rest;
    match p
    case NumP(_) => assert ts[1..] == rest;
    case StrP(_) => assert ts[1..] == rest;
    case NameP(_) => assert ts[1..] == rest;
    case DottedP(_, _) => assert ts[1..][0] == Dot && ts[2..][0] == ts[2] && ts[3..] == rest;
  }

  lemma {:induction false} CompleteC(c: Comp, rest: seq<Token>, depth: nat)
    requires FitsC(c, depth) && NoOp(rest)
    ensures Comparison(YieldC(c) + rest, depth) == Some((TreeC(c), rest))
    decreases c, 0
  {
    hide Primary, YieldP, TreeP;
    match c
    case OneC(p) => CompleteP(p, rest, depth + 1);
    case OpC(l, op, r) =>
      var after := [TokenOf(op)] + (YieldP(r) + rest);
      assert YieldC(c) + rest == YieldP(l) + after && after[1..] == YieldP(r) + rest;
      CompleteP(l, after, depth + 1);
      CompleteP(r, rest, depth + 1);
  }

  /** After a chain has been read the loop goes on with its tree. */
  lemma {:induction false} CompleteA(a: Conj, rest: seq<Token>, depth: nat)
    requires FitsA(a, depth) && NoOp(rest)
    ensures Conjunction(YieldA(a) + rest, depth) == AndTail(TreeA(a), rest, depth)
    decreases a, 0
  {
    hide Comparison, YieldC, TreeC;
    match a
    case OneA(c) => CompleteC(c, rest, depth + 1);
    case MoreA(a', c) =>
      var after := [AndAnd] + (YieldC(c) + rest);
      assert YieldA(a) + rest == YieldA(a') + after && after[1..] == YieldC(c) + rest;
      CompleteA(a', after, depth);
      CompleteC(c, rest, depth + 1);
  }

  lemma {:induction false} CompleteChain(o: Disj, rest: seq<Token>, depth: nat)
    requires FitsO(o, depth) && NoAnd(rest)
    ensures Expr(YieldO(o) + rest, depth) == OrTail(TreeO(o), rest, depth)
    decreases o, 0
  {
    hide Comparison, YieldA, TreeA, Conjunction;
    match o
    case OneO(a) =>
      CompleteA(a, rest, depth + 1);
      assert AndTail(TreeA(a), rest, depth + 1) == Some((TreeA(a), rest));
    case MoreO(o', a) =>
      var after := [OrOr] + (YieldA(a) + rest);
      assert YieldO(o) + rest == YieldO(o') + after && after[1..] == YieldA(a) + rest;
      CompleteChain(o', after, depth);
      CompleteA(a, rest, depth + 1);
      assert AndTail(TreeA(a), rest, depth + 1) == Some((TreeA(a), rest));
  }

  lemma CompleteO(o: Disj, rest: seq<Token>, depth: nat)
    requires FitsO(o, depth) && NoOr(rest)
    ensures Expr(YieldO(o) + rest, depth) == Some((TreeO(o), rest))
    decreases o, 1
  {
    hide Conjunction, YieldO, TreeO, Expr;
    CompleteChain(o, rest, depth);
  }

  // ---- whatever is parsed has a derivation ----

  lemma {:induction false} SoundP(ts: seq<Token>, depth: nat) returns (p: Prim)
    requires Primary(ts, depth).Some?
    ensures var (t, rest) := Primary(ts, depth).value;
            FitsP(p, depth) && TreeP(p) == t && YieldP(p) + rest == ts
    decreases |ts|, 0
  {
    if ts[0].LParen? {
      var e := SoundO(ts[1..], depth + 1);
      p := ParenSound(ts, depth, e);
    } else if ts[0].Bang? {
      var c := SoundP(ts[1..], depth + 1);
      p := NotP(c);
      assert ts == [Bang] + ts[1..];
    } else {
      p := LeafSound(ts, depth);
    }
  }

  lemma LeafSound(ts: seq<Token>, depth: nat) returns (p: Prim)
    requires Primary(ts, depth).Some? && !ts[0].LParen? && !ts[0].Bang?
    ensures var (t, rest) := Primary(ts, depth).value;
            FitsP(p, depth) && TreeP(p) == t && YieldP(p) + rest == ts
  {
    hide Unescaped, Expr;
    match ts[0]
    case Num(n) => p := NumP(n);
    case Str(raw) => p := StrP(raw);
    case Ident(a) =>
      if First(ts[1..]) != Dot {
        p := NameP(a);
      } else {
        p := DottedP(a, ts[2].name);
        assert ts[..3] == [ts[0], ts[1], ts[2]] && ts[1..][0] == ts[1] && ts[2..][0] == ts[2];
        assert ts == ts[..3] + ts[3..];
      }
  }

  lemma ParenSound(ts: seq<Token>, depth: nat, e: Disj) returns (p: Prim)
    requires Primary(ts, depth).Some? && ts[0].LParen?
    requires var (t, rest) := Expr(ts[1..], depth + 1).value;
             FitsO(e, depth + 1) && TreeO(e) == t && YieldO(e) + rest == ts[1..]
    ensures var (t, rest) := Primary(ts, depth).value;
            FitsP(p, depth) && TreeP(p) == t && YieldP(p) + rest == ts
  {
    hide Expr, FitsO, YieldO, TreeO;
    var (_, rest) := Expr(ts[1..], depth + 1).value;
    p := ParenP(e);
    assert rest == [RParen] + rest[1..];
    assert ts == [LParen] + (YieldO(e) + ([RParen] + rest[1..]));
  }

  lemma {:induction false} SoundC(ts: seq<Token>, depth: nat) returns (c: Comp)
    requires Comparison(ts, depth).Some?
    ensures var (t, rest) := Comparison(ts, depth).value;
            FitsC(c, depth) && TreeC(c) == t && YieldC(c) + rest == ts
    decreases |ts|, 1
  {
    hide Primary, YieldP, TreeP, FitsP;
    var l := SoundP(ts, depth + 1);
    var (_, rest) := Primary(ts, depth + 1).value;
    match OpOf(First(rest))
    case None => c := OneC(l);
    case Some(op) =>
      var r := SoundP(rest[1..], depth + 1);
      c := OpC(l, op, r);
      assert rest[0] == TokenOf(op) by { OpTokens(rest[0], op); }
      assert rest == [rest[0]] + rest[1..];
  }

  lemma OpTokens(t: Token, op: CmpOp)
    requires OpOf(t) == Some(op)
    ensures t == TokenOf(op)
  {
  }

  lemma {:induction false} SoundAndTail(a: Conj, ts: seq<Token>, depth: nat) returns (a': Conj)
    requires FitsA(a, depth) && AndTail(TreeA(a), ts, depth).Some?
    ensures var (t, rest) := AndTail(TreeA(a), ts, depth).value;
            FitsA(a', depth) && TreeA(a') == t && YieldA(a') + rest == YieldA(a) + ts
    decreases |ts|, 2
  {
    hide Comparison, YieldC, TreeC, FitsC;
    if First(ts) != AndAnd {
      a' := a;
    } else {
      var c := SoundC(ts[1..], depth + 1);
      var (_, rest) := Comparison(ts[1..], depth + 1).value;
      var m := MoreA(a, c);
      a' := SoundAndTail(m, rest, depth);
      assert ts == [AndAnd] + ts[1..];
      assert YieldA(m) + rest == YieldA(a) + ([AndAnd] + (YieldC(c) + rest));
    }
  }

  lemma {:induction false} SoundA(ts: seq<Token>, depth: nat) returns (a: Conj)
    requires Conjunction(ts, depth).Some?
    ensures var (t, rest) := Conjunction(ts, depth).value;
            FitsA(a, depth) && TreeA(a) == t && YieldA(a) + rest == ts
    decreases |ts|, 3
  {
    hide Comparison, YieldC, TreeC, FitsC, AndTail;
    var c := SoundC(ts, depth + 1);
    a := SoundAndTail(OneA(c), Comparison(ts, depth + 1).value.1, depth);
  }

  lemma {:induction false} SoundOrTail(o: Disj, ts: seq<Token>, depth: nat) returns (o': Disj)
    requires FitsO(o, depth) && OrTail(TreeO(o), ts, depth).Some?
    ensures var (t, rest) := OrTail(TreeO(o), ts, depth).value;
            FitsO(o', depth) && TreeO(o') == t && YieldO(o') + rest == YieldO(o) + ts
    decreases |ts|, 4
  {
    hide Conjunction, YieldA, TreeA, FitsA;
    if First(ts) != OrOr {
      o' := o;
    } else {
      var a := SoundA(ts[1..], depth + 1);
      var (_, rest) := Conjunction(ts[1..], depth + 1).value;
      var m := MoreO(o, a);
      o' := SoundOrTail(m, rest, depth);
      assert ts == [OrOr] + ts[1..];
      assert YieldO(m) + rest == YieldO(o) + ([OrOr] + (YieldA(a) + rest));
    }
  }

  lemma {:induction false} SoundO(ts: seq<Token>, depth: nat) returns (o: Disj)
    requires Expr(ts, depth).Some?
    ensures var (t, rest) := Expr(ts, depth).value;
            FitsO(o, depth) && TreeO(o) == t && YieldO(o) + rest == ts
    decreases |ts|, 5
  {
    hide Conjunction, YieldA, TreeA, FitsA, OrTail;
    var a := SoundA(ts, depth + 1);
    o := SoundOrTail(OneO(a), Conjunction(ts, depth + 1).value.1, depth);
  }

  // ---- the main theorem ----

  /** `o` derives the token string within the depth budget and has that tree. */
  predicate Derives(o: Disj, ts: seq<Token>, t: Ast) { FitsO(o, 0) && YieldO(o) == ts && TreeO(o) == t }

  /** The parser accepts exactly the token strings of the grammar within the depth
      budget and returns their tree. */
  lemma AcceptsGrammar(ts: seq<Token>, t: Ast)
    ensures ParseTokens(ts) == Ok(t) <==> exists o :: Derives(o, ts, t)
  {
    hide Expr, YieldO, TreeO, FitsO;
    if ParseTokens(ts) == Ok(t) {
      var o := SoundO(ts, 0);
      assert YieldO(o) + [] == YieldO(o);
      assert Derives(o, ts, t);
    }
    if exists o :: Derives(o, ts, t) {
      var o :| Derives(o, ts, t);
      CompleteO(o, [], 0);
      assert YieldO(o) + [] == ts;
    }
  }

  /** A token string has at most one tree. */
  lemma TreeIsUnique(ts: seq<Token>, o: Disj, o': Disj, t: Ast, t': Ast)
    requires Derives(o, ts, t) && Derives(o', ts, t')
    ensures t == t'
  {
    AcceptsGrammar(ts, t);
    AcceptsGrammar(ts, t');
  }

  // ---- how deep nesting may go ----

  function Parens(k: nat): (ts: seq<Token>)
    ensures ts != []
  {
    if k == 0 then [Num(0)] else [LParen] + Parens(k - 1) + [RParen]
  }

  function ParensDerivation(k: nat): Disj {
    OneO(OneA(OneC(if k == 0 then NumP(0) else ParenP(ParensDerivation(k - 1)))))
  }

  lemma {:induction false} ParensFit(k: nat, depth: nat)
    ensures YieldO(ParensDerivation(k)) == Parens(k)
    ensures FitsO(ParensDerivation(k), depth) <==> depth + 3 + 4 * k <= MAX_DEPTH
    decreases k
  {
    var p := if k == 0 then NumP(0) else ParenP(ParensDerivation(k - 1));
    var c := OneC(p);
    var a := OneA(c);
    assert ParensDerivation(k) == OneO(a);
    assert FitsA(a, depth + 1) <==> depth + 1 <= MAX_DEPTH && FitsC(c, depth + 2);
    assert FitsC(c, depth + 2) <==> depth + 2 <= MAX_DEPTH && FitsP(p, depth + 3);
    assert YieldA(a) == YieldC(c) == YieldP(p);
    if k > 0 {
      ParensFit(k - 1, depth + 4);
      assert YieldP(p) == [LParen] + YieldO(ParensDerivation(k - 1)) + [RParen];
    }
  }

  lemma {:induction false} TooDeep(k: nat, rest: seq<Token>, depth: nat)
    requires depth + 3 + 4 * k > MAX_DEPTH
    ensures Expr(Parens(k) + rest, depth) == None
    decreases k
  {
    var ts := Parens(k) + rest;
    if k > 0 {
      assert ts[1..] == Parens(k - 1) + ([RParen] + rest);
      TooDeep(k - 1, [RParen] + rest, depth + 4);
    }
    assert Primary(ts, depth + 3) == None;
    assert Comparison(ts, depth + 2) == None;
    assert Conjunction(ts, depth + 1) == None;
  }

  /** Fifteen parentheses are accepted, sixteen are not. */
  lemma NestingLimit(k: nat)
    ensures ParseTokens(Parens(k)).Ok? <==> k <= 15
  {
    hide Expr, YieldO, FitsO, TreeO;
    assert Parens(k) + [] == Parens(k);
    ParensFit(k, 0);
    if k <= 15 {
      CompleteO(ParensDerivation(k), [], 0);
    } else {
      TooDeep(k, [], 0);
    }
  }

  function Bangs(k: nat): seq<Token> { if k == 0 then [Num(0)] else [Bang] + Bangs(k - 1) }

  lemma {:induction false} BangsRead(k: nat, depth: nat)
    ensures Primary(Bangs(k), depth).Some? <==> depth + k <= 64
    ensures depth + k <= 64 ==> Primary(Bangs(k), depth).value.1 == []
  {
    if k > 0 {
      assert Bangs(k)[1..] == Bangs(k - 1);
      BangsRead(k - 1, depth + 1);
    } else {
      assert Bangs(0)[1..] == [];
    }
  }

  /** The depth budget to the last rule: 61 negations are accepted, 62 are not. */
  lemma NegationLimit(k: nat)
    ensures ParseTokens(Bangs(k)).Ok? <==> k <= 61
  {
    hide Primary;
    BangsRead(k, 3);
    var ts := Bangs(k);
    if k <= 61 {
      assert Comparison(ts, 2).Some? && Comparison(ts, 2).value.1 == [];
      assert Conjunction(ts, 1) == Some((Comparison(ts, 2).value.0, []));
      assert Expr(ts, 0) == Some((Comparison(ts, 2).value.0, []));
    } else {
      assert Comparison(ts, 2) == None;
      assert Conjunction(ts, 1) == None;
    }
  }
}
