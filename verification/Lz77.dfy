/** LZ77 over a 4096-byte sliding window, id 3 (src/codec/lz77.c). */
module Lz77 {
  import opened Core

  const WINDOW := 4096
  const MIN_MATCH := 3
  const MAX_MATCH := 18

  // ---- longest-match search ----

  function MaxLen(s: Bytes, p: nat): nat
    requires p <= |s|
  {
    if |s| - p > MAX_MATCH then MAX_MATCH else |s| - p
  }

  /** The `n` bytes at `p` equal those `off` earlier. */
  ghost predicate Agree(s: Bytes, p: nat, off: nat, n: nat)
    requires off <= p && p + n <= |s|
  {
    forall i | p <= i < p + n :: s[i] == s[i - off]
  }

  /** Length of the match between positions `q` and `p`, given that `l` bytes agree. */
  function MatchFrom(s: Bytes, q: nat, p: nat, l: nat): (r: nat)
    requires q < p < |s| && l <= MaxLen(s, p)
    ensures l <= r <= MaxLen(s, p)
    decreases MaxLen(s, p) - l
  {
    if l < MaxLen(s, p) && s[q + l] == s[p + l] then MatchFrom(s, q, p, l + 1) else l
  }

  function MatchLen(s: Bytes, q: nat, p: nat): (r: nat)
    requires q < p < |s|
    ensures r <= MaxLen(s, p)
  {
    MatchFrom(s, q, p, 0)
  }

  lemma {:induction false} MatchAgrees(s: Bytes, q: nat, p: nat, l: nat)
    requires q < p < |s| && l <= MaxLen(s, p) && Agree(s, p, p - q, l)
    ensures var r := MatchFrom(s, q, p, l);
            Agree(s, p, p - q, r) && (r < MaxLen(s, p) ==> s[q + r] != s[p + r])
    decreases MaxLen(s, p) - l
  {
    if l < MaxLen(s, p) && s[q + l] == s[p + l] {
      assert Agree(s, p, p - q, l + 1);
      MatchAgrees(s, q, p, l + 1);
    }
  }

  function WindowStart(p: nat): nat { if p > WINDOW then p - WINDOW else 0 }

  datatype Found = Found(len: nat, off: nat)

  /** Scan the window from `q` on, keeping the best match; stop at the maximum length. */
  function Scan(s: Bytes, p: nat, q: nat, best: Found): Found
    requires q <= p < |s|
    decreases p - q
  {
    if q == p then best
    else
      var l := MatchLen(s, q, p);
      if l > best.len then
        if l == MaxLen(s, p) then Found(l, p - q) else Scan(s, p, q + 1, Found(l, p - q))
      else Scan(s, p, q + 1, best)
  }

  /** `dtl_lz77_find`: the best match, or length 0 when none reaches three bytes. */
  function Find(s: Bytes, p: nat): Found
    requires p < |s|
  {
    var best := Scan(s, p, WindowStart(p), Found(0, 0));
    if best.len < MIN_MATCH then Found(0, best.off) else best
  }

  /** A usable match: inside the window, and the bytes it names agree. */
  ghost predicate Usable(s: Bytes, p: nat, f: Found)
    requires p < |s|
  {
    && f.len <= MaxLen(s, p)
    && 1 <= f.off <= WINDOW && f.off <= p
    && Agree(s, p, f.off, f.len)
  }

  /** No window position before `q` matches more than `n` bytes. */
  ghost predicate NoneLonger(s: Bytes, p: nat, q: nat, n: nat)
    requires q <= p < |s|
  {
    forall x | WindowStart(p) <= x < q :: MatchLen(s, x, p) <= n
  }

  ghost predicate Best(s: Bytes, p: nat, q: nat, f: Found)
    requires q <= p < |s|
  {
    (f.len > 0 ==> Usable(s, p, f)) && NoneLonger(s, p, q, f.len)
  }

  lemma BestStep(s: Bytes, p: nat, q: nat, best: Found)
    requires WindowStart(p) <= q < p < |s| && Best(s, p, q, best)
    ensures var l := MatchLen(s, q, p);
            var next := if l > best.len then Found(l, p - q) else best;
            Best(s, p, q + 1, next) && (l == MaxLen(s, p) ==> Best(s, p, p, next))
  {
    MatchAgrees(s, q, p, 0);
  }

  lemma {:induction false} ScanIsLongest(s: Bytes, p: nat, q: nat, best: Found)
    requires WindowStart(p) <= q <= p < |s| && Best(s, p, q, best)
    ensures Best(s, p, p, Scan(s, p, q, best))
    decreases p - q
  {
    if q < p {
      BestStep(s, p, q, best);
      var l := MatchLen(s, q, p);
      var next := if l > best.len then Found(l, p - q) else best;
      if l > best.len && l == MaxLen(s, p) {
        assert Scan(s, p, q, best) == next;
      } else {
        ScanIsLongest(s, p, q + 1, next);
        assert Scan(s, p, q, best) == Scan(s, p, q + 1, next);
      }
    }
  }

  /** Every match the encoder uses is a longest one in the window. */
  lemma FindIsLongest(s: Bytes, p: nat)
    requires p < |s|
    ensures var f := Find(s, p);
            && (f.len == 0 || (MIN_MATCH <= f.len <= MAX_MATCH && Usable(s, p, f)))
            && NoneLonger(s, p, p, if f.len == 0 then MIN_MATCH - 1 else f.len)
  {
    ScanIsLongest(s, p, WindowStart(p), Found(0, 0));
  }

  lemma SlicesAgree(s: Bytes, x: nat, p: nat, n: nat)
    requires x < p < |s| && p + n <= |s| && s[x..x + n] == s[p..p + n]
    ensures Agree(s, p, p - x, n)
  {
    forall i | p <= i < p + n ensures s[i] == s[i - (p - x)] {
      assert s[p..p + n][i - p] == s[x..x + n][i - p];
    }
  }

  lemma MatchReaches(s: Bytes, x: nat, p: nat, n: nat)
    requires x < p < |s| && p + n <= |s| && n <= 18 && s[x..x + n] == s[p..p + n]
    ensures MatchLen(s, x, p) >= n
  {
    MatchAgrees(s, x, p, 0);
    SlicesAgree(s, x, p, n);
  }

  /** In plain terms: nothing in the last 4096 bytes repeats more of what comes next, up
      to 18 bytes, than the match found; and a match of fewer than three is none. */
  lemma LongestInWindow(s: Bytes, p: nat, x: nat, n: nat)
    requires x < p < |s| && p - x <= 4096 && n <= 18 && p + n <= |s| && s[x..x + n] == s[p..p + n]
    ensures var f := Find(s, p); n <= if f.len == 0 then 2 else f.len
    ensures var f := Find(s, p); f.len == 0 || (3 <= f.len <= 18 && 1 <= f.off <= 4096 && f.off <= p)
  {
    hide MatchFrom, Scan, Find;
    FindIsLongest(s, p);
    MatchReaches(s, x, p, n);
    assert WindowStart(p) <= x;
  }

  // ---- tokens ----

  datatype Token = Literal(b: byte) | Match(off: nat, len: nat)

  function TokenAt(s: Bytes, p: nat): Token
    requires p < |s|
  {
    var f := Find(s, p);
    if f.len >= MIN_MATCH then Match(f.off, f.len) else Literal(s[p])
  }

  function Width(t: Token): nat { if t.Match? then t.len else 1 }

  lemma TokenFits(s: Bytes, p: nat)
    requires p < |s|
    ensures var t := TokenAt(s, p);
            && 1 <= Width(t) <= |s| - p
            && Encodable(t)
            && (t.Match? ==> t.off <= p && Agree(s, p, t.off, t.len))
            && (t.Literal? ==> t.b == s[p])
  {
    FindIsLongest(s, p);
  }

  predicate Encodable(t: Token) {
    t.Match? ==> 1 <= t.off <= WINDOW && MIN_MATCH <= t.len <= MAX_MATCH
  }

  /** The greedy parse of `s` from `p` on. */
  function Parse(s: Bytes, p: nat): seq<Token>
    requires p <= |s|
    decreases |s| - p
  {
    if p == |s| then []
    else
      TokenFits(s, p);
      [TokenAt(s, p)] + Parse(s, p + Width(TokenAt(s, p)))
  }

  // ---- wire form: a flag byte before each run of up to eight tokens ----

  function TokenBytes(t: Token): (r: Bytes)
    requires Encodable(t)
    ensures 1 <= |r| <= 2
  {
    if t.Literal? then [t.b] else [(t.off - 1) % 0x100, (t.off - 1) / 0x100 * 0x10 + (t.len - MIN_MATCH)]
  }

  predicate AllEncodable(ts: seq<Token>) { forall i | 0 <= i < |ts| :: Encodable(ts[i]) }

  function Body(ts: seq<Token>): Bytes
    requires AllEncodable(ts)
  {
    if ts == [] then [] else TokenBytes(ts[0]) + Body(ts[1..])
  }

  /** Bit `i` of the flag byte says whether token `i` is a match. */
  function Flag(ts: seq<Token>): (f: nat)
    ensures f < Pow2(|ts|)
  {
    if ts == [] then 0 else (if ts[0].Match? then 1 else 0) + 2 * Flag(ts[1..])
  }

  predicate BitAt(flag: nat, i: nat)
    decreases i
  {
    if i == 0 then flag % 2 == 1 else BitAt(flag / 2, i - 1)
  }

  lemma FlagIsByte(ts: seq<Token>)
    requires |ts| <= 8
    ensures Flag(ts) < 0x100
  {
    Pow2Grows(|ts|, 8);
    assert Pow2(8) == 0x100;
  }

  lemma {:induction false} Pow2Grows(a: nat, b: nat)
    requires a <= b
    ensures Pow2(a) <= Pow2(b)
  {
    if a < b { Pow2Grows(a, b - 1); }
  }

  function Group(ts: seq<Token>): (r: Bytes)
    requires |ts| <= 8 && AllEncodable(ts)
    ensures r != []
  {
    FlagIsByte(ts);
    [Flag(ts)] + Body(ts)
  }

  function Serialize(ts: seq<Token>): Bytes
    requires AllEncodable(ts)
  {
    if ts == [] then []
    else if |ts| <= 8 then Group(ts)
    else Group(ts[..8]) + Serialize(ts[8..])
  }

  lemma {:induction false} ParseEncodable(s: Bytes, p: nat)
    requires p <= |s|
    ensures AllEncodable(Parse(s, p))
    decreases |s| - p
  {
    if p < |s| {
      TokenFits(s, p);
      ParseEncodable(s, p + Width(TokenAt(s, p)));
    }
  }

  function Encode(s: Bytes): Bytes {
    ParseEncodable(s, 0);
    Serialize(Parse(s, 0))
  }

  // ---- what tokens mean ----

  /** Byte-by-byte copy from `off` back, reading bytes it has just appended. */
  function Copy(out: Bytes, off: nat, len: nat): (r: Bytes)
    requires 1 <= off <= |out|
    ensures |r| == |out| + len
    decreases len
  {
    if len == 0 then out else Copy(out + [out[|out| - off]], off, len - 1)
  }

  ghost predicate Replayable(out: nat, ts: seq<Token>)
    decreases |ts|
  {
    ts == [] || ((ts[0].Match? ==> 1 <= ts[0].off <= out) && Replayable(out + Width(ts[0]), ts[1..]))
  }

  ghost function Apply(out: Bytes, t: Token): Bytes
    requires t.Match? ==> 1 <= t.off <= |out|
  {
    if t.Literal? then out + [t.b] else Copy(out, t.off, t.len)
  }

  ghost function Replay(out: Bytes, ts: seq<Token>): (r: Bytes)
    requires Replayable(|out|, ts)
    ensures |r| >= |out|
    decreases |ts|
  {
    if ts == [] then out else Replay(Apply(out, ts[0]), ts[1..])
  }

  /** An overlapping copy reproduces a match, however short its distance. */
  lemma {:induction false} CopyIsMatch(s: Bytes, p: nat, off: nat, len: nat)
    requires 1 <= off <= p && p + len <= |s| && Agree(s, p, off, len)
    ensures Copy(s[..p], off, len) == s[..p + len]
    decreases len
  {
    if len > 0 {
      assert s[p] == s[p - off];
      assert s[..p] + [s[p - off]] == s[..p + 1];
      CopyIsMatch(s, p + 1, off, len - 1);
    }
  }

  lemma TokenApplies(s: Bytes, p: nat)
    requires p < |s|
    ensures var t := TokenAt(s, p);
            && (t.Match? ==> 1 <= t.off <= p)
            && p + Width(t) <= |s|
            && Apply(s[..p], t) == s[..p + Width(t)]
  {
    var t := TokenAt(s, p);
    TokenFits(s, p);
    if t.Match? {
      CopyIsMatch(s, p, t.off, t.len);
    } else {
      assert s[..p] + [s[p]] == s[..p + 1];
    }
  }

  lemma ReplayCons(out: Bytes, t: Token, ts: seq<Token>)
    requires (t.Match? ==> 1 <= t.off <= |out|) && Replayable(|out| + Width(t), ts)
    ensures Replayable(|out|, [t] + ts) && Replay(out, [t] + ts) == Replay(Apply(out, t), ts)
  {
    assert ([t] + ts)[1..] == ts;
  }

  lemma {:induction false} ParseReplays(s: Bytes, p: nat)
    requires p <= |s|
    ensures Replayable(p, Parse(s, p)) && Replay(s[..p], Parse(s, p)) == s
    decreases |s| - p
  {
    if p < |s| {
      var t := TokenAt(s, p);
      TokenFits(s, p);
      TokenApplies(s, p);
      var next := p + Width(t);
      ParseReplays(s, next);
      ReplayCons(s[..p], t, Parse(s, next));
    } else {
      assert s[..p] == s;
    }
  }

  // ---- decoding ----

  /** `slack` is how far past the bytes written an offset may point before it is
      rejected. The header file documents 0; the code compares with `o + 1`, so
      its slack is 1 and an offset of exactly `o + 1` makes it read one byte
      before the output buffer. */
  function DecodeGroups(e: Bytes, out: Bytes, cap: nat, slack: nat): Result<Bytes>
    decreases |e|, 0
  {
    if e == [] then Ok(out) else DecodeTokens(e[1..], e[0], 0, out, cap, slack)
  }

  function DecodeTokens(e: Bytes, flag: nat, bit: nat, out: Bytes, cap: nat, slack: nat): Result<Bytes>
    decreases |e|, 1
  {
    if bit >= 8 || e == [] then DecodeGroups(e, out, cap, slack)
    else if BitAt(flag, bit) then
      if |e| < 2 then Error(Truncated)
      else if OffsetOf(e) > |out| + slack then Error(BadRecord)
      else if cap - |out| < LengthOf(e) then Error(Range)
      else if OffsetOf(e) > |out| then Error(OutOfBounds)
      else DecodeTokens(e[2..], flag, bit + 1, Copy(out, OffsetOf(e), LengthOf(e)), cap, slack)
    else if cap - |out| < 1 then Error(Range)
    else DecodeTokens(e[1..], flag, bit + 1, out + [e[0]], cap, slack)
  }

  function OffsetOf(e: Bytes): (off: nat)
    requires |e| >= 2
    ensures 1 <= off <= WINDOW
  {
    e[0] + 0x100 * (e[1] as int / 0x10) + 1
  }

  function LengthOf(e: Bytes): (len: nat)
    requires |e| >= 2
    ensures MIN_MATCH <= len <= MAX_MATCH
  {
    e[1] % 0x10 + MIN_MATCH
  }

  /** The decoder as written. */
  function Decode(e: Bytes, cap: nat): Result<Bytes> { DecodeGroups(e, [], cap, 1) }

  /** The decoder as documented. */
  function DocumentedDecode(e: Bytes, cap: nat): Result<Bytes> { DecodeGroups(e, [], cap, 0) }

  // ---- round trip ----

  lemma {:induction false} FlagBit(ts: seq<Token>, i: nat)
    requires i < |ts|
    ensures BitAt(Flag(ts), i) <==> ts[i].Match?
  {
    hide Pow2;
    FlagHead(ts);
    if i > 0 {
      hide Flag;
      FlagBit(ts[1..], i - 1);
    }
  }

  lemma FlagHead(ts: seq<Token>)
    requires ts != []
    ensures Flag(ts) / 2 == Flag(ts[1..]) && (Flag(ts) % 2 == 1 <==> ts[0].Match?)
  {
    hide Pow2;
    Halve(if ts[0].Match? then 1 else 0, Flag(ts[1..]));
  }

  lemma Halve(low: nat, high: nat)
    requires low <= 1
    ensures (low + 2 * high) / 2 == high && (low + 2 * high) % 2 == low
  {
  }

  lemma TokenBytesBack(t: Token, rest: Bytes)
    requires Encodable(t) && t.Match?
    ensures OffsetOf(TokenBytes(t) + rest) == t.off && LengthOf(TokenBytes(t) + rest) == t.len
  {
    var e := TokenBytes(t) + rest;
    assert e[0] == (t.off - 1) % 0x100 && e[1] == (t.off - 1) / 0x100 * 0x10 + (t.len - MIN_MATCH);
  }

  ghost function Capped(r: Bytes, cap: nat): Result<Bytes> { if |r| <= cap then Ok(r) else Error(Range) }

  /** One token is decoded to what it means, or RANGE when it does not fit. */
  lemma TokenDecodes(t: Token, rest: Bytes, flag: nat, bit: nat, out: Bytes, cap: nat, slack: nat)
    requires Encodable(t) && bit < 8 && (BitAt(flag, bit) <==> t.Match?)
    requires |out| <= cap && (t.Match? ==> t.off <= |out|)
    ensures DecodeTokens(TokenBytes(t) + rest, flag, bit, out, cap, slack)
         == if |out| + Width(t) <= cap then DecodeTokens(rest, flag, bit + 1, Apply(out, t), cap, slack)
            else Error(Range)
  {
    var e := TokenBytes(t) + rest;
    assert e[|TokenBytes(t)|..] == rest;
    if t.Match? { TokenBytesBack(t, rest); }
  }

  lemma ApplyGrows(out: Bytes, t: Token)
    requires t.Match? ==> 1 <= t.off <= |out|
    ensures |Apply(out, t)| == |out| + Width(t)
  {
  }

  ghost predicate FlagsMatch(flag: nat, bit: nat, ts: seq<Token>) {
    forall i | 0 <= i < |ts| :: BitAt(flag, bit + i) <==> ts[i].Match?
  }

  /** The tokens of one group are decoded in turn; then the next group starts. */
  lemma {:induction false} TokensDecode(
    ts: seq<Token>, rest: Bytes, flag: nat, bit: nat, out: Bytes, cap: nat, slack: nat)
    requires bit + |ts| <= 8 && AllEncodable(ts) && (bit + |ts| < 8 ==> rest == [])
    requires FlagsMatch(flag, bit, ts)
    requires |out| <= cap && Replayable(|out|, ts)
    ensures DecodeTokens(Body(ts) + rest, flag, bit, out, cap, slack)
         == var r := Replay(out, ts);
            if |r| <= cap then DecodeGroups(rest, r, cap, slack) else Error(Range)
    decreases |ts|
  {
    if ts == [] {
      assert Body(ts) + rest == rest;
    } else {
      var t, more := ts[0], ts[1..];
      assert BitAt(flag, bit + 0) <==> t.Match?;
      ApplyGrows(out, t);
      Assoc(TokenBytes(t), Body(more), rest);
      TokenDecodes(t, Body(more) + rest, flag, bit, out, cap, slack);
      if |out| + Width(t) <= cap {
        assert FlagsMatch(flag, bit + 1, more) by {
          forall i | 0 <= i < |more| ensures BitAt(flag, bit + 1 + i) <==> more[i].Match? {
            assert BitAt(flag, bit + (i + 1)) <==> ts[i + 1].Match?;
          }
        }
        TokensDecode(more, rest, flag, bit + 1, Apply(out, t), cap, slack);
      }
    }
  }

  lemma GroupDecodes(g: seq<Token>, tail: Bytes, out: Bytes, cap: nat, slack: nat)
    requires |g| <= 8 && AllEncodable(g) && (|g| < 8 ==> tail == [])
    requires |out| <= cap && Replayable(|out|, g)
    ensures DecodeGroups(Group(g) + tail, out, cap, slack)
         == var r := Replay(out, g);
            if |r| <= cap then DecodeGroups(tail, r, cap, slack) else Error(Range)
  {
    var e := Group(g) + tail;
    assert e[0] == Flag(g) && e[1..] == Body(g) + tail;
    forall i | 0 <= i < |g| ensures BitAt(Flag(g), 0 + i) <==> g[i].Match? {
      FlagBit(g, i);
    }
    TokensDecode(g, tail, Flag(g), 0, out, cap, slack);
  }

  lemma {:induction false} ReplaySplit(out: Bytes, ts: seq<Token>, k: nat)
    requires k <= |ts| && Replayable(|out|, ts)
    ensures Replayable(|out|, ts[..k]) && Replayable(|Replay(out, ts[..k])|, ts[k..])
    ensures Replay(out, ts) == Replay(Replay(out, ts[..k]), ts[k..])
    decreases k
  {
    if k == 0 {
      assert ts[..0] == [] && ts[0..] == ts;
    } else {
      ApplyGrows(out, ts[0]);
      ReplaySplit(Apply(out, ts[0]), ts[1..], k - 1);
      assert ts[1..][..k - 1] == ts[..k][1..] && ts[1..][k - 1..] == ts[k..];
    }
  }

  /** Tokens of the first group. */
  function FirstGroup(ts: seq<Token>): seq<Token> { if |ts| <= 8 then ts else ts[..8] }

  lemma SerializeFirst(ts: seq<Token>)
    requires ts != [] && AllEncodable(ts)
    ensures var g := FirstGroup(ts); var rest := ts[|g|..];
            && Serialize(ts) == Group(g) + Serialize(rest)
            && (|g| < 8 ==> rest == []) && ts[..|g|] == g
  {
    if |ts| <= 8 { assert Group(ts) + [] == Group(ts); }
  }

  /** The decoder, with either guard, undoes the serialisation of any token list
      whose offsets stay inside what was produced. */
  lemma {:induction false} SerializeDecodes(ts: seq<Token>, out: Bytes, cap: nat, slack: nat)
    requires AllEncodable(ts) && |out| <= cap && Replayable(|out|, ts)
    ensures DecodeGroups(Serialize(ts), out, cap, slack) == Capped(Replay(out, ts), cap)
    decreases |ts|
  {
    if ts != [] {
      var g := FirstGroup(ts);
      var rest := ts[|g|..];
      SerializeFirst(ts);
      ReplaySplit(out, ts, |g|);
      GroupDecodes(g, Serialize(rest), out, cap, slack);
      var mid := Replay(out, g);
      if |mid| <= cap {
        SerializeDecodes(rest, mid, cap, slack);
      }
    }
  }

  /** Decoding an encoding returns the input, or RANGE when it does not fit. */
  lemma RoundTrip(s: Bytes, cap: nat)
    ensures Decode(Encode(s), cap) == Fit(s, cap)
    ensures DocumentedDecode(Encode(s), cap) == Fit(s, cap)
  {
    ParseEncodable(s, 0);
    ParseReplays(s, 0);
    assert s[..0] == [];
    SerializeDecodes(Parse(s, 0), [], cap, 1);
    SerializeDecodes(Parse(s, 0), [], cap, 0);
  }

  // ---- the guard as written against the guard as documented ----

  /** Scanning the stream with a count of the bytes produced so far meets a match
      whose offset is one more than that count. */
  predicate OvershootsGroups(e: Bytes, produced: nat, cap: nat)
    decreases |e|, 0
  {
    e != [] && OvershootsTokens(e[1..], e[0], 0, produced, cap)
  }

  predicate OvershootsTokens(e: Bytes, flag: nat, bit: nat, produced: nat, cap: nat)
    decreases |e|, 1
  {
    if bit >= 8 || e == [] then OvershootsGroups(e, produced, cap)
    else if BitAt(flag, bit) then
      && |e| >= 2
      && (|| OffsetOf(e) == produced + 1
          || (OffsetOf(e) <= produced && LengthOf(e) <= cap - produced
              && OvershootsTokens(e[2..], flag, bit + 1, produced + LengthOf(e), cap)))
    else 1 <= cap - produced && OvershootsTokens(e[1..], flag, bit + 1, produced + 1, cap)
  }

  lemma {:induction false} GuardsGroups(e: Bytes, out: Bytes, cap: nat)
    ensures DecodeGroups(e, out, cap, 1) == DecodeGroups(e, out, cap, 0) <==> !OvershootsGroups(e, |out|, cap)
    ensures OvershootsGroups(e, |out|, cap) ==> DecodeGroups(e, out, cap, 0) == Error(BadRecord)
    ensures OvershootsGroups(e, |out|, cap) ==> DecodeGroups(e, out, cap, 1) in {Error(Range), Error(OutOfBounds)}
    ensures DecodeGroups(e, out, cap, 0) != Error(OutOfBounds)
    decreases |e|, 0
  {
    if e != [] { GuardsTokens(e[1..], e[0], 0, out, cap); }
  }

  lemma {:induction false} GuardsTokens(e: Bytes, flag: nat, bit: nat, out: Bytes, cap: nat)
    ensures DecodeTokens(e, flag, bit, out, cap, 1) == DecodeTokens(e, flag, bit, out, cap, 0)
            <==> !OvershootsTokens(e, flag, bit, |out|, cap)
    ensures OvershootsTokens(e, flag, bit, |out|, cap) ==> DecodeTokens(e, flag, bit, out, cap, 0) == Error(BadRecord)
    ensures OvershootsTokens(e, flag, bit, |out|, cap) ==>
              DecodeTokens(e, flag, bit, out, cap, 1) in {Error(Range), Error(OutOfBounds)}
    ensures DecodeTokens(e, flag, bit, out, cap, 0) != Error(OutOfBounds)
    decreases |e|, 1
  {
    if bit >= 8 || e == [] {
      GuardsGroups(e, out, cap);
    } else if BitAt(flag, bit) {
      if |e| >= 2 && OffsetOf(e) <= |out| && LengthOf(e) <= cap - |out| {
        GuardsTokens(e[2..], flag, bit + 1, Copy(out, OffsetOf(e), LengthOf(e)), cap);
      }
    } else if 1 <= cap - |out| {
      GuardsTokens(e[1..], flag, bit + 1, out + [e[0]], cap);
    }
  }

  /** The code does what its header documents exactly on the streams that never
      name an offset one past the bytes written; on the others the header says
      BADRECORD, while the code reports RANGE or reads outside its output. */
  lemma GuardDiffers(e: Bytes, cap: nat)
    ensures Decode(e, cap) == DocumentedDecode(e, cap) <==> !OvershootsGroups(e, 0, cap)
    ensures OvershootsGroups(e, 0, cap) ==>
              DocumentedDecode(e, cap) == Error(BadRecord) && Decode(e, cap) in {Error(Range), Error(OutOfBounds)}
  {
    GuardsGroups(e, [], cap);
  }

  /** A shortest stream on which the two differ: a match before any literal. */
  lemma GuardExample()
    ensures Decode([1, 0, 0], 3) == Error(OutOfBounds)
    ensures DocumentedDecode([1, 0, 0], 3) == Error(BadRecord)
  {
    var e: Bytes := [1, 0, 0];
    assert e[1..] == [0, 0];
  }

  // ---- size ----

  function TotalWidth(ts: seq<Token>): nat {
    if ts == [] then 0 else Width(ts[0]) + TotalWidth(ts[1..])
  }

  lemma WidthCons(t: Token, ts: seq<Token>)
    ensures TotalWidth([t] + ts) == Width(t) + TotalWidth(ts)
  {
    assert ([t] + ts)[1..] == ts;
  }

  lemma {:induction false} ParseWidth(s: Bytes, p: nat)
    requires p <= |s|
    ensures TotalWidth(Parse(s, p)) == |s| - p
    decreases |s| - p
  {
    if p < |s| {
      var t := TokenAt(s, p);
      TokenFits(s, p);
      var next := p + Width(t);
      ParseWidth(s, next);
      WidthCons(t, Parse(s, next));
    }
  }

  lemma {:induction false} BodySize(ts: seq<Token>)
    requires AllEncodable(ts)
    ensures |Body(ts)| <= TotalWidth(ts) && |ts| <= TotalWidth(ts)
  {
    if ts != [] {
      assert Encodable(ts[0]);
      BodySize(ts[1..]);
    }
  }

  lemma {:induction false} WidthSplit(ts: seq<Token>, k: nat)
    requires k <= |ts|
    ensures TotalWidth(ts) == TotalWidth(ts[..k]) + TotalWidth(ts[k..])
  {
    if k == 0 {
      assert ts[0..] == ts && ts[..0] == [];
    } else {
      WidthSplit(ts[1..], k - 1);
      assert ts[1..][..k - 1] == ts[..k][1..] && ts[1..][k - 1..] == ts[k..];
    }
  }

  lemma {:induction false} SerializeSize(ts: seq<Token>)
    requires AllEncodable(ts)
    ensures |Serialize(ts)| <= TotalWidth(ts) + (|ts| + 7) / 8
    decreases |ts|
  {
    if ts != [] {
      var g := FirstGroup(ts);
      SerializeFirst(ts);
      WidthSplit(ts, |g|);
      BodySize(g);
      SerializeSize(ts[|g|..]);
    }
  }

  /** At most one flag byte for every eight input bytes. */
  lemma SizeBound(s: Bytes)
    ensures |Encode(s)| <= |s| + (|s| + 7) / 8
  {
    ParseEncodable(s, 0);
    ParseWidth(s, 0);
    BodySize(Parse(s, 0));
    SerializeSize(Parse(s, 0));
  }

  // ---- the loops ----

  /** `dtl_lz77_find` as written: two nested loops and an early exit. */
  method FindMatch(input: Bytes, p: nat) returns (f: Found)
    requires p < |input|
    ensures f == Find(input, p)
  {
    var start := WindowStart(p);
    var maxlen := MaxLen(input, p);
    var best := Found(0, 0);
    var q := start;
    ghost var goal := Scan(input, p, start, Found(0, 0));
    while q < p
      invariant start <= q <= p
      invariant goal == Scan(input, p, q, best)
    {
      var l := MatchAt(input, q, p, maxlen);
      if l > best.len {
        best := Found(l, p - q);
        if l == maxlen {
          assert goal == best;
          break;
        }
      }
      q := q + 1;
    }
    return if best.len < MIN_MATCH then Found(0, best.off) else best;
  }

  method MatchAt(input: Bytes, q: nat, p: nat, maxlen: nat) returns (l: nat)
    requires q < p < |input| && maxlen == MaxLen(input, p)
    ensures l == MatchLen(input, q, p)
  {
    l := 0;
    while l < maxlen && input[q + l] == input[p + l]
      invariant l <= maxlen && Agree(input, p, p - q, l)
      invariant MatchLen(input, q, p) == MatchFrom(input, q, p, l)
    {
      l := l + 1;
    }
  }

  lemma {:induction false} FlagSnoc(ts: seq<Token>, t: Token)
    ensures Flag(ts + [t]) == Flag(ts) + if t.Match? then Pow2(|ts|) else 0
  {
    if ts == [] {
      assert ts + [t] == [t] && Flag([t]) == (if t.Match? then 1 else 0) + 2 * Flag([]);
    } else {
      FlagSnoc(ts[1..], t);
      assert (ts + [t])[1..] == ts[1..] + [t];
    }
  }

  lemma {:induction false} BodySnoc(ts: seq<Token>, t: Token)
    requires AllEncodable(ts) && Encodable(t)
    ensures Body(ts + [t]) == Body(ts) + TokenBytes(t)
  {
    if ts == [] {
      assert ts + [t] == [t] && Body([t]) == TokenBytes(t) + Body([]);
    } else {
      BodySnoc(ts[1..], t);
      assert (ts + [t])[1..] == ts[1..] + [t];
    }
  }

  lemma {:induction false} BodyAtMostTwice(ts: seq<Token>)
    requires AllEncodable(ts)
    ensures |Body(ts)| <= 2 * |ts|
  {
    if ts != [] { BodyAtMostTwice(ts[1..]); }
  }

  /** The open group: its flag byte and token bytes, not yet flushed. */
  ghost predicate Pending(group: Bytes, len: nat, flag: nat, ts: seq<Token>) {
    && |group| == 17 && |ts| <= 8 && AllEncodable(ts)
    && len == 1 + |Body(ts)| <= 17
    && group[1..len] == Body(ts)
    && flag == Flag(ts)
  }

  /** Adds a token to the open group. */
  method AddToken(t: Token, group: array<byte>, len: nat, flag: nat, tokens: nat, ghost ts: seq<Token>)
    returns (len': nat, flag': nat)
    requires Encodable(t) && tokens == |ts| < 8 && Pending(group[..], len, flag, ts)
    modifies group
    ensures Pending(group[..], len', flag', ts + [t])
  {
    FlagSnoc(ts, t);
    BodySnoc(ts, t);
    BodyAtMostTwice(ts);
    len', flag' := len, flag;
    var b := TokenBytes(t);
    if t.Match? {
      flag' := flag + Pow2(tokens);
      group[len], group[len + 1] := b[0], b[1];
      len' := len + 2;
    } else {
      group[len] := b[0];
      len' := len + 1;
    }
    assert group[1..len'] == group[1..len] + b;
  }

  /** Writes the open group out; false when it does not fit. */
  method Flush(group: array<byte>, len: nat, flag: nat, out: array<byte>, o: nat, ghost ts: seq<Token>)
    returns (next: nat, ok: bool)
    requires Pending(group[..], len, flag, ts) && o <= out.Length && group != out
    modifies group, out
    ensures ok <==> len <= out.Length - o
    ensures len == |Group(ts)|
    ensures ok ==> next == o + len && out[..next] == old(out[..o]) + Group(ts)
  {
    if out.Length - o < len {
      return o, false;
    }
    FlagIsByte(ts);
    group[0] := flag;
    ghost var done := out[..o];
    assert group[..len] == Group(ts) by {
      assert group[..len] == [group[0]] + group[1..len];
      assert group[1..len] == old(group[..])[1..len];
    }
    for k := 0 to len
      invariant out[..o + k] == done + group[..k]
      invariant group[..len] == Group(ts)
    {
      out[o + k] := group[k];
    }
    return o + len, true;
  }

  /** The whole output is what was flushed, then the open group and the tokens to come. */
  ghost predicate Encoding(goal: Bytes, done: Bytes, ts: seq<Token>, rest: seq<Token>) {
    AllEncodable(ts + rest) && goal == done + Serialize(ts + rest)
  }

  lemma TokenStep(goal: Bytes, done: Bytes, ts: seq<Token>, t: Token, rest: seq<Token>)
    requires Encoding(goal, done, ts, [t] + rest)
    ensures Encoding(goal, done, ts + [t], rest)
  {
    Assoc(ts, [t], rest);
  }

  lemma FlushStep(goal: Bytes, done: Bytes, ts: seq<Token>, rest: seq<Token>)
    requires 1 <= |ts| <= 8 && AllEncodable(ts) && (|ts| < 8 ==> rest == []) && Encoding(goal, done, ts, rest)
    ensures Encoding(goal, done + Group(ts), [], rest)
    ensures |goal| >= |done| + |Group(ts)|
  {
    var all := ts + rest;
    SerializeFirst(all);
    assert FirstGroup(all) == ts && all[|ts|..] == rest;
    assert [] + rest == rest;
    Assoc(done, Group(ts), Serialize(rest));
  }

  lemma ParseStep(s: Bytes, p: nat)
    requires p < |s|
    ensures var t := TokenAt(s, p);
            && Encodable(t) && p + Width(t) <= |s|
            && Parse(s, p) == [t] + Parse(s, p + Width(t))
  {
    TokenFits(s, p);
  }

  method TokenOf(input: Bytes, p: nat) returns (t: Token, width: nat)
    requires p < |input|
    ensures Encodable(t) && 1 <= width <= |input| - p
    ensures Parse(input, p) == [t] + Parse(input, p + width)
  {
    var f := FindMatch(input, p);
    ParseStep(input, p);
    if f.len >= MIN_MATCH {
      return Match(f.off, f.len), f.len;
    } else {
      return Literal(input[p]), 1;
    }
  }

  /** Closes the open group when it holds eight tokens. */
  method FlushIfFull(group: array<byte>, len: nat, flag: nat, tokens: nat, out: array<byte>, o: nat,
                     ghost goal: Bytes, ghost ts: seq<Token>, ghost rest: seq<Token>)
    returns (len': nat, flag': nat, tokens': nat, o': nat, ok: bool, ghost ts': seq<Token>)
    requires o <= out.Length && group != out && tokens == |ts|
    requires Pending(group[..], len, flag, ts) && Encoding(goal, out[..o], ts, rest)
    modifies group, out
    ensures !ok ==> |goal| > out.Length
    ensures ok ==> o' <= out.Length && tokens' == |ts'| < 8
    ensures ok ==> Pending(group[..], len', flag', ts') && Encoding(goal, out[..o'], ts', rest)
  {
    len', flag', tokens', o', ok, ts' := len, flag, tokens, o, true, ts;
    if tokens == 8 {
      FlushStep(goal, out[..o], ts, rest);
      o', ok := Flush(group, len, flag, out, o, ts);
      len', flag', tokens', ts' := 1, 0, 0, [];
    }
  }

  /** Closes the last, partial group. */
  method FlushTail(group: array<byte>, len: nat, flag: nat, tokens: nat, out: array<byte>, o: nat,
                   ghost goal: Bytes, ghost ts: seq<Token>) returns (r: Result<nat>)
    requires o <= out.Length && group != out && tokens == |ts| < 8
    requires Pending(group[..], len, flag, ts) && Encoding(goal, out[..o], ts, [])
    modifies group, out
    ensures Delivers(r, out[..], Fit(goal, out.Length))
  {
    assert ts + [] == ts;
    if tokens == 0 {
      return Ok(o);
    }
    FlushStep(goal, out[..o], ts, []);
    var next, ok := Flush(group, len, flag, out, o, ts);
    return if ok then Ok(next) else Error(Range);
  }

  lemma EncodingStarts(s: Bytes, group: Bytes)
    requires |group| == 17
    ensures Pending(group, 1, 0, []) && Encoding(Encode(s), [], [], Parse(s, 0)) && Parse(s, |s|) == []
  {
    ParseEncodable(s, 0);
    assert [] + Parse(s, 0) == Parse(s, 0) && group[1..1] == [];
    assert [] + Serialize(Parse(s, 0)) == Serialize(Parse(s, 0));
  }

  method EncodeInto(input: Bytes, out: array<byte>) returns (r: Result<nat>)
    modifies out
    ensures Delivers(r, out[..], Fit(Encode(input), out.Length))
  {
    hide Pending, Encoding, Parse, Encode;
    var p: nat, o: nat, ok := 0, 0, true;
    var group := new byte[17](_ => 0);
    var len: nat, tokens: nat, flag: nat := 1, 0, 0;
    ghost var ts: seq<Token>, rest: seq<Token>, goal := [], Parse(input, 0), Encode(input);
    EncodingStarts(input, group[..]);
    assert out[..0] == [];
    while p < |input|
      invariant p <= |input| && o <= out.Length && rest == Parse(input, p)
      invariant tokens == |ts| < 8 && Pending(group[..], len, flag, ts)
      invariant Encoding(goal, out[..o], ts, rest)
    {
      var t, width := TokenOf(input, p);
      len, flag := AddToken(t, group, len, flag, tokens, ts);
      p, rest := p + width, rest[1..];
      TokenStep(goal, out[..o], ts, t, rest);
      ts := ts + [t];
      len, flag, tokens, o, ok, ts := FlushIfFull(group, len, flag, tokens + 1, out, o, goal, ts, rest);
      if !ok {
        return Error(Range);
      }
    }
    r := FlushTail(group, len, flag, tokens, out, o, goal, ts);
  }

  /** The overlapping copy, one byte at a time. */
  method CopyBack(out: array<byte>, o: nat, offset: nat, length: nat)
    requires 1 <= offset <= o && o + length <= out.Length
    modifies out
    ensures out[..o + length] == Copy(old(out[..o]), offset, length)
  {
    var src := o - offset;
    ghost var goal := Copy(out[..o], offset, length);
    for k := 0 to length
      invariant goal == Copy(out[..o + k], offset, length - k)
    {
      out[o + k] := out[src + k];
      assert out[..o + k + 1] == out[..o + k] + [out[src + k]];
    }
  }

  /** One turn of the token loop: the token at `i`, flagged as a match or not.
      OUT OF BOUNDS stands for the read at index -1 that the guard lets through. */
  method DecodeOne(input: Bytes, i: nat, isMatch: bool, out: array<byte>, o: nat)
    returns (i': nat, o': nat, r: Result<()>)
    requires i < |input| && o <= out.Length
    modifies out
    ensures r.Ok? ==> i < i' <= |input| && o' <= out.Length
    ensures forall flag: nat, bit: nat | bit < 8 && (BitAt(flag, bit) <==> isMatch) ::
              DecodeTokens(input[i..], flag, bit, old(out[..o]), out.Length, 1) ==
                if r.Ok? then DecodeTokens(input[i'..], flag, bit + 1, out[..o'], out.Length, 1) else Error(r.err)
  {
    i', o' := i, o;
    if isMatch {
      if |input| - i < 2 {
        return i, o, Error(Truncated);
      }
      var offset, length := OffsetOf(input[i..]), LengthOf(input[i..]);
      assert input[i..][2..] == input[i + 2..];
      if offset > o + 1 {
        return i, o, Error(BadRecord);
      }
      if out.Length - o < length {
        return i, o, Error(Range);
      }
      if offset == o + 1 {
        return i, o, Error(OutOfBounds);
      }
      CopyBack(out, o, offset, length);
      return i + 2, o + length, Ok(());
    } else {
      if out.Length - o < 1 {
        return i, o, Error(Range);
      }
      ghost var done := out[..o];
      out[o] := input[i];
      assert out[..o + 1] == done + [input[i]];
      assert input[i..][1..] == input[i + 1..];
      return i + 1, o + 1, Ok(());
    }
  }

  method DecodeInto(input: Bytes, out: array<byte>) returns (r: Result<nat>)
    modifies out
    ensures Delivers(r, out[..], Decode(input, out.Length))
  {
    var i: nat, o: nat := 0, 0;
    ghost var goal := Decode(input, out.Length);
    assert input[0..] == input && out[..0] == [];
    while i < |input|
      invariant i <= |input| && o <= out.Length
      invariant goal == DecodeGroups(input[i..], out[..o], out.Length, 1)
    {
      var flag: nat := input[i];
      assert input[i..][1..] == input[i + 1..];
      i := i + 1;
      var bit := 0;
      while bit < 8 && i < |input|
        invariant bit <= 8 && i <= |input| && o <= out.Length
        invariant goal == DecodeTokens(input[i..], flag, bit, out[..o], out.Length, 1)
        decreases |input| - i
      {
        var next, end, step := DecodeOne(input, i, BitAt(flag, bit), out, o);
        if step.Error? {
          return Error(step.err);
        }
        i, o, bit := next, end, bit + 1;
      }
    }
    return Ok(o);
  }
}
