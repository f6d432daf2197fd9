/** Dictionary codec with a self-describing phrase table, id 4 (src/codec/dict.c). */
module Dict {
  import opened Core

  const BLOCK := 4
  const MAX_ENTRIES := 65535

  type Phrase = Bytes

  // ---- partitioning and de-duplication ----

  function BlockCount(s: Bytes): nat { (|s| + BLOCK - 1) / BLOCK }

  /** Block `k`; only the last one may be shorter than four bytes. */
  function Block(s: Bytes, k: nat): (b: Phrase)
    requires k < BlockCount(s)
    ensures 1 <= |b| <= BLOCK
  {
    s[BLOCK * k..if BLOCK * k + BLOCK <= |s| then BLOCK * k + BLOCK else |s|]
  }

  /** First index of `p` from `i` on, or the length of the table. */
  function IndexFrom(table: seq<Phrase>, p: Phrase, i: nat): (k: nat)
    requires i <= |table|
    ensures i <= k <= |table|
    ensures k < |table| ==> table[k] == p
    ensures forall j | i <= j < k :: table[j] != p
    decreases |table| - i
  {
    if i == |table| || table[i] == p then i else IndexFrom(table, p, i + 1)
  }

  datatype Dictionary = Dictionary(entries: seq<Phrase>, tokens: seq<nat>)

  /** Dictionary `d` extended by the block `b`. */
  function Extend(d: Dictionary, b: Phrase): Dictionary {
    var token := IndexFrom(d.entries, b, 0);
    Dictionary(d.entries + (if token < |d.entries| then [] else [b]), d.tokens + [token])
  }

  /** Dictionary after the first `k` blocks. */
  function Build(s: Bytes, k: nat): Dictionary
    requires k <= BlockCount(s)
  {
    if k == 0 then Dictionary([], []) else Extend(Build(s, k - 1), Block(s, k - 1))
  }

  function Full(s: Bytes): Dictionary { Build(s, BlockCount(s)) }

  predicate InTable(tokens: seq<nat>, n: nat) {
    forall i | 0 <= i < |tokens| :: tokens[i] < n
  }

  // ---- layout ----

  function Table(entries: seq<Phrase>): Bytes {
    if entries == [] then [] else [|entries[0]| % 0x100] + entries[0] + Table(entries[1..])
  }

  function Tokens(tokens: seq<u16>): (s: Bytes)
    ensures |s| == 2 * |tokens|
  {
    if tokens == [] then [] else Le16(tokens[0]) + Tokens(tokens[1..])
  }

  function Layout(d: Dictionary): Bytes
    requires |d.entries| <= MAX_ENTRIES && InTable(d.tokens, |d.entries|)
  {
    Le16(|d.entries|) + (Table(d.entries) + Tokens(d.tokens))
  }

  function Encode(s: Bytes, cap: nat): Result<Bytes> {
    BuildFacts(s, BlockCount(s));
    var d := Full(s);
    if |d.entries| > MAX_ENTRIES then Error(Range) else Fit(Layout(d), cap)
  }

  // ---- decoding ----

  function ReadTable(e: Bytes, n: nat): Result<(seq<Phrase>, Bytes)> {
    if n == 0 then Ok(([], e))
    else if e == [] then Error(Truncated)
    else if |e| - 1 < e[0] then Error(Truncated)
    else
      var (table, rest) :- ReadTable(e[1 + e[0]..], n - 1);
      Ok(([e[1..1 + e[0]]] + table, rest))
  }

  function ReadTokens(table: seq<Phrase>, e: Bytes, cap: nat): Result<Bytes>
    decreases |e|
  {
    if e == [] then Ok([])
    else if |e| < 2 then Error(Truncated)
    else if FromLe16(e) >= |table| then Error(BadRecord)
    else
      var p := table[FromLe16(e)];
      if cap < |p| then Error(Range) else Prepend(p, ReadTokens(table, e[2..], cap - |p|))
  }

  function Decode(e: Bytes, cap: nat): Result<Bytes> {
    if |e| < 2 then Error(Truncated)
    else
      var (table, rest) :- ReadTable(e[2..], FromLe16(e));
      ReadTokens(table, rest, cap)
  }

  // ---- the dictionary is exact ----

  /** The bytes that the tokens from `k` on stand for. */
  ghost function Expand(entries: seq<Phrase>, tokens: seq<nat>): Bytes
    requires InTable(tokens, |entries|)
  {
    if tokens == [] then [] else entries[tokens[0]] + Expand(entries, tokens[1..])
  }

  ghost predicate Distinct(entries: seq<Phrase>) {
    forall i, j | 0 <= i < j < |entries| :: entries[i] != entries[j]
  }

  ghost predicate Short(entries: seq<Phrase>) {
    forall i | 0 <= i < |entries| :: |entries[i]| <= BLOCK
  }

  /** What holds of the dictionary once `k` blocks were seen. */
  ghost predicate Faithful(s: Bytes, k: nat, d: Dictionary)
    requires k <= BlockCount(s)
  {
    && Distinct(d.entries) && Short(d.entries)
    && |d.tokens| == k && InTable(d.tokens, |d.entries|)
    && forall i | 0 <= i < k :: d.entries[d.tokens[i]] == Block(s, i)
  }

  /** Entries are pairwise distinct, every token is below the entry count and
      names a phrase equal to its block. */
  lemma {:induction false} BuildFacts(s: Bytes, k: nat)
    requires k <= BlockCount(s)
    ensures Faithful(s, k, Build(s, k))
  {
    if k > 0 {
      BuildFacts(s, k - 1);
      ExtendFaithful(s, k - 1, Build(s, k - 1));
    }
  }

  lemma ExtendFaithful(s: Bytes, k: nat, d: Dictionary)
    requires k < BlockCount(s) && Faithful(s, k, d)
    ensures Faithful(s, k + 1, Extend(d, Block(s, k)))
  {
    var e := Extend(d, Block(s, k));
    forall i | 0 <= i < k + 1 ensures e.tokens[i] < |e.entries| && e.entries[e.tokens[i]] == Block(s, i) {
      if i < k { assert e.tokens[i] == d.tokens[i]; }
    }
  }

  ghost function Blocks(s: Bytes, k: nat): set<Phrase>
    requires k <= BlockCount(s)
  {
    set i | 0 <= i < k :: Block(s, i)
  }

  ghost function Members(entries: seq<Phrase>): set<Phrase> { set p | p in entries }

  lemma {:induction false} DistinctCount(entries: seq<Phrase>)
    requires Distinct(entries)
    ensures |Members(entries)| == |entries|
  {
    if entries != [] {
      var init, last := entries[..|entries| - 1], entries[|entries| - 1];
      DistinctCount(init);
      assert entries == init + [last];
      assert last !in init;
      assert Members(entries) == Members(init) + {last};
    }
  }

  lemma ExtendMembers(d: Dictionary, b: Phrase)
    ensures Members(Extend(d, b).entries) == Members(d.entries) + {b}
  {
    if IndexFrom(d.entries, b, 0) < |d.entries| {
      assert b in Members(d.entries) && d.entries + [] == d.entries;
    }
  }

  lemma {:induction false} EntriesAreBlocks(s: Bytes, k: nat)
    requires k <= BlockCount(s)
    ensures Members(Build(s, k).entries) == Blocks(s, k)
  {
    hide Extend, Block;
    if k > 0 {
      EntriesAreBlocks(s, k - 1);
      ExtendMembers(Build(s, k - 1), Block(s, k - 1));
      assert Blocks(s, k) == Blocks(s, k - 1) + {Block(s, k - 1)};
    }
  }

  /** Encoding fails for table size exactly when the input has more than 65535
      distinct blocks, and otherwise only for lack of room. */
  lemma EncodeFails(s: Bytes, cap: nat)
    ensures |Full(s).entries| == |Blocks(s, BlockCount(s))|
    ensures Encode(s, cap).Error? <==>
              (|Blocks(s, BlockCount(s))| > MAX_ENTRIES || (BuildFacts(s, BlockCount(s)); |Layout(Full(s))| > cap))
  {
    BuildFacts(s, BlockCount(s));
    DistinctCount(Full(s).entries);
    EntriesAreBlocks(s, BlockCount(s));
  }

  // ---- round trip ----

  lemma ReadEntryBack(p: Phrase, more: Bytes, n: nat)
    requires |p| <= BLOCK
    ensures ReadTable([|p| % 0x100] + p + more, n + 1)
         == match ReadTable(more, n)
            case Ok((table, rest)) => Ok(([p] + table, rest))
            case Error(e) => Error(e)
  {
    var e := [|p| % 0x100] + p + more;
    assert e[0] == |p| && e[1..1 + |p|] == p && e[1 + |p|..] == more;
  }

  lemma {:induction false} ReadTableBack(entries: seq<Phrase>, rest: Bytes)
    requires Short(entries)
    ensures ReadTable(Table(entries) + rest, |entries|) == Ok((entries, rest))
  {
    if entries != [] {
      var p, more := entries[0], entries[1..];
      ReadTableBack(more, rest);
      ReadEntryBack(p, Table(more) + rest, |more|);
      Assoc([|p| % 0x100] + p, Table(more), rest);
      assert entries == [p] + more;
    } else {
      assert Table(entries) + rest == rest;
    }
  }

  lemma {:induction false} ReadTokensBack(entries: seq<Phrase>, tokens: seq<u16>, cap: nat)
    requires InTable(tokens, |entries|)
    ensures ReadTokens(entries, Tokens(tokens), cap) == Fit(Expand(entries, tokens), cap)
    decreases |tokens|
  {
    if tokens != [] {
      var e, t := Tokens(tokens), tokens[0];
      Le16RoundTrip(t, Tokens(tokens[1..]));
      assert FromLe16(e) == t && e[2..] == Tokens(tokens[1..]);
      if |entries[t]| <= cap {
        ReadTokensBack(entries, tokens[1..], cap - |entries[t]|);
      }
    }
  }

  lemma {:induction false} ExpandBlocks(s: Bytes, entries: seq<Phrase>, tokens: seq<nat>, k: nat)
    requires k <= BlockCount(s) == |tokens|
    requires InTable(tokens, |entries|)
    requires forall i | 0 <= i < |tokens| :: entries[tokens[i]] == Block(s, i)
    ensures Expand(entries, tokens[k..]) == s[if BLOCK * k <= |s| then BLOCK * k else |s|..]
    decreases |tokens| - k
  {
    if k < |tokens| {
      ExpandBlocks(s, entries, tokens, k + 1);
      assert tokens[k..][1..] == tokens[k + 1..];
      var hi := if BLOCK * k + BLOCK <= |s| then BLOCK * k + BLOCK else |s|;
      assert s[BLOCK * k..] == s[BLOCK * k..hi] + s[hi..];
    }
  }

  /** Decoding inverts encoding, short last block included. */
  lemma RoundTrip(s: Bytes, cap: nat, outCap: nat)
    ensures var e := Encode(s, cap); e.Ok? ==> Decode(e.value, outCap) == Fit(s, outCap)
  {
    var n := BlockCount(s);
    BuildFacts(s, n);
    var d := Full(s);
    if |d.entries| <= MAX_ENTRIES {
      var body := Table(d.entries) + Tokens(d.tokens);
      var e := Layout(d);
      Le16RoundTrip(|d.entries|, body);
      assert e[2..] == body;
      ReadTableBack(d.entries, Tokens(d.tokens));
      ReadTokensBack(d.entries, d.tokens, outCap);
      ExpandBlocks(s, d.entries, d.tokens, 0);
      assert d.tokens[0..] == d.tokens && s[0..] == s;
    }
  }

  // ---- size ----

  lemma {:induction false} TableSnoc(entries: seq<Phrase>, p: Phrase)
    ensures Table(entries + [p]) == Table(entries) + ([|p| % 0x100] + p)
  {
    if entries == [] {
      assert Table([p]) == [|p| % 0x100] + p + Table([]);
      assert entries + [p] == [p];
    } else {
      TableSnoc(entries[1..], p);
      assert (entries + [p])[1..] == entries[1..] + [p];
    }
  }

  lemma ExtendTable(d: Dictionary, b: Phrase)
    ensures |Table(Extend(d, b).entries)| <= |Table(d.entries)| + 1 + |b|
  {
    TableSnoc(d.entries, b);
    assert d.entries + [] == d.entries;
  }

  lemma {:induction false} TableBound(s: Bytes, k: nat)
    requires k <= BlockCount(s)
    ensures |Table(Build(s, k).entries)| <= k + (if BLOCK * k <= |s| then BLOCK * k else |s|)
  {
    hide Extend;
    if k > 0 {
      TableBound(s, k - 1);
      ExtendTable(Build(s, k - 1), Block(s, k - 1));
    }
  }

  lemma SizeBound(s: Bytes, cap: nat)
    ensures var e := Encode(s, cap); e.Ok? ==> |e.value| <= 2 + |s| + 3 * BlockCount(s)
    ensures cap >= 2 + |s| + 3 * BlockCount(s) && Encode(s, cap).Error? ==> |Full(s).entries| > MAX_ENTRIES
  {
    BuildFacts(s, BlockCount(s));
    TableBound(s, BlockCount(s));
  }

  // ---- the loops ----

  lemma {:induction false} BuildGrows(s: Bytes, k: nat, n: nat)
    requires k <= n <= BlockCount(s)
    ensures Build(s, k).entries <= Build(s, n).entries
  {
    if k < n { BuildGrows(s, k, n - 1); }
  }

  /** Encoder bookkeeping: a table entry is a slice of the input. */
  datatype Slice = Slice(off: nat, len: nat)

  ghost predicate Denotes(input: Bytes, slices: seq<Slice>, entries: seq<Phrase>) {
    && |entries| <= |slices|
    && forall j | 0 <= j < |entries| ::
         && slices[j].off + slices[j].len <= |input|
         && input[slices[j].off..slices[j].off + slices[j].len] == entries[j]
  }

  /** The search loop over the entries found so far. */
  method FindEntry(input: Bytes, slices: array<Slice>, nent: nat, b: Phrase, ghost entries: seq<Phrase>)
    returns (j: nat)
    requires nent == |entries| && Denotes(input, slices[..], entries)
    ensures j == IndexFrom(entries, b, 0)
  {
    j := 0;
    while j < nent
      invariant j <= nent
      invariant IndexFrom(entries, b, 0) == IndexFrom(entries, b, j)
    {
      assert slices[..][j] == slices[j];
      if slices[j].len == |b| && input[slices[j].off..slices[j].off + slices[j].len] == b {
        return;
      }
      j := j + 1;
    }
  }

  /** One block: finds or adds its entry and gives its token; false when the
      table would exceed the u16 id space. */
  method Intern(input: Bytes, slices: array<Slice>, nent: nat, off: nat, len: nat, ghost entries: seq<Phrase>)
    returns (token: nat, count: nat, ok: bool)
    requires off + len <= |input| && len <= 255 && nent == |entries| < slices.Length
    requires Denotes(input, slices[..], entries)
    modifies slices
    ensures token == IndexFrom(entries, input[off..off + len], 0)
    ensures ok <==> token < nent || nent < MAX_ENTRIES
    ensures ok ==> count == nent + (if token < nent then 0 else 1)
    ensures ok ==> Denotes(input, slices[..], entries + if token < nent then [] else [input[off..off + len]])
  {
    token := FindEntry(input, slices, nent, input[off..off + len], entries);
    if token < nent {
      assert entries + [] == entries;
      return token, nent, true;
    }
    if nent >= MAX_ENTRIES {
      return token, nent, false;
    }
    ghost var before := slices[..];
    slices[nent] := Slice(off, len);
    assert slices[..] == before[nent := Slice(off, len)];
    return token, nent + 1, true;
  }

  ghost predicate Holds(input: Bytes, slices: seq<Slice>, tokens: seq<nat>, nent: nat, d: Dictionary) {
    nent == |d.entries| && tokens == d.tokens && Denotes(input, slices, d.entries)
  }

  /** One turn of the partition loop. */
  method CollectOne(input: Bytes, slices: array<Slice>, tokens: array<nat>, bi: nat, nent: nat, ghost d: Dictionary)
    returns (count: nat, ok: bool)
    requires slices.Length == tokens.Length == BlockCount(input) && bi < tokens.Length && nent < slices.Length
    requires Holds(input, slices[..], tokens[..bi], nent, d) && nent <= MAX_ENTRIES
    modifies slices, tokens
    ensures ok <==> |Extend(d, Block(input, bi)).entries| <= MAX_ENTRIES
    ensures ok ==> Holds(input, slices[..], tokens[..bi + 1], count, Extend(d, Block(input, bi)))
  {
    var off := bi * BLOCK;
    var len := if |input| - off > BLOCK then BLOCK else |input| - off;
    assert input[off..off + len] == Block(input, bi);
    var token;
    token, count, ok := Intern(input, slices, nent, off, len, d.entries);
    if ok {
      tokens[bi] := token;
      assert tokens[..bi + 1] == tokens[..bi] + [token];
    }
  }

  lemma BuildStep(s: Bytes, k: nat, d: Dictionary)
    requires k < BlockCount(s) && d == Build(s, k)
    ensures Extend(d, Block(s, k)) == Build(s, k + 1)
    ensures |Extend(d, Block(s, k)).entries| <= |Full(s).entries|
    ensures |Extend(d, Block(s, k)).entries| <= |d.entries| + 1
  {
    BuildGrows(s, k + 1, BlockCount(s));
  }

  lemma HeldCount(input: Bytes, slices: seq<Slice>, tokens: seq<nat>, nent: nat, d: Dictionary)
    requires Holds(input, slices, tokens, nent, d)
    ensures nent == |d.entries|
  {
  }

  lemma NothingHeld(input: Bytes, slices: seq<Slice>)
    requires |slices| == BlockCount(input)
    ensures Holds(input, slices, [], 0, Dictionary([], [])) && Build(input, 0) == Dictionary([], [])
  {
  }

  /** The partition loop. */
  method Collect(input: Bytes, slices: array<Slice>, tokens: array<nat>) returns (nent: nat, ok: bool)
    requires slices.Length == tokens.Length == BlockCount(input)
    modifies slices, tokens
    ensures ok <==> |Full(input).entries| <= MAX_ENTRIES
    ensures ok ==> Holds(input, slices[..], tokens[..], nent, Full(input))
  {
    hide Holds, Build, Extend;
    nent := 0;
    var n, bi: nat := BlockCount(input), 0;
    ghost var d := Dictionary([], []);
    NothingHeld(input, slices[..]);
    assert tokens[..0] == [];
    while bi < n
      invariant bi <= n && nent <= MAX_ENTRIES && nent <= bi
      invariant d == Build(input, bi)
      invariant Holds(input, slices[..], tokens[..bi], nent, d)
    {
      BuildStep(input, bi, d);
      HeldCount(input, slices[..], tokens[..bi], nent, d);
      nent, ok := CollectOne(input, slices, tokens, bi, nent, d);
      d := Extend(d, Block(input, bi));
      if !ok {
        return nent, false;
      }
      bi := bi + 1;
    }
    assert tokens[..n] == tokens[..];
    HeldCount(input, slices[..], tokens[..], nent, d);
    return nent, true;
  }

  /** Appends `bytes` at `o`, or reports that they do not fit. */
  method Put(bytes: Bytes, out: array<byte>, o: nat) returns (next: nat, ok: bool)
    requires o <= out.Length
    modifies out
    ensures ok <==> |bytes| <= out.Length - o
    ensures ok ==> next == o + |bytes| && out[..next] == old(out[..o]) + bytes
  {
    if out.Length - o < |bytes| {
      return o, false;
    }
    forall k | 0 <= k < |bytes| {
      out[o + k] := bytes[k];
    }
    return o + |bytes|, true;
  }

  /** Emits the phrase table. */
  method PutTable(input: Bytes, slices: array<Slice>, nent: nat, ghost entries: seq<Phrase>, out: array<byte>, start: nat)
    returns (o: nat, ok: bool)
    requires start <= out.Length && nent == |entries|
    requires Denotes(input, slices[..], entries)
    modifies out
    ensures ok <==> |Table(entries)| <= out.Length - start
    ensures ok ==> o == start + |Table(entries)| && out[..o] == old(out[..start]) + Table(entries)
  {
    o := start;
    ghost var whole := old(out[..start]) + Table(entries);
    assert entries[0..] == entries;
    for j := 0 to nent
      invariant start <= o <= out.Length
      invariant whole == out[..o] + Table(entries[j..])
    {
      assert slices[..][j] == slices[j];
      var p := input[slices[j].off..slices[j].off + slices[j].len];
      ghost var done := out[..o];
      assert entries[j..][1..] == entries[j + 1..];
      assert Table(entries[j..]) == [|p| % 0x100] + p + Table(entries[j + 1..]);
      Assoc(done, [|p| % 0x100] + p, Table(entries[j + 1..]));
      o, ok := Put([|p| % 0x100], out, o);
      if !ok {
        return o, false;
      }
      o, ok := Put(p, out, o);
      if !ok {
        return o, false;
      }
      Assoc(done, [|p| % 0x100], p);
    }
    return o, true;
  }

  method PutTokens(tokens: seq<u16>, out: array<byte>, start: nat) returns (o: nat, ok: bool)
    requires start <= out.Length
    modifies out
    ensures ok <==> |Tokens(tokens)| <= out.Length - start
    ensures ok ==> o == start + |Tokens(tokens)| && out[..o] == old(out[..start]) + Tokens(tokens)
  {
    o := start;
    ghost var whole := old(out[..start]) + Tokens(tokens);
    assert tokens[0..] == tokens;
    for bi := 0 to |tokens|
      invariant start <= o <= out.Length
      invariant whole == out[..o] + Tokens(tokens[bi..])
    {
      assert tokens[bi..][1..] == tokens[bi + 1..];
      Assoc(out[..o], Le16(tokens[bi]), Tokens(tokens[bi + 1..]));
      o, ok := Put(Le16(tokens[bi]), out, o);
      if !ok {
        return o, false;
      }
    }
    return o, true;
  }

  method EncodeInto(input: Bytes, out: array<byte>) returns (r: Result<nat>)
    modifies out
    ensures Delivers(r, out[..], Encode(input, out.Length))
  {
    hide Build, Table, Tokens;
    var n := BlockCount(input);
    var slices := new Slice[n](_ => Slice(0, 0));
    var tokens := new nat[n](_ => 0);
    var nent, fits := Collect(input, slices, tokens);
    BuildFacts(input, n);
    if !fits {
      return Error(Range);
    }
    ghost var d := Full(input);
    var ids: seq<u16> := tokens[..];
    assert out[..0] == [];
    var o, ok := Put(Le16(nent), out, 0);
    if !ok {
      return Error(Range);
    }
    o, ok := PutTable(input, slices, nent, d.entries, out, o);
    if !ok {
      return Error(Range);
    }
    o, ok := PutTokens(ids, out, o);
    if !ok {
      return Error(Range);
    }
    Assoc(Le16(nent), Table(d.entries), Tokens(ids));
    return Ok(o);
  }

  /** The table read so far, followed by what the remaining run reads. */
  ghost function After(table: seq<Phrase>, r: Result<(seq<Phrase>, Bytes)>): Result<(seq<Phrase>, Bytes)> {
    match r
    case Ok((more, rest)) => Ok((table + more, rest))
    case Error(e) => Error(e)
  }

  lemma AfterStep(table: seq<Phrase>, e: Bytes, n: nat)
    requires n > 0
    ensures After(table, ReadTable(e, n))
         == if e == [] || |e| - 1 < e[0] then Error(Truncated)
            else After(table + [e[1..1 + e[0]]], ReadTable(e[1 + e[0]..], n - 1))
  {
    if e != [] && |e| - 1 >= e[0] {
      var r := ReadTable(e[1 + e[0]..], n - 1);
      if r.Ok? { Assoc(table, [e[1..1 + e[0]]], r.value.0); }
    }
  }

  lemma AfterEnds(table: seq<Phrase>, e: Bytes, n: nat)
    ensures After(table, ReadTable(e, 0)) == Ok((table, e))
    ensures After([], ReadTable(e, n)) == ReadTable(e, n)
  {
    assert table + [] == table;
    var r := ReadTable(e, n);
    if r.Ok? { assert [] + r.value.0 == r.value.0; }
  }

  method ReadTableLoop(input: Bytes, start: nat, n: nat) returns (r: Result<(seq<Phrase>, nat)>)
    requires start <= |input|
    ensures match ReadTable(input[start..], n)
            case Ok((table, rest)) => r.Ok? && r.value.0 == table && start <= r.value.1 <= |input| && input[r.value.1..] == rest
            case Error(e) => r == Error(e)
  {
    hide ReadTable, After;
    var pos, table: seq<Phrase> := start, [];
    ghost var goal := ReadTable(input[start..], n);
    AfterEnds([], input[start..], n);
    for e := 0 to n
      invariant start <= pos <= |input|
      invariant goal == After(table, ReadTable(input[pos..], n - e))
    {
      AfterStep(table, input[pos..], n - e);
      if |input| - pos < 1 {
        return Error(Truncated);
      }
      var plen := input[pos];
      if |input| - pos - 1 < plen {
        return Error(Truncated);
      }
      assert input[pos..][1 + plen..] == input[pos + 1 + plen..];
      assert input[pos..][1..1 + plen] == input[pos + 1..pos + 1 + plen];
      table := table + [input[pos + 1..pos + 1 + plen]];
      pos := pos + 1 + plen;
    }
    AfterEnds(table, input[pos..], 0);
    return Ok((table, pos));
  }

  method DecodeInto(input: Bytes, out: array<byte>) returns (r: Result<nat>)
    modifies out
    ensures Delivers(r, out[..], Decode(input, out.Length))
  {
    if |input| < 2 {
      return Error(Truncated);
    }
    var read := ReadTableLoop(input, 2, FromLe16(input));
    if read.Error? {
      return Error(read.err);
    }
    var (table, pos) := read.value;
    var i: nat, o: nat := pos, 0;
    ghost var goal := Decode(input, out.Length);
    PrependNothing(goal);
    while i < |input|
      invariant i <= |input| && o <= out.Length
      invariant goal == Prepend(out[..o], ReadTokens(table, input[i..], out.Length - o))
    {
      if |input| - i < 2 {
        return Error(Truncated);
      }
      var id := FromLe16(input[i..]);
      assert input[i..][2..] == input[i + 2..];
      if id >= |table| {
        return Error(BadRecord);
      }
      ghost var done := out[..o];
      var next, ok := Put(table[id], out, o);
      if !ok {
        return Error(Range);
      }
      PrependMore(done, table[id], ReadTokens(table, input[i + 2..], out.Length - next));
      i, o := i + 2, next;
    }
    return Ok(o);
  }
}
