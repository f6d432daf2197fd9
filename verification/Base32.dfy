/** Base32 text codec, id 6 (src/codec/base32.c, section 6 of RFC 4648). */
module Base32 {
  import opened Core

  const PAD: byte := 61 // '='

  function AlphabetChar(v: int): byte
    requires 0 <= v < 32
  {
    if v < 26 then 65 + v else 24 + v // 'A'..'Z', then '2'..'7'
  }

  /** Position in the alphabet, or -1. */
  function Reverse(c: byte): (v: int)
    ensures -1 <= v < 32
  {
    if 65 <= c <= 90 then c - 65 else if 50 <= c <= 55 then c - 24 else -1
  }

  predicate IsData(c: byte) { Reverse(c) >= 0 }

  /** Significant characters of a group of `b` bytes. */
  function Chars(b: nat): nat
    requires 1 <= b <= 5
  {
    if b == 1 then 2 else if b == 2 then 4 else if b == 3 then 5 else if b == 4 then 7 else 8
  }

  /** Data bytes of a group that ends in `pad` padding characters; 0 if illegal. */
  function DataBytes(pad: nat): nat {
    if pad == 0 then 5 else if pad == 1 then 4 else if pad == 3 then 3
    else if pad == 4 then 2 else if pad == 6 then 1 else 0
  }

  // ---- the 40-bit accumulator ----

  function Shr5(acc: nat, k: nat): nat { if k == 0 then acc else Shr5(acc, k - 1) / 32 }

  function Shl5(v: nat, k: nat): nat { if k == 0 then v else 32 * Shl5(v, k - 1) }

  function Shr8(acc: nat, k: nat): nat { if k == 0 then acc else Shr8(acc, k - 1) / 256 }

  function Shl8(v: nat, k: nat): nat { if k == 0 then v else 256 * Shl8(v, k - 1) }

  /** Accumulator after the first `n` bytes of a group. */
  function ByteSum(g: Bytes, n: nat): nat
    requires n <= |g| <= 5
  {
    if n == 0 then 0 else ByteSum(g, n - 1) + Shl8(g[n - 1], 5 - n)
  }

  /** Accumulator after the first `n` characters of a group. */
  function CharSum(grp: Bytes, n: nat): nat
    requires n <= |grp| <= 8
    requires forall j | 0 <= j < n :: IsData(grp[j])
  {
    if n == 0 then 0
    else
      assert IsData(grp[n - 1]);
      CharSum(grp, n - 1) + Shl5(Reverse(grp[n - 1]), 8 - n)
  }

  function GroupChar(acc: nat, chars: nat, j: nat): byte
    requires j < 8
  {
    if j < chars then AlphabetChar(Shr5(acc, 7 - j) % 32) else PAD
  }

  function EncodeGroup(g: Bytes): (r: Bytes)
    requires 1 <= |g| <= 5
    ensures |r| == 8
  {
    seq(8, j requires 0 <= j < 8 => GroupChar(ByteSum(g, |g|), Chars(|g|), j))
  }

  function Encode(s: Bytes): Bytes {
    if s == [] then []
    else if |s| <= 5 then EncodeGroup(s)
    else EncodeGroup(s[..5]) + Encode(s[5..])
  }

  function Padding(grp: Bytes): (pad: nat)
    ensures pad <= |grp|
    ensures forall i | |grp| - pad <= i < |grp| :: grp[i] == PAD
    ensures pad < |grp| ==> grp[|grp| - pad - 1] != PAD
  {
    if grp == [] || grp[|grp| - 1] != PAD then 0 else 1 + Padding(grp[..|grp| - 1])
  }

  predicate DataPrefix(grp: Bytes, n: nat) {
    forall j | 0 <= j < n && j < |grp| :: IsData(grp[j])
  }

  function GroupBytes(acc: nat, n: nat): (r: Bytes)
    requires n <= 5
    ensures |r| == n
  {
    seq(n, k requires 0 <= k < n => Shr8(acc, 4 - k) % 256)
  }

  /** One group of eight characters; only the last may be padded. */
  function DecodeGroup(grp: Bytes, last: bool): Result<Bytes>
    requires |grp| == 8
  {
    var pad := Padding(grp);
    if !last && pad != 0 then Error(BadRecord)
    else if DataBytes(pad) == 0 then Error(BadRecord)
    else if !DataPrefix(grp, 8 - pad) then Error(BadRecord)
    else Ok(GroupBytes(CharSum(grp, 8 - pad), DataBytes(pad)))
  }

  function DecodeGroups(e: Bytes, cap: nat): Result<Bytes>
    requires |e| % 8 == 0
  {
    if e == [] then Ok([])
    else
      var bytes :- DecodeGroup(e[..8], |e| == 8);
      if cap < |bytes| then Error(Range)
      else Prepend(bytes, DecodeGroups(e[8..], cap - |bytes|))
  }

  function Decode(e: Bytes, cap: nat): Result<Bytes> {
    if |e| % 8 != 0 then Error(Truncated) else DecodeGroups(e, cap)
  }

  // ---- sizes ----

  lemma {:induction false} Length(s: Bytes)
    ensures |Encode(s)| == 8 * ((|s| + 4) / 5)
  {
    if |s| > 5 { Length(s[5..]); }
  }

  // ---- one group ----

  lemma {:induction false} Shl5Add(a: nat, d: nat, k: nat)
    ensures Shl5(32 * a + d, k) == Shl5(a, k + 1) + Shl5(d, k)
  {
    if k > 0 { Shl5Add(a, d, k - 1); }
  }

  /** The first `n` characters spell the top `5 * n` bits of the accumulator. */
  lemma {:induction false} CharsSpell(grp: Bytes, acc: nat, n: nat)
    requires n <= 8 && |grp| == 8 && Shr5(acc, 8) == 0
    requires forall j | 0 <= j < n :: grp[j] == AlphabetChar(Shr5(acc, 7 - j) % 32)
    ensures DataPrefix(grp, n) && CharSum(grp, n) == Shl5(Shr5(acc, 8 - n), 8 - n)
  {
    if n > 0 {
      CharsSpell(grp, acc, n - 1);
      var q := Shr5(acc, 8 - n);
      assert Shr5(acc, 9 - n) == q / 32;
      Shl5Add(q / 32, q % 32, 8 - n);
      assert q == 32 * (q / 32) + q % 32;
    } else {
      assert Shl5(0, 8) == 0;
    }
  }

  /** The accumulator of a group: its bytes, and why the padded bits are zero. */
  lemma GroupAccumulator(g: Bytes)
    requires 1 <= |g| <= 5
    ensures var acc := ByteSum(g, |g|); var n := Chars(|g|);
            && Shr5(acc, 8) == 0
            && Shl5(Shr5(acc, 8 - n), 8 - n) == acc
            && GroupBytes(acc, |g|) == g
  {
    var acc := ByteSum(g, |g|);
    var a: int, b: int, c: int, d: int, e: int := g[0],
      if |g| > 1 then g[1] else 0, if |g| > 2 then g[2] else 0,
      if |g| > 3 then g[3] else 0, if |g| > 4 then g[4] else 0;
    GroupValue(g, a, b, c, d, e);
    ByteDigits(a, b, c, d, e);
    CharDigits(acc);
    GroupDivides(g, a, b, c, d, e);
  }

  lemma GroupValue(g: Bytes, a: int, b: int, c: int, d: int, e: int)
    requires 1 <= |g| <= 5 && a == g[0]
    requires b == if |g| > 1 then g[1] else 0
    requires c == if |g| > 2 then g[2] else 0
    requires d == if |g| > 3 then g[3] else 0
    requires e == if |g| > 4 then g[4] else 0
    ensures ByteSum(g, |g|) == 0x1_0000_0000 * a + 0x100_0000 * b + 0x1_0000 * c + 0x100 * d + e
  {
    Shl8Values(g[0]);
    assert ByteSum(g, 0) == 0;
    assert ByteSum(g, 1) == 0x1_0000_0000 * a;
    if |g| > 1 { Shl8Values(g[1]); assert ByteSum(g, 2) == ByteSum(g, 1) + 0x100_0000 * b; }
    if |g| > 2 { Shl8Values(g[2]); assert ByteSum(g, 3) == ByteSum(g, 2) + 0x1_0000 * c; }
    if |g| > 3 { Shl8Values(g[3]); assert ByteSum(g, 4) == ByteSum(g, 3) + 0x100 * d; }
    if |g| > 4 { Shl8Values(g[4]); assert ByteSum(g, 5) == ByteSum(g, 4) + e; }
  }

  lemma Shl8Values(v: nat)
    ensures Shl8(v, 0) == v && Shl8(v, 1) == 0x100 * v && Shl8(v, 2) == 0x1_0000 * v
    ensures Shl8(v, 3) == 0x100_0000 * v && Shl8(v, 4) == 0x1_0000_0000 * v
  {
    assert Shl8(v, 1) == 256 * Shl8(v, 0);
    assert Shl8(v, 2) == 256 * Shl8(v, 1);
    assert Shl8(v, 3) == 256 * Shl8(v, 2);
    assert Shl8(v, 4) == 256 * Shl8(v, 3);
  }

  lemma ByteDigits(a: int, b: int, c: int, d: int, e: int)
    requires 0 <= a < 256 && 0 <= b < 256 && 0 <= c < 256 && 0 <= d < 256 && 0 <= e < 256
    ensures var acc := 0x1_0000_0000 * a + 0x100_0000 * b + 0x1_0000 * c + 0x100 * d + e;
            && Shr8(acc, 0) % 256 == e && Shr8(acc, 1) % 256 == d && Shr8(acc, 2) % 256 == c
            && Shr8(acc, 3) % 256 == b && Shr8(acc, 4) % 256 == a
  {
    var acc := 0x1_0000_0000 * a + 0x100_0000 * b + 0x1_0000 * c + 0x100 * d + e;
    assert Shr8(acc, 1) == 0x100_0000 * a + 0x1_0000 * b + 0x100 * c + d;
    assert Shr8(acc, 2) == 0x1_0000 * a + 0x100 * b + c;
    assert Shr8(acc, 3) == 0x100 * a + b;
    assert Shr8(acc, 4) == a;
  }

  lemma CharDigits(acc: nat)
    requires acc < 0x100_0000_0000
    ensures Shr5(acc, 8) == 0
  {
    assert Shr5(acc, 1) < 0x8_0000_0000;
    assert Shr5(acc, 2) < 0x4000_0000;
    assert Shr5(acc, 3) < 0x200_0000;
    assert Shr5(acc, 4) < 0x10_0000;
    assert Shr5(acc, 5) < 0x8000;
    assert Shr5(acc, 6) < 0x400;
    assert Shr5(acc, 7) < 0x20;
  }

  lemma GroupDivides(g: Bytes, a: int, b: int, c: int, d: int, e: int)
    requires 1 <= |g| <= 5
    requires 0 <= a < 256 && 0 <= b < 256 && 0 <= c < 256 && 0 <= d < 256 && 0 <= e < 256
    requires (|g| < 2 ==> b == 0) && (|g| < 3 ==> c == 0) && (|g| < 4 ==> d == 0) && (|g| < 5 ==> e == 0)
    ensures var acc := 0x1_0000_0000 * a + 0x100_0000 * b + 0x1_0000 * c + 0x100 * d + e;
            var n := Chars(|g|);
            Shl5(Shr5(acc, 8 - n), 8 - n) == acc
  {
    var acc := 0x1_0000_0000 * a + 0x100_0000 * b + 0x1_0000 * c + 0x100 * d + e;
    if |g| == 1 { Cleared(acc, 6, 4 * a, 0x4000_0000); }
    else if |g| == 2 { Cleared(acc, 4, 0x1000 * a + 0x10 * b, 0x10_0000); }
    else if |g| == 3 { Cleared(acc, 3, 0x2_0000 * a + 0x200 * b + 2 * c, 0x8000); }
    else if |g| == 4 { Cleared(acc, 1, 0x800_0000 * a + 0x8_0000 * b + 0x800 * c + 8 * d, 0x20); }
  }

  lemma {:induction false} Cleared(acc: nat, k: nat, x: nat, unit: nat)
    requires unit == Shl5(1, k) && acc == unit * x
    ensures Shl5(Shr5(acc, k), k) == acc
  {
    Shl5Scale(x, k);
    ShrShl(x, k);
  }

  lemma {:induction false} Shl5Scale(x: nat, k: nat)
    ensures Shl5(x, k) == Shl5(1, k) * x
  {
    if k > 0 {
      Shl5Scale(x, k - 1);
      assert 32 * (Shl5(1, k - 1) * x) == (32 * Shl5(1, k - 1)) * x;
    }
  }

  lemma {:induction false} ShrShl(x: nat, k: nat)
    ensures Shr5(Shl5(x, k), k) == x
  {
    if k > 0 {
      ShrOneLess(Shl5(x, k), k);
      assert Shl5(x, k) / 32 == Shl5(x, k - 1);
      ShrShl(x, k - 1);
    }
  }

  lemma {:induction false} ShrOneLess(acc: nat, k: nat)
    requires k > 0
    ensures Shr5(acc, k) == Shr5(acc / 32, k - 1)
  {
    if k > 1 { ShrOneLess(acc, k - 1); }
  }

  lemma EncodedPadding(g: Bytes)
    requires 1 <= |g| <= 5
    ensures Padding(EncodeGroup(g)) == 8 - Chars(|g|)
  {
    var r, n := EncodeGroup(g), Chars(|g|);
    assert r[n - 1] != PAD;
    assert forall i | n <= i < 8 :: r[i] == PAD;
  }

  lemma GroupRoundTrip(g: Bytes, last: bool)
    requires 1 <= |g| <= 5 && (!last ==> |g| == 5)
    ensures DecodeGroup(EncodeGroup(g), last) == Ok(g)
  {
    var acc, n := ByteSum(g, |g|), Chars(|g|);
    EncodedPadding(g);
    GroupAccumulator(g);
    CharsSpell(EncodeGroup(g), acc, n);
  }

  // ---- the whole stream ----

  /** Decoding inverts encoding for every length and all five padding cases. */
  lemma {:induction false} RoundTrip(s: Bytes, cap: nat)
    ensures Decode(Encode(s), cap) == Fit(s, cap)
  {
    Length(s);
    if s != [] {
      var g := if |s| <= 5 then s else s[..5];
      var e := Encode(s);
      GroupRoundTrip(g, |s| <= 5);
      Length(s[|g|..]);
      assert e == EncodeGroup(g) + Encode(s[|g|..]);
      assert e[..8] == EncodeGroup(g) && e[8..] == Encode(s[|g|..]);
      if |g| <= cap {
        RoundTrip(s[|g|..], cap - |g|);
        assert s == g + s[|g|..];
      }
    }
  }

  // ---- what decode accepts ----

  /** Padding of the last group. */
  function FinalPad(e: Bytes): nat
    requires |e| >= 8
  {
    Padding(e[|e| - 8..])
  }

  ghost predicate WellFormed(e: Bytes) {
    && |e| % 8 == 0
    && (e == [] || (DataBytes(FinalPad(e)) > 0 && DataPrefix(e, |e| - FinalPad(e))))
  }

  function DecodedLength(e: Bytes): nat
    requires |e| % 8 == 0
  {
    if e == [] then 0 else 5 * (|e| / 8 - 1) + DataBytes(FinalPad(e))
  }

  lemma FirstGroup(e: Bytes)
    requires |e| % 8 == 0 && |e| > 8
    ensures FinalPad(e) == FinalPad(e[8..])
    ensures WellFormed(e) <==> DecodeGroup(e[..8], false).Ok? && WellFormed(e[8..])
    ensures DecodedLength(e) == 5 + DecodedLength(e[8..])
  {
    var g, t := e[..8], e[8..];
    assert t[|t| - 8..] == e[|e| - 8..];
    if DecodeGroup(g, false).Ok? && WellFormed(t) {
      forall j | 0 <= j < |e| - FinalPad(e) ensures IsData(e[j]) {
        if j < 8 { assert IsData(g[j]); } else { assert IsData(t[j - 8]); }
      }
    }
    if WellFormed(e) {
      assert IsData(e[7]);
      assert Padding(g) == 0;
      forall j | 0 <= j < 8 ensures IsData(g[j]) { assert IsData(e[j]); }
      forall j | 0 <= j < |t| - FinalPad(t) ensures IsData(t[j]) { assert IsData(e[j + 8]); }
    }
  }

  /** Exactly the RFC 4648 strings are accepted: a multiple of eight characters,
      all from the alphabet but for 0, 1, 3, 4 or 6 padding characters at the end. */
  lemma {:induction false} Accepts(e: Bytes, cap: nat)
    ensures Decode(e, cap).Ok? <==> WellFormed(e) && DecodedLength(e) <= cap
    ensures Decode(e, cap).Ok? ==> |Decode(e, cap).value| == DecodedLength(e)
    decreases |e|
  {
    hide CharSum;
    if |e| % 8 == 0 && |e| > 8 {
      FirstGroup(e);
      GroupsStep(e, cap);
      if DecodeGroup(e[..8], false).Ok? && 5 <= cap {
        Accepts(e[8..], cap - 5);
      }
    } else if |e| == 8 {
      assert e[..8] == e && e[|e| - 8..] == e && e[8..] == [];
      var one := DecodeGroup(e, true);
      assert one.Ok? <==> WellFormed(e);
      if one.Ok? && |one.value| <= cap {
        assert DecodeGroups(e[8..], cap - |one.value|) == Ok([]);
      }
    }
  }

  // ---- the loops ----

  /** `dtl_base32_build_rev`: the reverse table, cleared and then filled from the alphabet. */
  method BuildReverse() returns (rev: array<int>)
    ensures fresh(rev) && rev.Length == 256
    ensures forall c | 0 <= c < 256 :: rev[c] == Reverse(c)
  {
    rev := new int[256](_ => -1);
    for i := 0 to 32
      invariant forall c: byte :: rev[c] == if Reverse(c) < i then Reverse(c) else -1
    {
      assert Reverse(AlphabetChar(i)) == i;
      assert forall c: byte :: Reverse(c) == i ==> c == AlphabetChar(i);
      rev[AlphabetChar(i)] := i;
    }
  }

  method Accumulate(input: Bytes, i: nat, b: nat) returns (acc: nat)
    requires i + b <= |input| && 1 <= b <= 5
    ensures acc == ByteSum(input[i..i + b], b)
  {
    acc := 0;
    for k := 0 to b
      invariant acc == ByteSum(input[i..i + b], k)
    {
      acc := acc + Shl8(input[i + k], 4 - k);
    }
  }

  method EncodeInto(input: Bytes, out: array<byte>) returns (r: Result<nat>)
    modifies out
    ensures Delivers(r, out[..], Fit(Encode(input), out.Length))
  {
    var i: nat, o: nat := 0, 0;
    assert input[0..] == input;
    while i < |input|
      invariant i <= |input| && o <= out.Length
      invariant Encode(input) == out[..o] + Encode(input[i..])
    {
      var b := if |input| - i > 5 then 5 else |input| - i;
      var acc := Accumulate(input, i, b);
      var chars := Chars(b);
      ghost var done := out[..o];
      EncodeStep(Encode(input), done, input[i..], b);
      assert input[i..][..b] == input[i..i + b] && input[i..][b..] == input[i + b..];
      if out.Length - o < 8 {
        return Error(Range);
      }
      ghost var group := EncodeGroup(input[i..i + b]);
      for j := 0 to 8
        invariant out[..o + j] == done + group[..j]
      {
        out[o + j] := GroupChar(acc, chars, j);
      }
      assert group[..8] == group;
      i, o := i + b, o + 8;
    }
    return Ok(o);
  }

  lemma EncodeFirst(t: Bytes)
    requires t != []
    ensures var b := if |t| > 5 then 5 else |t|;
            Encode(t) == EncodeGroup(t[..b]) + Encode(t[b..])
  {
    if |t| <= 5 { assert t[..|t|] == t; }
  }

  lemma EncodeStep(whole: Bytes, done: Bytes, t: Bytes, b: nat)
    requires t != [] && b == if |t| > 5 then 5 else |t|
    requires whole == done + Encode(t)
    ensures whole == done + EncodeGroup(t[..b]) + Encode(t[b..])
  {
    EncodeFirst(t);
    Assoc(done, EncodeGroup(t[..b]), Encode(t[b..]));
  }

  method CountPadding(grp: Bytes) returns (pad: nat)
    requires |grp| == 8
    ensures pad == Padding(grp)
  {
    pad := 0;
    assert grp[..8] == grp;
    while pad < 8 && grp[7 - pad] == PAD
      invariant pad <= 8 && Padding(grp) == pad + Padding(grp[..8 - pad])
    {
      assert grp[..8 - pad][..7 - pad] == grp[..7 - pad];
      pad := pad + 1;
    }
  }

  /** Reads the data characters of a group; false when one is not in the alphabet. */
  method ReadChars(grp: Bytes, n: nat, rev: array<int>) returns (acc: nat, ok: bool)
    requires |grp| == 8 && n <= 8 && rev.Length == 256
    requires forall c | 0 <= c < 256 :: rev[c] == Reverse(c)
    ensures ok <==> DataPrefix(grp, n)
    ensures ok ==> acc == CharSum(grp, n)
  {
    acc := 0;
    for j := 0 to n
      invariant DataPrefix(grp, j) && acc == CharSum(grp, j)
    {
      var v := rev[grp[j]];
      if v < 0 {
        assert !IsData(grp[j]);
        return acc, false;
      }
      acc := acc + Shl5(v, 7 - j);
    }
    return acc, true;
  }

  /** Validates one group and leaves its accumulator and byte count. */
  method ReadGroup(grp: Bytes, last: bool, rev: array<int>) returns (r: Result<(nat, nat)>)
    requires |grp| == 8 && rev.Length == 256
    requires forall c | 0 <= c < 256 :: rev[c] == Reverse(c)
    ensures r.Ok? ==> r.value.1 <= 5 && DecodeGroup(grp, last) == Ok(GroupBytes(r.value.0, r.value.1))
    ensures r.Error? ==> DecodeGroup(grp, last) == Error(r.err)
  {
    var pad := CountPadding(grp);
    if !last && pad != 0 {
      return Error(BadRecord);
    }
    var n := DataBytes(pad);
    if n == 0 {
      return Error(BadRecord);
    }
    var acc, ok := ReadChars(grp, 8 - pad, rev);
    if !ok {
      return Error(BadRecord);
    }
    return Ok((acc, n));
  }

  lemma GroupsStep(e: Bytes, cap: nat)
    requires |e| >= 8 && |e| % 8 == 0
    ensures DecodeGroups(e, cap)
         == match DecodeGroup(e[..8], |e| == 8)
            case Error(x) => Error(x)
            case Ok(bytes) => if cap < |bytes| then Error(Range) else Prepend(bytes, DecodeGroups(e[8..], cap - |bytes|))
  {
  }

  method DecodeInto(input: Bytes, out: array<byte>) returns (r: Result<nat>)
    modifies out
    ensures Delivers(r, out[..], Decode(input, out.Length))
  {
    hide DecodeGroup, GroupBytes, Reverse;
    var rev := BuildReverse();
    if |input| % 8 != 0 {
      return Error(Truncated);
    }
    var ngroups := |input| / 8;
    var g: nat, o: nat := 0, 0;
    ghost var goal, rest := Decode(input, out.Length), input;
    PrependNothing(goal);
    while g < ngroups
      invariant g <= ngroups && o <= out.Length
      invariant rest == input[8 * g..] && |rest| == 8 * (ngroups - g)
      invariant goal == Prepend(out[..o], DecodeGroups(rest, out.Length - o))
      invariant forall c | 0 <= c < 256 :: rev[c] == Reverse(c)
    {
      var grp := input[8 * g..8 * g + 8];
      assert rest[..8] == grp;
      GroupsStep(rest, out.Length - o);
      rest := rest[8..];
      var one := ReadGroup(grp, g == ngroups - 1, rev);
      if one.Error? {
        return Error(one.err);
      }
      var (acc, n) := one.value;
      if out.Length - o < n {
        return Error(Range);
      }
      ghost var done := out[..o];
      WriteBytes(acc, n, out, o);
      PrependMore(done, GroupBytes(acc, n), DecodeGroups(rest, out.Length - o - n));
      g, o := g + 1, o + n;
    }
    return Ok(o);
  }

  method WriteBytes(acc: nat, n: nat, out: array<byte>, o: nat)
    requires n <= 5 && o + n <= out.Length
    modifies out
    ensures out[..o + n] == old(out[..o]) + GroupBytes(acc, n)
  {
    ghost var done, bytes := out[..o], GroupBytes(acc, n);
    for k := 0 to n
      invariant out[..o + k] == done + bytes[..k]
    {
      out[o + k] := Shr8(acc, 4 - k) % 256;
    }
    assert bytes[..n] == bytes;
  }
}
