/** Delta and zig-zag codec over 32-bit words, id 5 (src/codec/delta.c). */
module Delta {
  import opened Core
  import opened Leb128
  import Varint

  const MOD := 0x1_0000_0000

  function Add32(a: u32, b: u32): u32 { (a + b) % MOD }

  function Sub32(a: u32, b: u32): u32 { (a - b) % MOD }

  /** Exclusive-or of a word with the all-ones mask, when `ones` holds. */
  function FlipIf(x: u32, ones: bool): u32 { if ones then MOD - 1 - x else x }

  /** `(d << 1) ^ (0 - (d >> 31))` */
  function ZigZag(d: u32): u32 { FlipIf(2 * d % MOD, d >= 0x8000_0000) }

  /** `(z >> 1) ^ (0 - (z & 1))` */
  function UnZigZag(z: u32): u32 { FlipIf(z / 2, z % 2 == 1) }

  /** Zig-zag is a bijection on words, and it lists the signed values in the
      order 0, -1, 1, -2, ... so that small deltas get short codes. */
  lemma ZigZagBijection(x: u32)
    ensures UnZigZag(ZigZag(x)) == x && ZigZag(UnZigZag(x)) == x
    ensures var signed := I32OfU32(x); ZigZag(x) == if signed >= 0 then 2 * signed else -2 * signed - 1
  {
  }

  lemma DeltaCancels(cur: u32, prev: u32)
    ensures Add32(prev, UnZigZag(ZigZag(Sub32(cur, prev)))) == cur
  {
    ZigZagBijection(Sub32(cur, prev));
  }

  /** Codes of the words after `prev`. */
  function Tail(prev: u32, ws: seq<u32>): Bytes
    decreases |ws|
  {
    if ws == [] then [] else Leb(ZigZag(Sub32(ws[0], prev))) + Tail(ws[0], ws[1..])
  }

  function Body(ws: seq<u32>): Bytes {
    if ws == [] then [] else Le32(ws[0]) + Tail(ws[0], ws[1..])
  }

  function Encode(s: Bytes, cap: nat): Result<Bytes> {
    if |s| % 4 != 0 then Error(Truncated) else Fit(Body(Words(s)), cap)
  }

  function DecodeTail(prev: u32, e: Bytes, cap: nat): Result<Bytes>
    decreases |e|
  {
    if e == [] then Ok([])
    else
      var (z, n) :- ReadGroups(e, 0);
      var cur := Add32(prev, UnZigZag(z));
      if cap < 4 then Error(Range) else Prepend(Le32(cur), DecodeTail(cur, e[n..], cap - 4))
  }

  function Decode(e: Bytes, cap: nat): Result<Bytes> {
    if e == [] then Ok([])
    else if |e| < 4 then Error(Truncated)
    else if cap < 4 then Error(Range)
    else Prepend(Le32(FromLe32(e)), DecodeTail(FromLe32(e), e[4..], cap - 4))
  }

  lemma {:induction false} TailRoundTrip(prev: u32, ws: seq<u32>, cap: nat)
    ensures DecodeTail(prev, Tail(prev, ws), cap) == Fit(Unwords(ws), cap)
    decreases |ws|
  {
    if ws != [] {
      DeltaCancels(ws[0], prev);
      var z := ZigZag(Sub32(ws[0], prev));
      ReadLeb(z, 0, Tail(ws[0], ws[1..]));
      assert Tail(prev, ws)[|Leb(z)|..] == Tail(ws[0], ws[1..]);
      if cap >= 4 {
        TailRoundTrip(ws[0], ws[1..], cap - 4);
      }
    }
  }

  lemma {:induction false} TailLength(prev: u32, ws: seq<u32>)
    ensures |Tail(prev, ws)| <= 5 * |ws|
    decreases |ws|
  {
    if ws != [] {
      LebLength(ZigZag(Sub32(ws[0], prev)), 0);
      TailLength(ws[0], ws[1..]);
    }
  }

  lemma DecodeFirst(first: u32, tail: Bytes, cap: nat)
    requires cap >= 4
    ensures Decode(Le32(first) + tail, cap) == Prepend(Le32(first), DecodeTail(first, tail, cap - 4))
  {
    Le32RoundTrip(first, tail);
    assert (Le32(first) + tail)[4..] == tail;
  }

  lemma BodyRoundTrip(ws: seq<u32>, cap: nat)
    ensures Decode(Body(ws), cap) == Fit(Unwords(ws), cap)
  {
    hide FromLe32, Le32, DecodeTail, Tail;
    if ws != [] && cap >= 4 {
      DecodeFirst(ws[0], Tail(ws[0], ws[1..]), cap);
      TailRoundTrip(ws[0], ws[1..], cap - 4);
    }
  }

  /** Decoding inverts encoding on every word-aligned input: the wrapping deltas
      cancel and the fifth-group check never rejects what the encoder emits. */
  lemma RoundTrip(s: Bytes, cap: nat, outCap: nat)
    requires |s| % 4 == 0
    ensures var e := Encode(s, cap);
            if e.Ok? then Decode(e.value, outCap) == Fit(s, outCap)
            else e == Error(Range) && cap < 4 + 5 * (|s| / 4)
  {
    UnwordsWords(s);
    BodyRoundTrip(Words(s), outCap);
    SizeBound(s);
  }

  lemma SizeBound(s: Bytes)
    ensures |Body(Words(s))| <= 4 + 5 * (|s| / 4)
  {
    var ws := Words(s);
    if ws != [] { TailLength(ws[0], ws[1..]); }
  }

  method EncodeInto(input: Bytes, out: array<byte>) returns (r: Result<nat>)
    modifies out
    ensures Delivers(r, out[..], Encode(input, out.Length))
  {
    if |input| == 0 {
      return Ok(0);
    }
    if |input| % 4 != 0 {
      return Error(Truncated);
    }
    ghost var ws := Words(input);
    ghost var body := Body(ws);
    var n := |input| / 4;
    var prev := FromLe32(input);
    if out.Length < 4 {
      return Error(Range);
    }
    Varint.PutWord(prev, out, 0);
    var k: nat, o: nat := 1, 4;
    assert out[..0] == [] && out[..4] == Le32(prev);
    while k < n
      invariant 1 <= k <= n && 4 <= o <= out.Length
      invariant prev == ws[k - 1]
      invariant body == out[..o] + Tail(prev, ws[k..])
    {
      hide Words, Tail, ZigZag, Sub32, Leb, FromLe32;
      WordAt(input, k);
      var cur := FromLe32(input[4 * k..]);
      var zz := ZigZag(Sub32(cur, prev));
      TailStep(out[..o], prev, ws, k);
      ghost var tail := Tail(cur, ws[k + 1..]);
      var next, ok := Leb128.WriteOne(zz, out, o);
      if !ok {
        return Error(Range);
      }
      assert body == out[..next] + tail;
      prev, k, o := cur, k + 1, next;
    }
    return Ok(o);
  }

  lemma TailStep(done: Bytes, prev: u32, ws: seq<u32>, k: nat)
    requires k < |ws|
    ensures done + Tail(prev, ws[k..]) == done + Leb(ZigZag(Sub32(ws[k], prev))) + Tail(ws[k], ws[k + 1..])
  {
    hide ZigZag, Sub32, Leb;
    assert ws[k..][1..] == ws[k + 1..];
    Assoc(done, Leb(ZigZag(Sub32(ws[k], prev))), Tail(ws[k], ws[k + 1..]));
  }

  method DecodeInto(input: Bytes, out: array<byte>) returns (r: Result<nat>)
    modifies out
    ensures Delivers(r, out[..], Decode(input, out.Length))
  {
    if |input| == 0 {
      return Ok(0);
    }
    if |input| < 4 {
      return Error(Truncated);
    }
    ghost var goal := Decode(input, out.Length);
    var prev := FromLe32(input);
    if out.Length < 4 {
      return Error(Range);
    }
    Varint.PutWord(prev, out, 0);
    var i: nat, o: nat := 4, 4;
    assert out[..0] == [] && out[..4] == Le32(prev);
    while i < |input|
      invariant 4 <= i <= |input| && 4 <= o <= out.Length
      invariant goal == Prepend(out[..o], DecodeTail(prev, input[i..], out.Length - o))
    {
      var one := ReadOne(input, i);
      if one.Error? {
        return Error(one.err);
      }
      var (zz, n) := one.value;
      var next := i + n;
      assert input[i..][n..] == input[next..];
      var cur := Add32(prev, UnZigZag(zz));
      if out.Length - o < 4 {
        return Error(Range);
      }
      ghost var done := out[..o];
      Varint.PutWord(cur, out, o);
      PrependMore(done, Le32(cur), DecodeTail(cur, input[next..], out.Length - o - 4));
      prev, i, o := cur, next, o + 4;
    }
    return Ok(o);
  }
}
