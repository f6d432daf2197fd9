/** The codec dispatch table (src/codec/registry.c, src/codec/store.c) and the
    writer's loop that retries a codec with a larger output buffer
    (src/writer/writer.c). */
module Codecs {
  import opened Core
  import Rle
  import Varint
  import Lz77
  import Dict
  import Delta
  import Base32
  import Leb128

  datatype Codec = Store | RunLength | VarInt | Lz | Dictionary | DeltaWords | Text32

  const STORE: byte := 0

  function Get(id: byte): Option<Codec> {
    if id == 0 then Some(Store)
    else if id == 1 then Some(RunLength)
    else if id == 2 then Some(VarInt)
    else if id == 3 then Some(Lz)
    else if id == 4 then Some(Dictionary)
    else if id == 5 then Some(DeltaWords)
    else if id == 6 then Some(Text32)
    else None
  }

  /** Encoding into a buffer of `cap` bytes. */
  function Encode(c: Codec, s: Bytes, cap: nat): Result<Bytes> {
    match c
    case Store => Fit(s, cap)
    case RunLength => Fit(Rle.Encode(s), cap)
    case VarInt => Varint.Encode(s, cap)
    case Lz => Fit(Lz77.Encode(s), cap)
    case Dictionary => Dict.Encode(s, cap)
    case DeltaWords => Delta.Encode(s, cap)
    case Text32 => Fit(Base32.Encode(s), cap)
  }

  /** Decoding into a buffer of `cap` bytes. */
  function Decode(c: Codec, e: Bytes, cap: nat): Result<Bytes> {
    match c
    case Store => Fit(e, cap)
    case RunLength => Rle.Decode(e, cap)
    case VarInt => Varint.Decode(e, cap)
    case Lz => Lz77.Decode(e, cap)
    case Dictionary => Dict.Decode(e, cap)
    case DeltaWords => Delta.Decode(e, cap)
    case Text32 => Base32.Decode(e, cap)
  }

  /** Every codec: what encodes successfully decodes to the original bytes. */
  lemma RoundTrip(c: Codec, s: Bytes, cap: nat, outCap: nat)
    ensures var e := Encode(c, s, cap); e.Ok? ==> Decode(c, e.value, outCap) == Fit(s, outCap)
  {
    match c
    case Store =>
    case RunLength => Rle.RoundTrip(s, outCap);
    case VarInt => if |s| % 4 == 0 { Varint.RoundTrip(s, cap, outCap); }
    case Lz => Lz77.RoundTrip(s, outCap);
    case Dictionary => Dict.RoundTrip(s, cap, outCap);
    case DeltaWords => if |s| % 4 == 0 { Delta.RoundTrip(s, cap, outCap); }
    case Text32 => Base32.RoundTrip(s, outCap);
  }

  // ---- room ----

  /** Largest output for `n` input bytes. */
  function WorstCase(c: Codec, n: nat): nat {
    match c
    case Store => n
    case RunLength => 2 * n
    case VarInt => 5 * (n / 4)
    case Lz => n + (n + 7) / 8
    case Dictionary => 2 + n + 3 * ((n + 3) / 4)
    case DeltaWords => 4 + 5 * (n / 4)
    case Text32 => 8 * ((n + 4) / 5)
  }

  /** Reasons other than room for a codec to refuse an input. */
  function Refuses(c: Codec, s: Bytes): Option<Err> {
    match c
    case VarInt => if |s| % 4 != 0 then Some(Truncated) else None
    case DeltaWords => if |s| % 4 != 0 then Some(Truncated) else None
    case Dictionary => if |Dict.Full(s).entries| > Dict.MAX_ENTRIES then Some(Range) else None
    case _ => None
  }

  /** The encoding, room permitting. */
  function Unlimited(c: Codec, s: Bytes): Result<Bytes> { Encode(c, s, WorstCase(c, |s|)) }

  /** The stated bounds are real: with that much room only a refusal remains, and
      with less room the result is the same or RANGE. */
  lemma RoomSuffices(c: Codec, s: Bytes, cap: nat)
    ensures Unlimited(c, s).Ok? <==> Refuses(c, s).None?
    ensures Refuses(c, s).Some? ==> Unlimited(c, s) == Error(Refuses(c, s).value)
    ensures cap >= WorstCase(c, |s|) ==> Encode(c, s, cap) == Unlimited(c, s)
    ensures Encode(c, s, cap) in {Unlimited(c, s), Error(Range)}
  {
    match c
    case Store =>
    case RunLength => Rle.SizeBound(s);
    case VarInt => Varint.SizeBound(s);
    case Lz => Lz77.SizeBound(s);
    case Dictionary =>
      Dict.SizeBound(s, cap);
      Dict.SizeBound(s, WorstCase(c, |s|));
    case DeltaWords => Delta.SizeBound(s);
    case Text32 => Base32.Length(s);
  }

  // ---- decoders stay within their buffer ----

  lemma {:induction false} RleFits(e: Bytes, cap: nat)
    ensures Rle.Decode(e, cap).Ok? ==> |Rle.Decode(e, cap).value| <= cap
  {
    if |e| >= 2 && e[0] <= cap { RleFits(e[2..], cap - e[0]); }
  }

  lemma {:induction false} VarintFits(e: Bytes, cap: nat)
    ensures Varint.Decode(e, cap).Ok? ==> |Varint.Decode(e, cap).value| <= cap
    decreases |e|
  {
    if e != [] && Leb128.ReadGroups(e, 0).Ok? && cap >= 4 { VarintFits(e[Leb128.ReadGroups(e, 0).value.1..], cap - 4); }
  }

  lemma {:induction false} DeltaFits(prev: u32, e: Bytes, cap: nat)
    ensures Delta.DecodeTail(prev, e, cap).Ok? ==> |Delta.DecodeTail(prev, e, cap).value| <= cap
    decreases |e|
  {
    if e != [] && Leb128.ReadGroups(e, 0).Ok? && cap >= 4 {
      var (z, n) := Leb128.ReadGroups(e, 0).value;
      DeltaFits(Delta.Add32(prev, Delta.UnZigZag(z)), e[n..], cap - 4);
    }
  }

  lemma {:induction false} LzFits(e: Bytes, flag: nat, bit: nat, out: Bytes, cap: nat)
    requires |out| <= cap
    ensures var r := Lz77.DecodeTokens(e, flag, bit, out, cap, 1); r.Ok? ==> |r.value| <= cap
    decreases |e|, bit < 8
  {
    if bit >= 8 || e == [] {
      if e != [] { LzFits(e[1..], e[0], 0, out, cap); }
    } else if Lz77.BitAt(flag, bit) {
      if |e| >= 2 && Lz77.OffsetOf(e) <= |out| && cap - |out| >= Lz77.LengthOf(e) {
        LzFits(e[2..], flag, bit + 1, Lz77.Copy(out, Lz77.OffsetOf(e), Lz77.LengthOf(e)), cap);
      }
    } else if cap - |out| >= 1 {
      LzFits(e[1..], flag, bit + 1, out + [e[0]], cap);
    }
  }

  lemma {:induction false} DictFits(table: seq<Dict.Phrase>, e: Bytes, cap: nat)
    ensures Dict.ReadTokens(table, e, cap).Ok? ==> |Dict.ReadTokens(table, e, cap).value| <= cap
    decreases |e|
  {
    if |e| >= 2 && FromLe16(e) < |table| && |table[FromLe16(e)]| <= cap {
      DictFits(table, e[2..], cap - |table[FromLe16(e)]|);
    }
  }

  lemma {:induction false} Base32Fits(e: Bytes, cap: nat)
    requires |e| % 8 == 0
    ensures Base32.DecodeGroups(e, cap).Ok? ==> |Base32.DecodeGroups(e, cap).value| <= cap
  {
    hide Base32.DecodeGroup;
    if e != [] {
      var g := Base32.DecodeGroup(e[..8], |e| == 8);
      if g.Ok? && |g.value| <= cap { Base32Fits(e[8..], cap - |g.value|); }
    }
  }

  /** No decoder delivers more than the room it was given. */
  lemma DecodeFits(c: Codec, e: Bytes, cap: nat)
    ensures Decode(c, e, cap).Ok? ==> |Decode(c, e, cap).value| <= cap
  {
    match c
    case Store =>
    case RunLength => RleFits(e, cap);
    case VarInt => VarintFits(e, cap);
    case Lz => if e != [] { LzFits(e[1..], e[0], 0, [], cap); }
    case Dictionary =>
      if |e| >= 2 && Dict.ReadTable(e[2..], FromLe16(e)).Ok? {
        var (table, rest) := Dict.ReadTable(e[2..], FromLe16(e)).value;
        DictFits(table, rest, cap);
      }
    case DeltaWords => if |e| >= 4 && cap >= 4 { DeltaFits(FromLe32(e), e[4..], cap - 4); }
    case Text32 => if |e| % 8 == 0 { Base32Fits(e, cap); }
  }

  /** No encoder delivers more than the room it was given. */
  lemma EncodeFits(c: Codec, s: Bytes, cap: nat)
    ensures Encode(c, s, cap).Ok? ==> |Encode(c, s, cap).value| <= cap
  {
    hide Rle.Encode, Lz77.Encode, Base32.Encode, Leb128.LebAll, Delta.Body, Dict.Full, Dict.Layout;
  }

  // ---- the retry loop of dtl_writer_end_section ----


  function FirstCap(n: nat): nat { n + n / 2 + 64 }

  function NextCap(cap: nat): nat { cap * 2 + 64 }

  /** Grow the buffer on RANGE while it is at most twice the section limit. */
  function Retry(c: Codec, s: Bytes, cap: nat): Result<Bytes>
    decreases 2 * SECTION_MAX_RAW + 1 - cap
  {
    var r := Encode(c, s, cap);
    if r == Error(Range) && cap <= SECTION_MAX_RAW * 2 then Retry(c, s, NextCap(cap)) else r
  }

  /** How often the codec runs. */
  function Attempts(c: Codec, s: Bytes, cap: nat): nat
    decreases 2 * SECTION_MAX_RAW + 1 - cap
  {
    var r := Encode(c, s, cap);
    1 + if r == Error(Range) && cap <= SECTION_MAX_RAW * 2 then Attempts(c, s, NextCap(cap)) else 0
  }

  lemma SecondCapSuffices(c: Codec, n: nat)
    ensures NextCap(FirstCap(n)) >= WorstCase(c, n)
  {
  }

  lemma {:induction false} RetryStable(c: Codec, s: Bytes, cap: nat)
    requires cap >= WorstCase(c, |s|)
    ensures Retry(c, s, cap) == Unlimited(c, s)
    decreases 2 * SECTION_MAX_RAW + 1 - cap
  {
    RoomSuffices(c, s, cap);
    if Encode(c, s, cap) == Error(Range) && cap <= SECTION_MAX_RAW * 2 {
      RetryStable(c, s, NextCap(cap));
    }
  }

  /** Whatever the codec says, the growing capacity ends the loop. */
  lemma {:induction false} AttemptsBound(c: Codec, s: Bytes, cap: nat, k: nat)
    requires k <= 21 && cap + 64 >= 128 * Pow2(k)
    ensures Attempts(c, s, cap) <= 22 - k
    decreases 21 - k
  {
    if k == 21 {
      assert Pow2(21) == 2_097_152 by { assert Pow2(7) == 128 && Pow2(14) == 128 * Pow2(7) && Pow2(21) == 128 * Pow2(14); }
    } else {
      AttemptsBound(c, s, NextCap(cap), k + 1);
    }
  }

  lemma {:induction false} EntriesBound(s: Bytes, k: nat)
    requires k <= Dict.BlockCount(s)
    ensures |Dict.Build(s, k).entries| <= k
  {
    hide Dict.IndexFrom;
    if k > 0 { EntriesBound(s, k - 1); }
  }

  /** A refusal by the dictionary needs a long section, and so a large first buffer:
      at most eleven attempts. */
  lemma RefusalAttempts(c: Codec, s: Bytes)
    requires Refuses(c, s) == Some(Range)
    ensures Attempts(c, s, FirstCap(|s|)) <= 11
  {
    EntriesBound(s, Dict.BlockCount(s));
    assert |s| >= 262_141;
    assert Pow2(11) == 2048 by { assert Pow2(5) == 32 && Pow2(11) == 64 * Pow2(5); }
    AttemptsBound(c, s, FirstCap(|s|), 11);
  }

  /** For every section the writer accepts, the loop ends with the codec's own
      verdict: room is never the reason for failure, and it is short at most once. */
  lemma RetryIsUnlimited(c: Codec, s: Bytes)
    requires |s| <= SECTION_MAX_RAW
    ensures Retry(c, s, FirstCap(|s|)) == Unlimited(c, s)
    ensures Refuses(c, s).None? ==> Attempts(c, s, FirstCap(|s|)) <= 2
    ensures Refuses(c, s) != Some(Range) ==> Attempts(c, s, FirstCap(|s|)) <= 2
  {
    var cap := FirstCap(|s|);
    RoomSuffices(c, s, cap);
    RoomSuffices(c, s, NextCap(cap));
    SecondCapSuffices(c, |s|);
    if Encode(c, s, cap) == Error(Range) {
      RetryStable(c, s, NextCap(cap));
      assert Encode(c, s, NextCap(cap)) != Error(Range) ==> Attempts(c, s, NextCap(cap)) == 1;
    }
  }

  // ---- the methods ----

  method EncodeInto(c: Codec, input: Bytes, out: array<byte>) returns (r: Result<nat>)
    modifies out
    ensures Delivers(r, out[..], Encode(c, input, out.Length))
  {
    match c
    case Store => r := StoreCopy(input, out);
    case RunLength => r := Rle.EncodeInto(input, out);
    case VarInt => r := Varint.EncodeInto(input, out);
    case Lz => r := Lz77.EncodeInto(input, out);
    case Dictionary => r := Dict.EncodeInto(input, out);
    case DeltaWords => r := Delta.EncodeInto(input, out);
    case Text32 => r := Base32.EncodeInto(input, out);
  }

  method DecodeInto(c: Codec, input: Bytes, out: array<byte>) returns (r: Result<nat>)
    modifies out
    ensures Delivers(r, out[..], Decode(c, input, out.Length))
  {
    match c
    case Store => r := StoreCopy(input, out);
    case RunLength => r := Rle.DecodeInto(input, out);
    case VarInt => r := Varint.DecodeInto(input, out);
    case Lz => r := Lz77.DecodeInto(input, out);
    case Dictionary => r := Dict.DecodeInto(input, out);
    case DeltaWords => r := Delta.DecodeInto(input, out);
    case Text32 => r := Base32.DecodeInto(input, out);
  }

  method StoreCopy(input: Bytes, out: array<byte>) returns (r: Result<nat>)
    modifies out
    ensures Delivers(r, out[..], Fit(input, out.Length))
  {
    if |input| > out.Length {
      return Error(Range);
    }
    forall k | 0 <= k < |input| {
      out[k] := input[k];
    }
    return Ok(|input|);
  }

  /** An arena allocation: it may fail, and a request for no bytes always does. */
  method Allocate(n: nat) returns (ok: bool)
    ensures n == 0 ==> !ok
  {
    ok := *;
    ok := ok && n != 0;
  }

  /** The loop itself, with a fresh buffer for each attempt; `lapsed` when one
      could not be had. */
  method Compress(c: Codec, raw: Bytes) returns (r: Result<Bytes>, attempts: nat, lapsed: bool)
    requires |raw| <= SECTION_MAX_RAW
    ensures r == if lapsed then Error(Oom) else Unlimited(c, raw)
    ensures attempts <= if Refuses(c, raw) == Some(Range) then 11 else 2
  {
    hide Encode, Refuses;
    if Refuses(c, raw) == Some(Range) { RefusalAttempts(c, raw); }
    var cap := FirstCap(|raw|);
    attempts := 0;
    RetryIsUnlimited(c, raw);
    while true
      invariant Retry(c, raw, cap) == Unlimited(c, raw)
      invariant attempts + Attempts(c, raw, cap) == Attempts(c, raw, FirstCap(|raw|))
      decreases 2 * SECTION_MAX_RAW + 1 - cap
    {
      var room := Allocate(cap);
      if !room {
        return Error(Oom), attempts, true;
      }
      var out := new byte[cap](_ => 0);
      var rc := EncodeInto(c, raw, out);
      attempts := attempts + 1;
      if rc.Ok? {
        return Ok(out[..rc.value]), attempts, false;
      }
      if rc.err == Range && cap <= SECTION_MAX_RAW * 2 {
        cap := NextCap(cap);
      } else {
        return Error(rc.err), attempts, false;
      }
    }
  }
}
