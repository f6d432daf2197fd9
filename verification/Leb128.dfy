/** 32-bit words as little-endian byte quadruples and as LEB128 groups: the part
    that the varint and delta codecs share (src/codec/varint.c, src/codec/delta.c). */
module Leb128 {
  import opened Core

  // ---- streams of 32-bit words ----

  /** The whole words at the front of `s`; a trailing partial word is ignored. */
  function Words(s: Bytes): (ws: seq<u32>)
    ensures |ws| == |s| / 4
  {
    if |s| < 4 then [] else [FromLe32(s)] + Words(s[4..])
  }

  function Unwords(ws: seq<u32>): (s: Bytes)
    ensures |s| == 4 * |ws|
  {
    if ws == [] then [] else Le32(ws[0]) + Unwords(ws[1..])
  }

  lemma {:induction false} UnwordsWords(s: Bytes)
    requires |s| % 4 == 0
    ensures Unwords(Words(s)) == s
  {
    if s != [] {
      UnwordsWords(s[4..]);
      Le32Unique(s[..4]);
      assert FromLe32(s[..4]) == FromLe32(s);
      assert s == s[..4] + s[4..];
      assert Words(s)[1..] == Words(s[4..]);
    }
  }

  lemma {:induction false} WordAt(s: Bytes, k: nat)
    requires 4 * k + 4 <= |s|
    ensures Words(s)[k] == FromLe32(s[4 * k..])
  {
    hide FromLe32;
    if k > 0 {
      WordAt(s[4..], k - 1);
      assert s[4..][4 * (k - 1)..] == s[4 * k..];
    } else {
      assert s[4 * k..] == s;
    }
  }

  // ---- LEB128 (section 7.6 of DWARF 5) ----

  /** Seven bits at a time, low group first, high bit set on all but the last. */
  function Leb(v: nat): (s: Bytes)
    ensures s != []
  {
    if v < 0x80 then [v] else [v % 0x80 + 0x80] + Leb(v / 0x80)
  }

  /** Largest value that still fits when `g` groups were already read. */
  function GroupLimit(g: nat): nat {
    if g == 0 then 0xFFFF_FFFF
    else if g == 1 then 0x1FF_FFFF
    else if g == 2 then 0x3_FFFF
    else if g == 3 then 0x7FF
    else 0xF
  }

  /** Value of the groups that remain once `g` were read, and the bytes they take.
      The fifth group may carry only four bits and there is no sixth. */
  function ReadGroups(e: Bytes, g: nat): (r: Result<(nat, nat)>)
    ensures r.Ok? ==> g <= 4 && r.value.0 <= GroupLimit(g)
    ensures r.Ok? ==> 0 < r.value.1 <= |e|
  {
    if e == [] then Error(Truncated)
    else if g > 4 then Error(Range)
    else if g == 4 && e[0] % 0x80 > 0xF then Error(Range)
    else if e[0] < 0x80 then Ok((e[0], 1))
    else
      var (high, n) :- ReadGroups(e[1..], g + 1);
      Ok((e[0] % 0x80 + 0x80 * high, n + 1))
  }

  lemma {:induction false} ReadLeb(v: nat, g: nat, rest: Bytes)
    requires g <= 4 && v <= GroupLimit(g)
    ensures ReadGroups(Leb(v) + rest, g) == Ok((v, |Leb(v)|))
  {
    if v >= 0x80 {
      ReadLeb(v / 0x80, g + 1, rest);
      assert (Leb(v) + rest)[1..] == Leb(v / 0x80) + rest;
    }
  }

  lemma {:induction false} LebLength(v: nat, g: nat)
    requires g <= 4 && v <= GroupLimit(g)
    ensures |Leb(v)| <= 5 - g
  {
    if v >= 0x80 { LebLength(v / 0x80, g + 1); }
  }

  function LebAll(ws: seq<u32>): Bytes {
    if ws == [] then [] else Leb(ws[0]) + LebAll(ws[1..])
  }

  lemma {:induction false} LebAllLength(ws: seq<u32>)
    ensures |LebAll(ws)| <= 5 * |ws|
  {
    if ws != [] {
      LebLength(ws[0], 0);
      LebAllLength(ws[1..]);
    }
  }

  // ---- the loops ----

  /** `payload << (7 * g)` */
  function Place(payload: nat, g: nat): nat
    decreases g
  {
    if g == 0 then payload else Place(0x80 * payload, g - 1)
  }

  lemma {:induction false} PlaceAdd(low: nat, high: nat, g: nat)
    ensures Place(low + high, g) == Place(low, g) + Place(high, g)
    decreases g
  {
    if g > 0 {
      PlaceAdd(0x80 * low, 0x80 * high, g - 1);
      assert 0x80 * (low + high) == 0x80 * low + 0x80 * high;
    }
  }

  /** What reading gives once `value` was assembled from `g` groups. */
  ghost function Shifted(r: Result<(nat, nat)>, g: nat, value: nat): Result<(nat, nat)> {
    match r
    case Ok((v, n)) => Ok((value + Place(v, g), n + g))
    case Error(e) => Error(e)
  }

  lemma ShiftNothing(r: Result<(nat, nat)>)
    ensures Shifted(r, 0, 0) == r
  {
  }

  lemma ShiftStep(e: Bytes, g: nat, value: nat)
    requires e != [] && e[0] >= 0x80 && g <= 4 && (g == 4 ==> e[0] % 0x80 <= 0xF)
    ensures Shifted(ReadGroups(e, g), g, value)
         == Shifted(ReadGroups(e[1..], g + 1), g + 1, value + Place(e[0] % 0x80, g))
  {
    if g == 4 {
      assert ReadGroups(e[1..], 5).Error?;
    } else {
      var r := ReadGroups(e[1..], g + 1);
      if r.Ok? {
        PlaceAdd(e[0] % 0x80, 0x80 * r.value.0, g);
      }
    }
  }

  lemma ReadStep(e: Bytes, g: nat, value: nat)
    requires g <= 5
    ensures Shifted(ReadGroups(e, g), g, value)
         == if e == [] then Error(Truncated)
            else if g > 4 || (g == 4 && e[0] % 0x80 > 0xF) then Error(Range)
            else if e[0] < 0x80 then Ok((value + Place(e[0] % 0x80, g), g + 1))
            else Shifted(ReadGroups(e[1..], g + 1), g + 1, value + Place(e[0] % 0x80, g))
  {
    hide Place;
    if e != [] && g <= 4 && (g == 4 ==> e[0] % 0x80 <= 0xF) && e[0] >= 0x80 { ShiftStep(e, g, value); }
  }

  /** The decode loop of both codecs: reads one value at `start`. */
  method ReadOne(input: Bytes, start: nat) returns (r: Result<(nat, nat)>)
    requires start <= |input|
    ensures r == ReadGroups(input[start..], 0)
  {
    hide Place, Shifted, ReadGroups;
    var i: nat, g: nat, value: nat := start, 0, 0;
    ghost var rest := input[start..];
    ghost var goal := ReadGroups(rest, 0);
    ShiftNothing(goal);
    while true
      invariant i == start + g <= |input| && g <= 5
      invariant rest == input[i..]
      invariant goal == Shifted(ReadGroups(rest, g), g, value)
      decreases |input| - i
    {
      ReadStep(rest, g, value);
      if i >= |input| {
        return Error(Truncated);
      }
      var b := input[i];
      if g > 4 {
        return Error(Range);
      }
      var payload := b % 0x80;
      if g == 4 && payload > 0xF {
        return Error(Range);
      }
      var shifted := Place(payload, g);
      if b < 0x80 {
        return Ok((value + shifted, g + 1));
      }
      rest := rest[1..];
      i, g, value := i + 1, g + 1, value + shifted;
    }
  }

  /** The encode loop of both codecs: appends the groups of `v` at `start`, or
      stops with RANGE when the buffer is full. */
  method WriteOne(v: u32, out: array<byte>, start: nat) returns (o: nat, ok: bool)
    requires start <= out.Length
    modifies out
    ensures ok <==> |Leb(v)| <= out.Length - start
    ensures ok ==> o == start + |Leb(v)| && out[..o] == old(out[..start]) + Leb(v)
  {
    var value: nat := v;
    o := start;
    ghost var done := out[..start];
    ghost var goal := done + Leb(v);
    while value >= 0x80
      invariant start <= o <= out.Length && done == out[..o]
      invariant goal == done + Leb(value)
    {
      if out.Length - o < 1 {
        return o, false;
      }
      Assoc(done, [value % 0x80 + 0x80], Leb(value / 0x80));
      done := done + [value % 0x80 + 0x80];
      out[o] := value % 0x80 + 0x80;
      o, value := o + 1, value / 0x80;
    }
    if out.Length - o < 1 {
      return o, false;
    }
    out[o] := value;
    return o + 1, true;
  }
}
