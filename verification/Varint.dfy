/** LEB128 stream codec, id 2 (src/codec/varint.c). */
module Varint {
  import opened Core
  import opened Leb128

  /** Whole words are emitted before a trailing partial word is noticed, so a
      full buffer is reported ahead of a misaligned input. */
  function Encode(s: Bytes, cap: nat): Result<Bytes> {
    var body := LebAll(Words(s));
    if |body| > cap then Error(Range)
    else if |s| % 4 != 0 then Error(Truncated)
    else Ok(body)
  }

  function Decode(e: Bytes, cap: nat): Result<Bytes>
    decreases |e|
  {
    if e == [] then Ok([])
    else
      var (v, n) :- ReadGroups(e, 0);
      if cap < 4 then Error(Range) else Prepend(Le32(v), Decode(e[n..], cap - 4))
  }

  lemma {:induction false} DecodeWords(ws: seq<u32>, cap: nat)
    ensures Decode(LebAll(ws), cap) == Fit(Unwords(ws), cap)
  {
    if ws != [] {
      ReadLeb(ws[0], 0, LebAll(ws[1..]));
      assert LebAll(ws)[|Leb(ws[0])|..] == LebAll(ws[1..]);
      if cap >= 4 {
        DecodeWords(ws[1..], cap - 4);
      }
    }
  }

  /** Decoding inverts encoding on every word-aligned input. */
  lemma RoundTrip(s: Bytes, cap: nat, outCap: nat)
    requires |s| % 4 == 0
    ensures var e := Encode(s, cap);
            if e.Ok? then Decode(e.value, outCap) == Fit(s, outCap)
            else e == Error(Range) && cap < 5 * (|s| / 4)
  {
    UnwordsWords(s);
    DecodeWords(Words(s), outCap);
    LebAllLength(Words(s));
  }

  lemma SizeBound(s: Bytes)
    ensures |LebAll(Words(s))| <= 5 * (|s| / 4)
  {
    LebAllLength(Words(s));
  }

  lemma WordsStep(done: Bytes, s: Bytes, i: nat)
    requires i + 4 <= |s|
    ensures done + LebAll(Words(s[i..])) == done + Leb(FromLe32(s[i..])) + LebAll(Words(s[i + 4..]))
  {
    hide FromLe32, Leb;
    var w, ws := FromLe32(s[i..]), Words(s[i + 4..]);
    assert s[i..][4..] == s[i + 4..];
    assert Words(s[i..]) == [w] + ws && ([w] + ws)[1..] == ws;
    Assoc(done, Leb(w), LebAll(ws));
  }

  lemma NoWords(s: Bytes)
    requires |s| < 4
    ensures Words(s) == [] && LebAll([]) == []
  {
  }

  lemma WordOf(s: Bytes, i: nat)
    requires i + 4 <= |s|
    ensures FromLe32(s[i..i + 4]) == FromLe32(s[i..])
  {
  }

  method EncodeInto(input: Bytes, out: array<byte>) returns (r: Result<nat>)
    modifies out
    ensures Delivers(r, out[..], Encode(input, out.Length))
  {
    hide Words, LebAll, Leb, FromLe32;
    var i: nat, o: nat := 0, 0;
    ghost var body := LebAll(Words(input));
    assert input[0..] == input;
    while i < |input|
      invariant i <= |input| && o <= out.Length && i % 4 == 0
      invariant body == out[..o] + LebAll(Words(input[i..]))
    {
      if |input| - i < 4 {
        NoWords(input[i..]);
        return Error(Truncated);
      }
      var value := FromLe32(input[i..i + 4]);
      assert value == FromLe32(input[i..]) by { WordOf(input, i); }
      WordsStep(out[..o], input, i);
      ghost var tail := LebAll(Words(input[i + 4..]));
      var next, ok := WriteOne(value, out, o);
      if !ok {
        return Error(Range);
      }
      assert body == out[..next] + tail;
      i, o := i + 4, next;
    }
    NoWords(input[i..]);
    return Ok(o);
  }

  method DecodeInto(input: Bytes, out: array<byte>) returns (r: Result<nat>)
    modifies out
    ensures Delivers(r, out[..], Decode(input, out.Length))
  {
    var i: nat, o: nat := 0, 0;
    ghost var goal := Decode(input, out.Length);
    assert input[0..] == input;
    PrependNothing(goal);
    while i < |input|
      invariant i <= |input| && o <= out.Length
      invariant goal == Prepend(out[..o], Decode(input[i..], out.Length - o))
    {
      var one := ReadOne(input, i);
      if one.Error? {
        return Error(one.err);
      }
      var (value, n) := one.value;
      var next := i + n;
      assert input[i..][n..] == input[next..];
      if out.Length - o < 4 {
        return Error(Range);
      }
      ghost var done := out[..o];
      PutWord(value, out, o);
      PrependMore(done, Le32(value), Decode(input[next..], out.Length - o - 4));
      i, o := next, o + 4;
    }
    return Ok(o);
  }

  method PutWord(v: u32, out: array<byte>, o: nat)
    requires o + 4 <= out.Length
    modifies out
    ensures out[..o + 4] == old(out[..o]) + Le32(v)
  {
    var le := Le32(v);
    out[o], out[o + 1], out[o + 2], out[o + 3] := le[0], le[1], le[2], le[3];
  }
}
