/** The bounds-checked read cursor (src/core/buf.c). */
module Buffer {
  import opened Core

  // ---- reads from the front of what remains ----

  function TakeU8(s: Bytes): (r: Result<(byte, Bytes)>)
    ensures r.Ok? <==> |s| >= 1
  {
    if |s| < 1 then Error(Truncated) else Ok((s[0], s[1..]))
  }

  function TakeU16(s: Bytes): (r: Result<(u16, Bytes)>)
    ensures r.Ok? <==> |s| >= 2
  {
    if |s| < 2 then Error(Truncated) else Ok((FromLe16(s), s[2..]))
  }

  function TakeU32(s: Bytes): (r: Result<(u32, Bytes)>)
    ensures r.Ok? <==> |s| >= 4
  {
    if |s| < 4 then Error(Truncated) else Ok((FromLe32(s), s[4..]))
  }

  function TakeBytes(s: Bytes, n: nat): (r: Result<(Bytes, Bytes)>)
    ensures r.Ok? <==> |s| >= n
  {
    if n > |s| then Error(Truncated) else Ok((s[..n], s[n..]))
  }

  lemma TakesBack(b: byte, h: u16, w: u32, bytes: Bytes, rest: Bytes)
    ensures TakeU8([b] + rest) == Ok((b, rest))
    ensures TakeU16(Le16(h) + rest) == Ok((h, rest))
    ensures TakeU32(Le32(w) + rest) == Ok((w, rest))
    ensures TakeBytes(bytes + rest, |bytes|) == Ok((bytes, rest))
  {
    Le16RoundTrip(h, rest);
    Le32RoundTrip(w, rest);
    assert ([b] + rest)[1..] == rest;
    assert (Le16(h) + rest)[2..] == rest;
    assert (Le32(w) + rest)[4..] == rest;
    assert (bytes + rest)[..|bytes|] == bytes && (bytes + rest)[|bytes|..] == rest;
  }

  /** A cursor moves past what a read took, and stays put when the read fails. */
  class Cursor {
    const data: Bytes
    var pos: nat

    ghost predicate Valid()
      reads this
    {
      pos <= |data|
    }

    function Rest(): Bytes
      reads this
      requires Valid()
    {
      data[pos..]
    }

    function Remaining(): nat
      reads this
      requires Valid()
    {
      |data| - pos
    }

    constructor (data: Bytes)
      ensures Valid() && this.data == data && pos == 0 && Rest() == data
    {
      this.data := data;
      pos := 0;
    }

    method ReadU8() returns (r: Result<byte>)
      requires Valid()
      modifies this`pos
      ensures Valid()
      ensures match TakeU8(old(Rest()))
              case Ok((v, rest)) => r == Ok(v) && Rest() == rest && pos == old(pos) + 1
              case Error(e) => r == Error(e) && pos == old(pos)
    {
      if |data| - pos < 1 {
        return Error(Truncated);
      }
      r := Ok(data[pos]);
      pos := pos + 1;
    }

    method ReadU16() returns (r: Result<u16>)
      requires Valid()
      modifies this`pos
      ensures Valid()
      ensures match TakeU16(old(Rest()))
              case Ok((v, rest)) => r == Ok(v) && Rest() == rest && pos == old(pos) + 2
              case Error(e) => r == Error(e) && pos == old(pos)
    {
      if |data| - pos < 2 {
        return Error(Truncated);
      }
      r := Ok(FromLe16(data[pos..]));
      pos := pos + 2;
    }

    method ReadU32() returns (r: Result<u32>)
      requires Valid()
      modifies this`pos
      ensures Valid()
      ensures match TakeU32(old(Rest()))
              case Ok((v, rest)) => r == Ok(v) && Rest() == rest && pos == old(pos) + 4
              case Error(e) => r == Error(e) && pos == old(pos)
    {
      if |data| - pos < 4 {
        return Error(Truncated);
      }
      r := Ok(FromLe32(data[pos..]));
      pos := pos + 4;
    }

    method ReadBytes(n: nat) returns (r: Result<Bytes>)
      requires Valid()
      modifies this`pos
      ensures Valid()
      ensures match TakeBytes(old(Rest()), n)
              case Ok((v, rest)) => r == Ok(v) && Rest() == rest && pos == old(pos) + n
              case Error(e) => r == Error(e) && pos == old(pos)
    {
      if n > |data| - pos {
        return Error(Truncated);
      }
      assert data[pos..][..n] == data[pos..pos + n] && data[pos..][n..] == data[pos + n..];
      r := Ok(data[pos..pos + n]);
      pos := pos + n;
    }
  }
}
