/** Shared vocabulary: machine-width integers, error codes, results and the
    little-endian byte order used by every on-disk field (src/core). */
module Core {
  type byte = x: int | 0 <= x < 0x100
  type u16 = x: int | 0 <= x < 0x1_0000
  type u32 = x: int | 0 <= x < 0x1_0000_0000
  type i16 = x: int | -0x8000 <= x < 0x8000
  type i32 = x: int | -0x8000_0000 <= x < 0x8000_0000
  type Bytes = seq<byte>

  /** The error codes of src/core/err.h. `OutOfBounds` is not one of them: it
      marks a run on which the C code would touch memory outside its buffer. */
  datatype Err =
    | Truncated | BadMagic | BadVersion | BadHeader | BadRecord | Range
    | Oom | Inval | Io | BadQuery
    | OutOfBounds

  datatype Option<+T> = None | Some(value: T)

  datatype Result<+T> = Ok(value: T) | Error(err: Err)
  {
    predicate IsFailure() { Error? }
    function PropagateFailure<U>(): Result<U>
      requires Error?
    {
      Error(err)
    }
    function Extract(): T
      requires Ok?
    {
      value
    }
  }

  /** Largest decompressed section, a format constant. */
  const SECTION_MAX_RAW := 64 * 1024 * 1024

  function Pow2(k: nat): nat { if k == 0 then 1 else 2 * Pow2(k - 1) }

  /** What a C routine leaves behind: on success it wrote exactly the specified
      bytes at the front of its output buffer and returned their number. */
  ghost predicate Delivers(r: Result<nat>, out: Bytes, spec: Result<Bytes>) {
    match spec
    case Ok(bytes) => r == Ok(|bytes|) && |bytes| <= |out| && out[..|bytes|] == bytes
    case Error(e) => r == Error(e)
  }

  /** Output of a routine whose only failure is lack of room. */
  function Fit(bytes: Bytes, cap: nat): Result<Bytes> {
    if |bytes| <= cap then Ok(bytes) else Error(Range)
  }

  /** `done` bytes are already written; `rest` says what the remaining run does. */
  function Prepend(done: Bytes, rest: Result<Bytes>): Result<Bytes> {
    match rest
    case Ok(more) => Ok(done + more)
    case Error(e) => Error(e)
  }

  lemma PrependNothing(rest: Result<Bytes>)
    ensures Prepend([], rest) == rest
  {
    if rest.Ok? { assert [] + rest.value == rest.value; }
  }

  lemma PrependMore(done: Bytes, more: Bytes, rest: Result<Bytes>)
    ensures Prepend(done, Prepend(more, rest)) == Prepend(done + more, rest)
  {
    if rest.Ok? { assert done + (more + rest.value) == done + more + rest.value; }
  }

  lemma Assoc<T>(a: seq<T>, b: seq<T>, c: seq<T>)
    ensures a + (b + c) == a + b + c
  {
  }

  // ---- little-endian fields (src/core/endian.c) ----

  function Le16(v: u16): (s: Bytes)
    ensures |s| == 2
  {
    [v % 0x100, v / 0x100]
  }

  function Le32(v: u32): (s: Bytes)
    ensures |s| == 4
  {
    [v % 0x100, v / 0x100 % 0x100, v / 0x1_0000 % 0x100, v / 0x100_0000]
  }

  function FromLe16(s: Bytes): u16
    requires |s| >= 2
  {
    s[0] as int + 0x100 * (s[1] as int)
  }

  function FromLe32(s: Bytes): u32
    requires |s| >= 4
  {
    s[0] as int + 0x100 * (s[1] as int) + 0x1_0000 * (s[2] as int) + 0x100_0000 * (s[3] as int)
  }

  lemma Le16RoundTrip(v: u16, rest: Bytes)
    ensures FromLe16(Le16(v) + rest) == v
  {
  }

  lemma Le32RoundTrip(v: u32, rest: Bytes)
    ensures FromLe32(Le32(v) + rest) == v
  {
    var v1 := v / 0x100;
    var v2 := v1 / 0x100;
    var v3 := v2 / 0x100;
    assert v2 == v / 0x1_0000 && v3 == v / 0x100_0000;
    assert v == v % 0x100 + 0x100 * v1;
    assert v1 == v1 % 0x100 + 0x100 * v2;
    assert v2 == v2 % 0x100 + 0x100 * v3;
    var s := Le32(v) + rest;
    assert s[0] == v % 0x100 && s[1] == v1 % 0x100 && s[2] == v2 % 0x100 && s[3] == v3;
  }

  lemma Le32Unique(s: Bytes)
    requires |s| == 4
    ensures Le32(FromLe32(s)) == s
  {
    var a, b, c, d := s[0] as int, s[1] as int, s[2] as int, s[3] as int;
    var v := FromLe32(s);
    assert v / 0x100 == b + 0x100 * c + 0x1_0000 * d;
    assert v / 0x1_0000 == c + 0x100 * d;
    assert v / 0x100_0000 == d;
    assert Le32(v) == [a, b, c, d];
  }

  // ---- two's complement casts ----

  function U32OfI32(v: i32): u32 {
    if v < 0 then v + 0x1_0000_0000 else v
  }

  function I32OfU32(v: u32): i32 {
    if v >= 0x8000_0000 then v - 0x1_0000_0000 else v
  }

  function U16OfI16(v: i16): u16 {
    if v < 0 then v + 0x1_0000 else v
  }

  function I16OfU16(v: u16): i16 {
    if v >= 0x8000 then v - 0x1_0000 else v
  }

  // ---- C strings ----

  /** The bytes `strlen` sees: everything before the first NUL. */
  function CStr(s: Bytes): (r: Bytes)
    ensures r <= s
    ensures 0 !in r
    ensures r == s <==> 0 !in s
  {
    if s == [] || s[0] == 0 then []
    else
      assert s == [s[0]] + s[1..];
      [s[0]] + CStr(s[1..])
  }

  lemma CStrTwice(s: Bytes)
    ensures CStr(CStr(s)) == CStr(s)
  {
  }

  /** A string literal of the C source. */
  function Ascii(s: string): (b: Bytes)
    ensures |b| == |s|
    ensures forall i | 0 <= i < |s| && s[i] < 128 as char :: b[i] == s[i] as int
  {
    seq(|s|, i requires 0 <= i < |s| => if s[i] < 128 as char then s[i] as int else 0)
  }
}
