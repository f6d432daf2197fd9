/** Run-length codec, id 1 (src/codec/rle.c). */
module Rle {
  import opened Core

  const MAX_RUN := 255

  /** Length of the run that starts `s`, looking from position `n` on, capped at 255. */
  function RunFrom(s: Bytes, n: nat): (r: nat)
    requires 1 <= n <= |s| && n <= MAX_RUN
    requires forall k | 0 <= k < n :: s[k] == s[0]
    ensures n <= r <= |s| && r <= MAX_RUN
    ensures forall k | 0 <= k < r :: s[k] == s[0]
    ensures r < |s| && r < MAX_RUN ==> s[r] != s[0]
    decreases |s| - n
  {
    if n < |s| && s[n] == s[0] && n < MAX_RUN then RunFrom(s, n + 1) else n
  }

  function Run(s: Bytes): (r: nat)
    requires s != []
    ensures 1 <= r <= |s| && r <= MAX_RUN
  {
    RunFrom(s, 1)
  }

  function Encode(s: Bytes): Bytes {
    if s == [] then [] else [Run(s), s[0]] + Encode(s[Run(s)..])
  }

  function Repeat(n: nat, v: byte): (s: Bytes)
    ensures |s| == n && forall k | 0 <= k < n :: s[k] == v
  {
    seq(n, _ => v)
  }

  function Decode(e: Bytes, cap: nat): Result<Bytes> {
    if e == [] then Ok([])
    else if |e| < 2 then Error(Truncated)
    else if e[0] == 0 then Error(BadRecord)
    else if cap < e[0] then Error(Range)
    else Prepend(Repeat(e[0], e[1]), Decode(e[2..], cap - e[0]))
  }

  /** Decoding an encoding gives the input back, or RANGE when it does not fit. */
  lemma {:induction false} RoundTrip(s: Bytes, cap: nat)
    ensures Decode(Encode(s), cap) == Fit(s, cap)
  {
    if s != [] {
      var n := Run(s);
      var e := Encode(s);
      assert e[2..] == Encode(s[n..]);
      if n <= cap {
        RoundTrip(s[n..], cap - n);
        assert s == Repeat(n, s[0]) + s[n..];
      }
    }
  }

  lemma {:induction false} SizeBound(s: Bytes)
    ensures |Encode(s)| <= 2 * |s|
  {
    if s != [] { SizeBound(s[Run(s)..]); }
  }

  /** Dropping a prefix never makes the greedy encoding longer. */
  lemma {:induction false} SuffixCost(s: Bytes, k: nat)
    requires k <= |s|
    ensures |Encode(s[k..])| <= |Encode(s)|
    decreases |s|
  {
    if 0 < k < |s| {
      var n := Run(s);
      if k >= n {
        assert s[n..][k - n..] == s[k..];
        SuffixCost(s[n..], k - n);
      } else {
        var t := s[k..];
        var m := Run(t);
        assert forall j | 0 <= j < n - k :: t[j] == s[k + j];
        assert m >= n - k;
        assert t[m..] == s[n..][k + m - n..];
        SuffixCost(s[n..], k + m - n);
      }
    } else if k == 0 {
      assert s[k..] == s;
    }
  }

  /** Greedy is optimal: no count/value string that decodes to `s` is shorter. */
  lemma {:induction false} Optimal(s: Bytes, e: Bytes, cap: nat)
    requires Decode(e, cap) == Ok(s)
    ensures |Encode(s)| <= |e|
  {
    if e != [] {
      var c := e[0];
      var rest := Decode(e[2..], cap - c);
      assert s == Repeat(c, e[1]) + rest.value;
      assert s[c..] == rest.value;
      Optimal(s[c..], e[2..], cap - c);
      var n := Run(s);
      assert forall k | 0 <= k < c :: s[k] == e[1];
      assert n >= c;
      assert s[n..] == s[c..][n - c..];
      SuffixCost(s[c..], n - c);
    }
  }

  method RunAt(input: Bytes, i: nat) returns (run: nat)
    requires i < |input|
    ensures run == Run(input[i..])
  {
    var value := input[i];
    run := 1;
    while i + run < |input| && input[i + run] == value && run < MAX_RUN
      invariant 1 <= run <= |input| - i && run <= MAX_RUN
      invariant forall k | 0 <= k < run :: input[i..][k] == value
      invariant Run(input[i..]) == RunFrom(input[i..], run)
    {
      run := run + 1;
    }
  }

  lemma EncodeStep(whole: Bytes, done: Bytes, t: Bytes)
    requires t != [] && whole == done + Encode(t)
    ensures whole == done + [Run(t), t[0]] + Encode(t[Run(t)..])
  {
    var n := Run(t);
    var pair, rest := [n, t[0]], Encode(t[n..]);
    assert Encode(t) == pair + rest;
    Assoc(done, pair, rest);
  }

  method EncodeInto(input: Bytes, out: array<byte>) returns (r: Result<nat>)
    modifies out
    ensures Delivers(r, out[..], Fit(Encode(input), out.Length))
  {
    var i, o := 0, 0;
    assert input[0..] == input;
    while i < |input|
      invariant 0 <= i <= |input| && 0 <= o <= out.Length
      invariant Encode(input) == out[..o] + Encode(input[i..])
    {
      var run := RunAt(input, i);
      ghost var done := out[..o];
      EncodeStep(Encode(input), done, input[i..]);
      assert input[i..][run..] == input[i + run..];
      if out.Length - o < 2 {
        return Error(Range);
      }
      out[o], out[o + 1] := run, input[i];
      o := o + 2;
      assert out[..o] == done + [run, input[i]];
      i := i + run;
    }
    assert Encode(input) == out[..o];
    return Ok(o);
  }

  method DecodeInto(input: Bytes, out: array<byte>) returns (r: Result<nat>)
    modifies out
    ensures Delivers(r, out[..], Decode(input, out.Length))
  {
    var i, o := 0, 0;
    assert input[0..] == input;
    PrependNothing(Decode(input, out.Length));
    while i < |input|
      invariant 0 <= i <= |input| && 0 <= o <= out.Length
      invariant Decode(input, out.Length) == Prepend(out[..o], Decode(input[i..], out.Length - o))
    {
      if |input| - i < 2 {
        return Error(Truncated);
      }
      var count, value := input[i], input[i + 1];
      assert input[i..][2..] == input[i + 2..];
      if count == 0 {
        return Error(BadRecord);
      }
      if out.Length - o < count {
        return Error(Range);
      }
      ghost var done := out[..o];
      forall k | o <= k < o + count {
        out[k] := value;
      }
      assert out[..o + count] == done + Repeat(count, value);
      PrependMore(done, Repeat(count, value), Decode(input[i + 2..], out.Length - o - count));
      i, o := i + 2, o + count;
    }
    return Ok(o);
  }
}
