/** Field-by-field comparison of records and of record streams (src/report/diff.c). */
module Diff {
  import opened Core
  import opened Records

  // ---- IEEE single precision, on bit patterns ----

  function Magnitude(x: u32): nat { x % 0x8000_0000 }

  predicate IsNaN(x: u32) { Magnitude(x) > 0x7F80_0000 }

  /** `==` on floats: NaN equals nothing, the two zeros are equal. */
  predicate FloatEqual(x: u32, y: u32) {
    !IsNaN(x) && !IsNaN(y) && (x == y || (Magnitude(x) == 0 && Magnitude(y) == 0))
  }

  predicate SamplesEqual(a: seq<u32>, b: seq<u32>) {
    |a| == |b| && forall i | 0 <= i < |a| :: FloatEqual(a[i], b[i])
  }

  predicate PairsEqual(a: seq<(Bytes, Bytes)>, b: seq<(Bytes, Bytes)>) {
    && |a| == |b|
    && forall i | 0 <= i < |a| :: CStr(a[i].0) == CStr(b[i].0) && CStr(a[i].1) == CStr(b[i].1)
  }

  /** `dtl_record_compare` finding nothing. Strings are compared up to their first
      NUL, LOG lengths not at all; ignoring redaction leaves of a KEYREF the slot. */
  predicate Equal(a: Record, b: Record, ignoreRedaction: bool) {
    TagOf(a) == TagOf(b) &&
    match (a, b)
    case (Sensor(id, s), Sensor(id', s')) => id == id' && SamplesEqual(s, s')
    case (Diag(sub, blob, red), Diag(sub', blob', red')) =>
      sub == sub' && (ignoreRedaction || red == red') && blob == blob'
    case (Log(sev, msg), Log(sev', msg')) => sev == sev' && CStr(msg) == CStr(msg')
    case (Config(pairs), Config(pairs')) => PairsEqual(pairs, pairs')
    case (Keyref(slot, text, red), Keyref(slot', text', red')) =>
      slot == slot' && (ignoreRedaction || (red == red' && CStr(text) == CStr(text')))
    case _ => a == b
  }

  lemma EqualSymmetric(a: Record, b: Record, ignore: bool)
    ensures Equal(a, b, ignore) <==> Equal(b, a, ignore)
  {
    hide Magnitude, CStr;
  }

  lemma FloatTransitive(x: u32, y: u32, z: u32)
    requires FloatEqual(x, y) && FloatEqual(y, z)
    ensures FloatEqual(x, z)
  {
  }

  lemma EqualTransitive(a: Record, b: Record, c: Record, ignore: bool)
    requires Equal(a, b, ignore) && Equal(b, c, ignore)
    ensures Equal(a, c, ignore)
  {
    hide FloatEqual, CStr;
    if a.Sensor? {
      forall i | 0 <= i < |a.samples| ensures FloatEqual(a.samples[i], c.samples[i]) {
        FloatTransitive(a.samples[i], b.samples[i], c.samples[i]);
      }
    }
  }

  /** The comparator is not reflexive: exactly the NaN samples break it. */
  predicate Comparable(r: Record) { r.Sensor? ==> forall i | 0 <= i < |r.samples| :: !IsNaN(r.samples[i]) }

  lemma {:induction false} CanonPairsAt(pairs: seq<(Bytes, Bytes)>, i: nat)
    requires i < |pairs|
    ensures CanonPairs(pairs)[i] == (CStr(pairs[i].0), CStr(pairs[i].1))
  {
    if i > 0 { CanonPairsAt(pairs[1..], i - 1); }
  }

  lemma CanonPairsEqual(pairs: seq<(Bytes, Bytes)>)
    ensures PairsEqual(pairs, CanonPairs(pairs))
  {
    forall i | 0 <= i < |pairs|
      ensures CStr(pairs[i].0) == CStr(CanonPairs(pairs)[i].0) && CStr(pairs[i].1) == CStr(CanonPairs(pairs)[i].1)
    {
      CanonPairsAt(pairs, i);
    }
  }

  /** What the wire changes, the comparator does not see. */
  lemma CanonEqual(r: Record)
    ensures Equal(r, Canon(r), true) <==> Comparable(r)
  {
    if r.Config? { CanonPairsEqual(r.pairs); }
  }

  lemma CanonInvisible(a: Record, b: Record)
    ensures Equal(Canon(a), Canon(b), true) <==> Equal(a, b, true)
  {
    if a.Config? && b.Config? {
      CanonPairsEqual(a.pairs);
      CanonPairsEqual(b.pairs);
      EqualSymmetric(a, Canon(a), true);
      EqualSymmetric(b, Canon(b), true);
      if Equal(a, b, true) {
        EqualTransitive(Canon(a), a, b, true);
        EqualTransitive(Canon(a), b, Canon(b), true);
      }
      if Equal(Canon(a), Canon(b), true) {
        EqualTransitive(a, Canon(a), Canon(b), true);
        EqualTransitive(a, Canon(b), b, true);
      }
    }
  }

  // ---- the comparator against the documented equality ----

  /** Field-for-field identity. Ignoring redaction, neither the flags nor a payload
      that one side has cleared are compared. */
  predicate Identical(a: Record, b: Record, ignoreRedaction: bool) {
    match (a, b)
    case (Diag(sub, blob, red), Diag(sub', blob', red')) =>
      sub == sub' && if ignoreRedaction then red || red' || blob == blob' else red == red' && blob == blob'
    case (Keyref(slot, text, red), Keyref(slot', text', red')) =>
      slot == slot' && if ignoreRedaction then red || red' || text == text' else red == red' && text == text'
    case _ => a == b
  }

  /** Samples without a NaN that differ, but only in the signs of zeros. */
  predicate ZerosDiffer(s: seq<u32>, t: seq<u32>) {
    && |s| == |t| && s != t
    && forall i | 0 <= i < |s| :: !IsNaN(s[i]) && (s[i] == t[i] || (Magnitude(s[i]) == 0 && Magnitude(t[i]) == 0))
  }

  predicate HasNaN(r: Record) { r.Sensor? && exists i :: 0 <= i < |r.samples| && IsNaN(r.samples[i]) }

  /** Distinct records that the code takes for equal: key references to one slot,
      strings that differ only behind a NUL, zeros of different sign. */
  predicate Coarser(a: Record, b: Record, ignoreRedaction: bool) {
    match (a, b)
    case (Keyref(slot, text, red), Keyref(slot', text', red')) =>
      slot == slot' && text != text' && if ignoreRedaction then !red && !red' else red == red' && CStr(text) == CStr(text')
    case (Log(sev, msg), Log(sev', msg')) => sev == sev' && msg != msg' && CStr(msg) == CStr(msg')
    case (Config(pairs), Config(pairs')) => pairs != pairs' && PairsEqual(pairs, pairs')
    case (Sensor(id, s), Sensor(id', s')) => id == id' && ZerosDiffer(s, s')
    case _ => false
  }

  /** Identical records that the code takes for different: NaN samples, and DIAG
      blobs of which one was cleared. */
  predicate Finer(a: Record, b: Record, ignoreRedaction: bool) {
    match (a, b)
    case (Sensor(_, _), Sensor(_, _)) => a == b && HasNaN(a)
    case (Diag(sub, blob, red), Diag(sub', blob', red')) =>
      ignoreRedaction && sub == sub' && (red || red') && blob != blob'
    case _ => false
  }

  lemma SamplesMean(s: seq<u32>, t: seq<u32>)
    ensures SamplesEqual(s, t) <==> (s == t && forall i | 0 <= i < |s| :: !IsNaN(s[i])) || ZerosDiffer(s, t)
  {
    hide Magnitude;
    if SamplesEqual(s, t) {
      forall i | 0 <= i < |s| ensures !IsNaN(s[i]) { assert FloatEqual(s[i], t[i]); }
    }
    if ZerosDiffer(s, t) {
      forall i | 0 <= i < |s| ensures FloatEqual(s[i], t[i]) {
        if s[i] != t[i] { ZeroIsNumber(t[i]); }
      }
    }
  }

  lemma ZeroIsNumber(x: u32)
    requires Magnitude(x) == 0
    ensures !IsNaN(x)
  {
  }

  lemma OpaqueMeans(a: Record, b: Record, ignore: bool)
    requires a.Diag? || a.Keyref? || a.Log?
    ensures Equal(a, b, ignore) <==> (Identical(a, b, ignore) && !Finer(a, b, ignore)) || Coarser(a, b, ignore)
    ensures Coarser(a, b, ignore) ==> !Identical(a, b, ignore)
    ensures Finer(a, b, ignore) ==> Identical(a, b, ignore)
  {
    hide CStr, ZerosDiffer, IsNaN, SamplesEqual, PairsEqual, TagOf;
    SameKind(a, b);
  }

  lemma OthersMean(a: Record, b: Record, ignore: bool)
    requires !a.Diag? && !a.Keyref? && !a.Log?
    ensures Equal(a, b, ignore) <==> (Identical(a, b, ignore) && !Finer(a, b, ignore)) || Coarser(a, b, ignore)
    ensures Coarser(a, b, ignore) ==> !Identical(a, b, ignore)
    ensures Finer(a, b, ignore) ==> Identical(a, b, ignore)
  {
    hide CStr, ZerosDiffer, IsNaN, SamplesEqual, PairsEqual, TagOf;
    SameKind(a, b);
    if a.Sensor? && b.Sensor? {
      SamplesMean(a.samples, b.samples);
      ZerosNotSame(a.samples, b.samples);
    }
    if a.Config? && b.Config? { PairsReflexive(a.pairs); }
  }

  lemma SameKind(a: Record, b: Record)
    ensures a == b ==> TagOf(a) == TagOf(b)
    ensures (a.Diag? && b.Diag?) || (a.Keyref? && b.Keyref?) || (a.Log? && b.Log?) ==> TagOf(a) == TagOf(b)
    ensures (a.Config? && b.Config?) || (a.Sensor? && b.Sensor?) ==> TagOf(a) == TagOf(b)
  {
  }

  lemma PairsReflexive(pairs: seq<(Bytes, Bytes)>)
    ensures PairsEqual(pairs, pairs)
  {
  }

  /** What the comparator decides, in terms of the documented equality. */
  lemma EqualMeans(a: Record, b: Record, ignore: bool)
    ensures Equal(a, b, ignore) <==> (Identical(a, b, ignore) && !Finer(a, b, ignore)) || Coarser(a, b, ignore)
    ensures Coarser(a, b, ignore) ==> !Identical(a, b, ignore)
    ensures Finer(a, b, ignore) ==> Identical(a, b, ignore)
  {
    hide Equal, Identical, Coarser, Finer;
    if a.Diag? || a.Keyref? || a.Log? { OpaqueMeans(a, b, ignore); } else { OthersMean(a, b, ignore); }
  }

  lemma ZerosNotSame(s: seq<u32>, t: seq<u32>)
    ensures ZerosDiffer(s, t) ==> s != t
  {
  }

  /** The comparator is the documented equality exactly outside these cases. */
  lemma EqualIff(a: Record, b: Record, ignore: bool)
    ensures (Equal(a, b, ignore) <==> Identical(a, b, ignore)) <==> !Coarser(a, b, ignore) && !Finer(a, b, ignore)
  {
    hide Equal, Identical, Coarser, Finer;
    EqualMeans(a, b, ignore);
  }

  lemma StringExamples()
    ensures var a, b := Keyref(1, [97], false), Keyref(1, [98], false);
            WellFormed(a) && WellFormed(b) && Equal(a, b, true) && !Identical(a, b, true)
    ensures var a, b := Log(1, [97, 0, 98]), Log(1, [97, 0, 99]);
            WellFormed(a) && WellFormed(b) && Equal(a, b, false) && !Identical(a, b, false)
  {
    hide Le16;
    assert CStr([97, 0, 98]) == [97] by { assert [97, 0, 98][1..] == [0, 98]; }
    assert CStr([97, 0, 99]) == [97] by { assert [97, 0, 99][1..] == [0, 99]; }
    assert [97, 0, 98][2] != [97, 0, 99][2] && [97][0] != [98][0];
  }

  lemma SampleExamples()
    ensures var a, b := Sensor(1, [0]), Sensor(1, [0x8000_0000]);
            WellFormed(a) && WellFormed(b) && Equal(a, b, false) && !Identical(a, b, false)
    ensures var a := Sensor(1, [0x7FC0_0000]);
            WellFormed(a) && !Equal(a, a, false) && Identical(a, a, false)
  {
    hide Le16, Le32, CStr, FloatEqual;
    FloatExamples();
    assert [0][0] != [0x8000_0000][0];
    var nan: seq<u32> := [0x7FC0_0000];
    assert !FloatEqual(nan[0], nan[0]);
  }

  lemma FloatExamples()
    ensures FloatEqual(0, 0x8000_0000) && !FloatEqual(0x7FC0_0000, 0x7FC0_0000) && IsNaN(0x7FC0_0000)
  {
  }

  lemma OnePair(k: Bytes, c: byte)
    requires CStr(k) == [c]
    ensures WellFormed(Config([(k, [])])) && PairBytes([(k, [])]) == Ok([1, c, 0])
  {
    hide Le16;
    var pairs: seq<(Bytes, Bytes)> := [(k, [])];
    assert pairs[1..] == [] && CStr([]) == [];
    assert PairBytes([]) == Ok([]);
    assert [1] + [c] + [0] + [] == [1, c, 0] && [1, c, 0] + [] == [1, c, 0];
  }

  lemma ConfigExample()
    ensures var a, b := Config([([97, 0, 98], [])]), Config([([97, 0, 99], [])]);
            WellFormed(a) && WellFormed(b) && Equal(a, b, false) && !Identical(a, b, false)
  {
    hide WellFormed;
    var p, q := [97, 0, 98], [97, 0, 99];
    assert CStr(p) == [97] by { assert p[1..] == [0, 98]; }
    assert CStr(q) == [97] by { assert q[1..] == [0, 99]; }
    OnePair(p, 97);
    OnePair(q, 97);
    var a: seq<(Bytes, Bytes)>, b: seq<(Bytes, Bytes)> := [(p, [])], [(q, [])];
    assert p[2] != q[2] && a[0].0 != b[0].0;
  }

  /** One witness of each kind, all of them records that come off the wire. */
  lemma EqualExamples()
    ensures var a, b := Keyref(1, [97], false), Keyref(1, [98], false);
            WellFormed(a) && WellFormed(b) && Equal(a, b, true) && !Identical(a, b, true)
    ensures var a, b := Log(1, [97, 0, 98]), Log(1, [97, 0, 99]);
            WellFormed(a) && WellFormed(b) && Equal(a, b, false) && !Identical(a, b, false)
    ensures var a, b := Config([([97, 0, 98], [])]), Config([([97, 0, 99], [])]);
            WellFormed(a) && WellFormed(b) && Equal(a, b, false) && !Identical(a, b, false)
    ensures var a, b := Sensor(1, [0]), Sensor(1, [0x8000_0000]);
            WellFormed(a) && WellFormed(b) && Equal(a, b, false) && !Identical(a, b, false)
    ensures var a := Sensor(1, [0x7FC0_0000]);
            WellFormed(a) && !Equal(a, a, false) && Identical(a, a, false)
  {
    hide WellFormed, Equal, Identical;
    StringExamples();
    ConfigExample();
    SampleExamples();
  }

  // ---- streams ----

  function Differs(a: Record, b: Record, ignore: bool): nat { if Equal(a, b, ignore) then 0 else 1 }

  /** Differing positions of the common part, and every record of the longer tail. */
  function Diffs(a: seq<Record>, b: seq<Record>, ignore: bool): nat {
    if a == [] then |b| else if b == [] then |a|
    else Differs(a[0], b[0], ignore) + Diffs(a[1..], b[1..], ignore)
  }

  /** The count is an equality oracle. */
  lemma {:induction false} NoDiffs(a: seq<Record>, b: seq<Record>, ignore: bool)
    ensures Diffs(a, b, ignore) == 0 <==> |a| == |b| && forall i | 0 <= i < |a| :: Equal(a[i], b[i], ignore)
  {
    hide Equal;
    if a != [] && b != [] {
      NoDiffs(a[1..], b[1..], ignore);
      if |a| == |b| && forall i | 0 <= i < |a| :: Equal(a[i], b[i], ignore) {
        assert forall i | 0 <= i < |a[1..]| :: a[1..][i] == a[i + 1] && b[1..][i] == b[i + 1];
      }
      if Diffs(a, b, ignore) == 0 {
        forall i | 0 <= i < |a| ensures Equal(a[i], b[i], ignore) {
          if i > 0 { assert a[i] == a[1..][i - 1] && b[i] == b[1..][i - 1]; }
        }
      }
    }
  }

  /** What the oracle certifies: a count of 0 means identity throughout exactly when
      no position has zeros, labels or hidden string tails that differ; and identical
      streams count 0 exactly when no position has a NaN or a cleared DIAG blob. */
  lemma NoDiffsMean(a: seq<Record>, b: seq<Record>, ignore: bool)
    ensures var same := |a| == |b| && forall i | 0 <= i < |a| :: Identical(a[i], b[i], ignore);
            && (Diffs(a, b, ignore) == 0 ==>
                  (same <==> forall i | 0 <= i < |a| && i < |b| :: !Coarser(a[i], b[i], ignore)))
            && (same ==>
                  (Diffs(a, b, ignore) == 0 <==> forall i | 0 <= i < |a| :: !Finer(a[i], b[i], ignore)))
  {
    hide Equal, Identical, Coarser, Finer, Diffs;
    NoDiffs(a, b, ignore);
    forall i | 0 <= i < |a| && i < |b|
      ensures Equal(a[i], b[i], ignore) <==>
                (Identical(a[i], b[i], ignore) && !Finer(a[i], b[i], ignore)) || Coarser(a[i], b[i], ignore)
      ensures Coarser(a[i], b[i], ignore) ==> !Identical(a[i], b[i], ignore)
      ensures Finer(a[i], b[i], ignore) ==> Identical(a[i], b[i], ignore)
    {
      EqualMeans(a[i], b[i], ignore);
    }
  }

  lemma {:induction false} DiffsSymmetric(a: seq<Record>, b: seq<Record>, ignore: bool)
    ensures Diffs(a, b, ignore) == Diffs(b, a, ignore)
  {
    if a != [] && b != [] {
      EqualSymmetric(a[0], b[0], ignore);
      DiffsSymmetric(a[1..], b[1..], ignore);
    }
  }

  ghost function Shorter(a: seq<Record>, b: seq<Record>): nat { if |a| < |b| then |a| else |b| }

  /** The positions from `k` on where both files have a record and the two differ. */
  ghost function Disagreements(a: seq<Record>, b: seq<Record>, k: nat, ignore: bool): set<nat> {
    set i: nat | k <= i < Shorter(a, b) && !Equal(a[i], b[i], ignore)
  }

  lemma {:induction false} DiffsFrom(a: seq<Record>, b: seq<Record>, k: nat, ignore: bool)
    requires k <= Shorter(a, b)
    ensures Diffs(a[k..], b[k..], ignore) == |Disagreements(a, b, k, ignore)| + (|a| - Shorter(a, b)) + (|b| - Shorter(a, b))
    decreases Shorter(a, b) - k
  {
    hide Equal;
    var here := Disagreements(a, b, k, ignore);
    if k == Shorter(a, b) {
      assert here == {};
    } else {
      var more := Disagreements(a, b, k + 1, ignore);
      DiffsFrom(a, b, k + 1, ignore);
      assert a[k..][1..] == a[k + 1..] && b[k..][1..] == b[k + 1..];
      assert here == if Equal(a[k], b[k], ignore) then more else {k} + more;
    }
  }

  /** The number reported: one for each common position that differs, and one for each
      record that only the longer file has. */
  lemma DiffsCount(a: seq<Record>, b: seq<Record>, ignore: bool)
    ensures Diffs(a, b, ignore) == |Disagreements(a, b, 0, ignore)| + if |a| > |b| then |a| - |b| else |b| - |a|
  {
    DiffsFrom(a, b, 0, ignore);
    assert a[0..] == a && b[0..] == b;
  }

  /** The three counting loops of `dtl_diff_files`. */
  method CountDiffs(a: seq<Record>, b: seq<Record>, ignore: bool) returns (diffs: nat)
    ensures diffs == Diffs(a, b, ignore)
  {
    hide Equal;
    diffs := 0;
    var common := if |a| < |b| then |a| else |b|;
    for i := 0 to common
      invariant Diffs(a, b, ignore) == diffs + Diffs(a[i..], b[i..], ignore)
    {
      assert a[i..][1..] == a[i + 1..] && b[i..][1..] == b[i + 1..];
      if !Equal(a[i], b[i], ignore) {
        diffs := diffs + 1;
      }
    }
    ghost var sofar := diffs;
    for i := common to |a|
      invariant diffs == sofar + (i - common)
    {
      diffs := diffs + 1;
    }
    for i := common to |b|
      invariant diffs == sofar + (|a| - common) + (i - common)
    {
      diffs := diffs + 1;
    }
  }
}
