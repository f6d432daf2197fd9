/** Split and merge: stable partitions of a record stream by tag
    (src/report/split.c, src/report/merge.c). */
module ByTag {
  import opened Core
  import opened Records
  import opened Walk
  import opened WriterSpec
  import opened Replay
  import opened Tools
  import opened Pipeline
  import Codecs
  import Container
  import Tlv

  const TAGS := 256

  /** The records of one tag, in their original order. */
  function OfTag(rs: seq<Record>, tag: byte): seq<Record> {
    if rs == [] then []
    else
      var n := |rs| - 1;
      OfTag(rs[..n], tag) + if TagOf(rs[n]) == tag then [rs[n]] else []
  }

  lemma {:induction false} OfTagMembers(rs: seq<Record>, tag: byte)
    ensures forall x | x in OfTag(rs, tag) :: x in rs && TagOf(x) == tag
  {
    if rs != [] { OfTagMembers(rs[..|rs| - 1], tag); }
  }

  lemma {:induction false} OfTagNone(rs: seq<Record>, tag: byte)
    requires forall x | x in rs :: TagOf(x) != tag
    ensures OfTag(rs, tag) == []
  {
    hide TagOf;
    if rs != [] { OfTagNone(rs[..|rs| - 1], tag); }
  }

  lemma OfTagSnoc(rs: seq<Record>, x: Record, tag: byte)
    ensures OfTag(rs + [x], tag) == OfTag(rs, tag) + if TagOf(x) == tag then [x] else []
  {
    var all := rs + [x];
    assert all[..|all| - 1] == rs && all[|all| - 1] == x;
  }

  /** Records of the tags below `n`, tag by tag. */
  function Below(rs: seq<Record>, n: nat): seq<Record>
    requires n <= TAGS
  {
    if n == 0 then [] else Below(rs, n - 1) + OfTag(rs, n - 1)
  }

  /** What merging emits: ascending tags, each tag in order of arrival. */
  function Regroup(rs: seq<Record>): seq<Record> { Below(rs, TAGS) }

  // ---- Regroup is the stable ordering by tag ----

  ghost predicate Sorted(s: seq<Record>) {
    forall i, j | 0 <= i <= j < |s| :: TagOf(s[i]) <= TagOf(s[j])
  }

  lemma {:induction false} OfTagConcat(a: seq<Record>, b: seq<Record>, tag: byte)
    ensures OfTag(a + b, tag) == OfTag(a, tag) + OfTag(b, tag)
    decreases |b|
  {
    if b == [] {
      assert a + b == a && OfTag(b, tag) == [];
    } else {
      var n := |b| - 1;
      OfTagConcat(a, b[..n], tag);
      assert (a + b)[..|a + b| - 1] == a + b[..n] && (a + b)[|a + b| - 1] == b[n];
    }
  }

  lemma {:induction false} OfTagTwice(rs: seq<Record>, t: byte, u: byte)
    ensures OfTag(OfTag(rs, t), u) == if t == u then OfTag(rs, t) else []
  {
    hide TagOf;
    if rs != [] {
      var n := |rs| - 1;
      OfTagTwice(rs[..n], t, u);
      var part := OfTag(rs[..n], t);
      OfTagSnoc(part, rs[n], u);
      assert part + [] == part;
    }
  }

  lemma {:induction false} BelowOfTag(rs: seq<Record>, n: nat, u: byte)
    requires n <= TAGS
    ensures OfTag(Below(rs, n), u) == if u < n then OfTag(rs, u) else []
  {
    hide OfTag, TagOf;
    if n == 0 {
      OfTagNone([], u);
    } else {
      var before, part := Below(rs, n - 1), OfTag(rs, n - 1);
      BelowOfTag(rs, n - 1, u);
      OfTagConcat(before, part, u);
      OfTagTwice(rs, n - 1, u);
      assert OfTag(Below(rs, n), u) == OfTag(before, u) + OfTag(part, u);
    }
  }

  lemma {:induction false} BelowSorted(rs: seq<Record>, n: nat)
    requires n <= TAGS
    ensures Sorted(Below(rs, n)) && forall x | x in Below(rs, n) :: TagOf(x) < n
  {
    hide TagOf, OfTag;
    if n > 0 {
      BelowSorted(rs, n - 1);
      OfTagMembers(rs, n - 1);
      SortedAppend(Below(rs, n - 1), OfTag(rs, n - 1), n - 1);
    }
  }

  lemma SortedAppend(a: seq<Record>, b: seq<Record>, t: nat)
    requires Sorted(a) && (forall x | x in a :: TagOf(x) < t) && forall x | x in b :: TagOf(x) == t
    ensures Sorted(a + b) && forall x | x in a + b :: TagOf(x) < t + 1
  {
    hide TagOf;
    var c := a + b;
    forall i, j | 0 <= i <= j < |c| ensures TagOf(c[i]) <= TagOf(c[j]) {
      if j < |a| {
        assert c[i] == a[i] && c[j] == a[j];
      } else {
        assert c[j] in b && (c[i] in a || c[i] in b);
      }
    }
  }

  lemma {:induction false} CountByTag(rs: seq<Record>, x: Record)
    ensures multiset(rs)[x] == multiset(OfTag(rs, TagOf(x)))[x]
  {
    if rs != [] {
      var n := |rs| - 1;
      CountByTag(rs[..n], x);
      assert rs == rs[..n] + [rs[n]];
    }
  }

  lemma {:induction false} BelowAgrees(a: seq<Record>, b: seq<Record>, n: nat)
    requires n <= TAGS && forall t: byte :: OfTag(a, t) == OfTag(b, t)
    ensures Below(a, n) == Below(b, n)
  {
    if n > 0 { BelowAgrees(a, b, n - 1); }
  }

  lemma {:induction false} BelowSnoc(init: seq<Record>, x: Record, n: nat)
    requires n <= TAGS && forall y | y in init :: TagOf(y) <= TagOf(x)
    ensures Below(init + [x], n) == Below(init, n) + if n > TagOf(x) then [x] else []
  {
    hide TagOf, OfTag;
    if n > 0 {
      BelowSnoc(init, x, n - 1);
      OfTagSnoc(init, x, n - 1);
      if n - 1 > TagOf(x) { OfTagNone(init, n - 1); }
    }
  }

  lemma {:induction false} SortedIsRegrouped(s: seq<Record>)
    requires Sorted(s)
    ensures Regroup(s) == s
  {
    if s == [] {
      assert forall t: byte :: OfTag(s, t) == [];
      BelowEmpty(TAGS);
    } else {
      var init, x := s[..|s| - 1], s[|s| - 1];
      SortedIsRegrouped(init);
      assert s == init + [x];
      BelowSnoc(init, x, TAGS);
    }
  }

  lemma {:induction false} BelowEmpty(n: nat)
    requires n <= TAGS
    ensures Below([], n) == []
  {
    if n > 0 { BelowEmpty(n - 1); }
  }

  ghost predicate SameParts(a: seq<Record>, b: seq<Record>) { forall t: byte :: OfTag(a, t) == OfTag(b, t) }

  /** Regrouping sorts by tag, keeps each tag's records in order and loses none. */
  lemma RegroupIsStableSort(rs: seq<Record>)
    ensures Sorted(Regroup(rs)) && SameParts(Regroup(rs), rs) && multiset(Regroup(rs)) == multiset(rs)
  {
    hide TagOf, OfTag, Below;
    BelowSorted(rs, TAGS);
    forall t: byte ensures OfTag(Regroup(rs), t) == OfTag(rs, t) { BelowOfTag(rs, TAGS, t); }
    forall x: Record ensures multiset(Regroup(rs))[x] == multiset(rs)[x] {
      CountByTag(rs, x);
      CountByTag(Regroup(rs), x);
      BelowOfTag(rs, TAGS, TagOf(x));
    }
  }

  /** Nothing else does that. */
  lemma RegroupIsOnlyOne(rs: seq<Record>, s: seq<Record>)
    ensures s == Regroup(rs) <==> Sorted(s) && SameParts(s, rs)
  {
    hide TagOf, OfTag, Below;
    if Sorted(s) && SameParts(s, rs) {
      SortedIsRegrouped(s);
      BelowAgrees(s, rs, TAGS);
    }
    RegroupIsStableSort(rs);
  }

  // ---- merging what was split ----

  /** Concatenation of the split parts, in any order of the tags. */
  function Parts(rs: seq<Record>, tags: seq<byte>): seq<Record> {
    if tags == [] then [] else Parts(rs, tags[..|tags| - 1]) + OfTag(rs, tags[|tags| - 1])
  }

  /** Each tag at most once. */
  ghost predicate NoRepeats(tags: seq<byte>) { forall i, j | 0 <= i < j < |tags| :: tags[i] != tags[j] }

  /** Every tag that occurs. */
  ghost predicate Covers(tags: seq<byte>, rs: seq<Record>) { forall x | x in rs :: TagOf(x) in tags }

  lemma {:induction false} PartsOfTag(rs: seq<Record>, tags: seq<byte>, u: byte)
    requires NoRepeats(tags)
    ensures OfTag(Parts(rs, tags), u) == if u in tags then OfTag(rs, u) else []
  {
    hide TagOf;
    if tags == [] {
      assert OfTag([], u) == [];
    } else {
      hide OfTag;
      var n := |tags| - 1;
      var init, t := tags[..n], tags[n];
      PartsOfTag(rs, init, u);
      OfTagConcat(Parts(rs, init), OfTag(rs, t), u);
      OfTagTwice(rs, t, u);
      assert tags == init + [t];
      assert t !in init;
    }
  }

  /** Regrouping the parts of a split gives what regrouping the whole gives. */
  lemma RegroupParts(rs: seq<Record>, tags: seq<byte>)
    requires NoRepeats(tags) && Covers(tags, rs)
    ensures Regroup(Parts(rs, tags)) == Regroup(rs)
  {
    hide OfTag, TagOf;
    forall u: byte ensures OfTag(Parts(rs, tags), u) == OfTag(rs, u) {
      PartsOfTag(rs, tags, u);
      if u !in tags { OfTagNone(rs, u); }
    }
    BelowAgrees(Parts(rs, tags), rs, TAGS);
  }

  // ---- the containers ----

  /** A record as the emission loops hand it to the writer: a STORE section whose
      type is the tag. */
  function Placed(r: Record): WalkEvent { WalkEvent(TagOf(r), Codecs.STORE, TagOf(r), 0, 0, r) }

  function Events(rs: seq<Record>): (es: seq<WalkEvent>)
    ensures |es| == |rs| && forall i | 0 <= i < |es| :: es[i] == Placed(rs[i])
  {
    seq(|rs|, i requires 0 <= i < |rs| => Placed(rs[i]))
  }

  predicate AllWell(rs: seq<Record>) { forall x | x in rs :: WellFormed(x) }

  ghost function Size(r: Record): nat { if WellFormed(r) then |Tlv.RecordBytes(r)| else 0 }

  /** Bytes that a section of these records takes. */
  ghost function Total(rs: seq<Record>): nat {
    if rs == [] then 0 else Total(rs[..|rs| - 1]) + Size(rs[|rs| - 1])
  }

  /** No tag's records exceed what a walk decodes. */
  ghost predicate EachTagFits(rs: seq<Record>) {
    forall t: byte :: Total(OfTag(rs, t)) <= DEFAULT_MAX_DECODE
  }

  lemma EventsFit(rs: seq<Record>)
    requires AllWell(rs)
    ensures AllFit(Events(rs))
  {
    hide WellFormed;
    forall k | 0 <= k < |rs| ensures WellFormed(Events(rs)[k].rec) { assert rs[k] in rs; }
  }

  lemma TotalSnoc(rs: seq<Record>, x: Record)
    ensures Total(rs + [x]) == Total(rs) + Size(x)
  {
    hide Size;
    var all := rs + [x];
    assert all[..|all| - 1] == rs && all[|all| - 1] == x;
  }

  lemma OfTagWell(rs: seq<Record>, tag: byte)
    requires AllWell(rs)
    ensures AllWell(OfTag(rs, tag))
  {
    hide WellFormed;
    OfTagMembers(rs, tag);
  }

  lemma {:induction false} EventsWeight(s: seq<Record>, t: nat)
    requires AllWell(s)
    ensures AllFit(Events(s)) && Weight(Events(s), t) == if t < TAGS then Total(OfTag(s, t)) else 0
  {
    hide WellFormed, Tlv.RecordBytes;
    EventsFit(s);
    if s != [] {
      var n := |s| - 1;
      EventsWeight(s[..n], t);
      assert Events(s)[..n] == Events(s[..n]);
      assert s[n] in s;
      if t < TAGS {
        var part := OfTag(s[..n], t);
        TotalSnoc(part, s[n]);
        assert part + [] == part;
      }
    }
  }

  lemma RegroupWell(rs: seq<Record>)
    requires AllWell(rs)
    ensures AllWell(Regroup(rs)) && AllFit(Events(Regroup(rs)))
  {
    hide WellFormed, Regroup;
    RegroupIsStableSort(rs);
    forall x | x in Regroup(rs) ensures WellFormed(x) { assert x in multiset(Regroup(rs)); }
    EventsFit(Regroup(rs));
  }

  /** The merged container of the records gathered from all inputs. */
  function Merged(rs: seq<Record>, mac: (Bytes, Bytes) -> Bytes): Result<Bytes>
    requires AllWell(rs)
  {
    RegroupWell(rs);
    Output(Events(Regroup(rs)), None, mac)
  }

  /** The container written for one tag. */
  function SplitOut(rs: seq<Record>, tag: byte, mac: (Bytes, Bytes) -> Bytes): Result<Bytes>
    requires AllWell(rs)
  {
    OfTagWell(rs, tag);
    EventsFit(OfTag(rs, tag));
    Output(Events(OfTag(rs, tag)), None, mac)
  }

  lemma EventsLight(s: seq<Record>)
    requires AllWell(s) && Sorted(s)
    ensures AllFit(Events(s)) && Grouped(Events(s)) && (Light(Events(s), DEFAULT_MAX_DECODE) <==> EachTagFits(s))
  {
    hide WellFormed, Weight, OfTag, Total;
    EventsFit(s);
    forall t: nat ensures Weight(Events(s), t) == if t < TAGS then Total(OfTag(s, t)) else 0 { EventsWeight(s, t); }
    if Light(Events(s), DEFAULT_MAX_DECODE) {
      forall t: byte ensures Total(OfTag(s, t)) <= DEFAULT_MAX_DECODE {
        assert Weight(Events(s), t) <= DEFAULT_MAX_DECODE;
      }
    }
    if EachTagFits(s) {
      forall t: nat ensures Weight(Events(s), t) <= DEFAULT_MAX_DECODE {
        if t < TAGS { var b: byte := t; assert Total(OfTag(s, b)) <= DEFAULT_MAX_DECODE; }
      }
    }
  }

  /** A merged container holds every record, tag by tag, in order of arrival, exactly
      when no tag outweighs what a walk decodes. */
  lemma MergedFaithful(rs: seq<Record>, mac: (Bytes, Bytes) -> Bytes)
    requires AllWell(rs) && IsMac(mac) && Merged(rs, mac).Ok?
    ensures Carries(Merged(rs, mac).value, Events(Regroup(rs))) <==> EachTagFits(rs)
  {
    hide WellFormed, Output, Carries, Regroup, Total, Light, Grouped;
    RegroupWell(rs);
    RegroupIsStableSort(rs);
    EventsLight(Regroup(rs));
    ReplayFaithfulIff(Events(Regroup(rs)), None, mac);
  }

  lemma PartFits(rs: seq<Record>, tag: byte)
    requires AllWell(rs)
    ensures AllWell(OfTag(rs, tag)) && Sorted(OfTag(rs, tag))
    ensures EachTagFits(OfTag(rs, tag)) <==> Total(OfTag(rs, tag)) <= DEFAULT_MAX_DECODE
  {
    hide WellFormed, Size, OfTag, TagOf, Total;
    OfTagWell(rs, tag);
    OfTagMembers(rs, tag);
    var s := OfTag(rs, tag);
    assert Total([]) == 0 by { NoTotal(); }
    OfTagTwice(rs, tag, tag);
    if Total(s) <= DEFAULT_MAX_DECODE {
      forall t: byte ensures Total(OfTag(s, t)) <= DEFAULT_MAX_DECODE { OfTagTwice(rs, tag, t); }
    }
    assert forall i | 0 <= i < |s| :: s[i] in s;
  }

  lemma NoTotal()
    ensures Total([]) == 0
  {
  }

  /** A split file holds exactly its tag's records, in order, exactly when they do not
      outweigh what a walk decodes. */
  lemma SplitFaithful(rs: seq<Record>, tag: byte, mac: (Bytes, Bytes) -> Bytes)
    requires AllWell(rs) && IsMac(mac) && SplitOut(rs, tag, mac).Ok?
    ensures Carries(SplitOut(rs, tag, mac).value, Events(OfTag(rs, tag))) <==> Total(OfTag(rs, tag)) <= DEFAULT_MAX_DECODE
  {
    hide WellFormed, Output, Carries, OfTag, Total, Light, Grouped;
    PartFits(rs, tag);
    EventsLight(OfTag(rs, tag));
    ReplayFaithfulIff(Events(OfTag(rs, tag)), None, mac);
  }
}
