/** Merging what was split, on every container (src/report/split.c,
    src/report/merge.c). */
module SplitRoundTrip {
  import opened Core
  import opened Records
  import opened Walk
  import opened WriterSpec
  import opened Replay
  import opened Tools
  import opened Pipeline
  import opened ByTag
  import opened Dedup
  import opened SplitMerge
  import opened Success
  import Codecs
  import Container
  import Tlv

  // ---- weights of parts ----

  lemma {:induction false} CanonTotal(rs: seq<Record>)
    requires AllWell(rs)
    ensures Total(CanonAll(rs)) == Total(rs)
  {
    hide WellFormed, Canon;
    if rs != [] {
      var n := |rs| - 1;
      CanonTotal(rs[..n]);
      assert CanonAll(rs)[..n] == CanonAll(rs[..n]) && rs[n] in rs;
      CanonSize(rs[n]);
    }
  }

  lemma CanonSize(r: Record)
    requires WellFormed(r)
    ensures Size(Canon(r)) == Size(r)
  {
    hide WellFormed, Canon, Payload, TagOf;
    CanonWrites(r);
  }

  /** What is gathered from split files always fits, tag by tag. */
  lemma PartsFit(rs: seq<Record>, tags: seq<byte>)
    requires AllWell(rs) && NoRepeats(tags)
    ensures var ps := CanonAll(Parts(rs, Fitting(rs, tags))); AllWell(ps) && EachTagFits(ps)
  {
    hide WellFormed, Canon, OfTag, Total, Parts;
    var f := Fitting(rs, tags);
    FittingNoRepeats(rs, tags);
    PartsWell(rs, f);
    CanonWell(Parts(rs, f));
    assert Total([]) == 0 by { NoTotal(); }
    forall t: byte ensures Total(OfTag(CanonAll(Parts(rs, f)), t)) <= DEFAULT_MAX_DECODE {
      CanonOfTag(Parts(rs, f), t);
      PartsOfTag(rs, f, t);
      OfTagWell(rs, t);
      CanonTotal(OfTag(Parts(rs, f), t));
      FittingMembers(rs, tags, t);
    }
  }

  // ---- the container itself can always be merged ----

  lemma PlanSnoc(s: seq<Record>, x: Record)
    requires AllWell(s) && WellFormed(x)
    ensures AllFit(Events(s)) && AllFit(Events(s + [x]))
    ensures Plan(Events(s + [x])) == PlanStep(Plan(Events(s)), s != [] && TagOf(s[|s| - 1]) == TagOf(x), Placed(x))
  {
    hide WellFormed, PlanStep, TagOf;
    EventsFit(s);
    EventsFit(s + [x]);
    var es := Events(s + [x]);
    assert es[..|es| - 1] == Events(s) && es[|es| - 1] == Placed(x);
  }

  lemma StepAppends(pa: seq<Planned>, pb: seq<Planned>, it: WalkEvent)
    requires WellFormed(it.rec) && |pb| == 1
    ensures |PlanStep(pb, true, it)| == 1 && PlanStep(pa + pb, true, it) == pa + PlanStep(pb, true, it)
  {
    hide WellFormed, Tlv.RecordBytes;
    assert (pa + pb)[..|pa + pb| - 1] == pa && pb[..0] == [];
  }

  lemma PlanFirst(a: seq<Record>, x: Record)
    requires AllWell(a) && WellFormed(x) && (a != [] ==> TagOf(a[|a| - 1]) != TagOf(x))
    ensures AllFit(Events(a)) && AllFit(Events([x])) && AllFit(Events(a + [x]))
    ensures |Plan(Events([x]))| == 1 && Plan(Events(a + [x])) == Plan(Events(a)) + Plan(Events([x]))
  {
    hide WellFormed, TagOf, Plan, Tlv.RecordBytes;
    PlanSnoc(a, x);
    PlanSnoc([], x);
    assert [] + [x] == [x] && Events([]) == [];
    NoBlobs();
  }

  lemma {:induction false} PlanAppend(a: seq<Record>, b: seq<Record>, t: byte)
    requires AllWell(a) && AllWell(b) && AllWell(a + b) && b != []
    requires (forall x | x in b :: TagOf(x) == t) && forall x | x in a :: TagOf(x) != t
    ensures AllFit(Events(a)) && AllFit(Events(b)) && AllFit(Events(a + b))
    ensures |Plan(Events(b))| == 1 && Plan(Events(a + b)) == Plan(Events(a)) + Plan(Events(b))
    decreases |b|
  {
    hide WellFormed, TagOf, Plan, PlanStep;
    var n := |b| - 1;
    var b0, x := b[..n], b[n];
    assert x in b && b == b0 + [x];
    if n == 0 {
      assert b == [x] && (a != [] ==> a[|a| - 1] in a);
      PlanFirst(a, x);
    } else {
      var c := a + b0;
      assert a + b == c + [x] && c[|c| - 1] == b0[n - 1] && b0[n - 1] in b;
      PlanAppend(a, b0, t);
      PlanSnoc(c, x);
      PlanSnoc(b0, x);
      StepAppends(Plan(Events(a)), Plan(Events(b0)), Placed(x));
    }
  }

  /** Plans of STORE sections that all can be packed. */
  ghost predicate Stores(ps: seq<Planned>) {
    AllPackable(ps) && forall i | 0 <= i < |ps| :: ps[i].codec == Codecs.STORE
  }

  lemma StoreBlob(p: Planned)
    requires Packable(p) && p.codec == Codecs.STORE
    ensures |PackedOf(p).blob| <= SECTION_MAX_RAW
  {
  }

  lemma {:induction false} BlobsSnoc(ps: seq<Container.Packed>, p: Container.Packed)
    ensures Container.Blobs(ps + [p]) == Container.Blobs(ps) + p.blob
  {
    if ps == [] {
      assert [p][1..] == [] && ps + [p] == [p] && Container.Blobs([p]) == p.blob + Container.Blobs([]);
    } else {
      BlobsSnoc(ps[1..], p);
      assert (ps + [p])[1..] == ps[1..] + [p];
    }
  }

  lemma {:induction false} StoreBlobs(ps: seq<Planned>)
    requires Stores(ps)
    ensures |Container.Blobs(PackAll(ps))| <= SECTION_MAX_RAW * |ps|
  {
    hide Packable, PackedOf, Container.Blobs;
    if ps == [] {
      NoBlobs();
    } else {
      var n := |ps| - 1;
      assert forall i | 0 <= i < n :: ps[..n][i] == ps[i];
      StoreBlobs(ps[..n]);
      assert Packable(ps[n]) && ps[n].codec == Codecs.STORE;
      StoreBlob(ps[n]);
      BlobsSnoc(PackAll(ps[..n]), PackedOf(ps[n]));
    }
  }

  lemma {:induction false} PlanStores(rs: seq<Record>)
    requires AllWell(rs) && AllFit(Events(rs))
    ensures forall i | 0 <= i < |Plan(Events(rs))| :: Plan(Events(rs))[i].codec == Codecs.STORE
  {
    hide WellFormed, Tlv.RecordBytes;
    if rs != [] {
      var n := |rs| - 1;
      assert Events(rs)[..n] == Events(rs[..n]);
      PlanStores(rs[..n]);
    }
  }

  /** Every part that occurs can be split off. */
  ghost predicate Splittable(rs: seq<Record>, mac: (Bytes, Bytes) -> Bytes)
    requires AllWell(rs)
  {
    forall t: byte | OfTag(rs, t) != [] :: SplitOut(rs, t, mac).Ok?
  }

  lemma {:induction false} BelowWell(rs: seq<Record>, n: nat)
    requires AllWell(rs) && n <= TAGS
    ensures AllWell(Below(rs, n))
  {
    hide WellFormed, OfTag;
    if n > 0 {
      BelowWell(rs, n - 1);
      OfTagWell(rs, n - 1);
    }
  }

  lemma OnlyKnown(rs: seq<Record>, t: byte)
    requires AllWell(rs) && OfTag(rs, t) != []
    ensures KnownTag(t)
  {
    hide OfTag;
    OfTagMembers(rs, t);
    var s := OfTag(rs, t);
    assert s[0] in s;
    KnownWell(s[0]);
  }

  lemma KnownWell(r: Record)
    requires WellFormed(r)
    ensures KnownTag(TagOf(r))
  {
  }

  lemma {:induction false} PlanBelow(rs: seq<Record>, n: nat, mac: (Bytes, Bytes) -> Bytes)
    requires AllWell(rs) && n <= TAGS && Splittable(rs, mac)
    ensures AllWell(Below(rs, n)) && AllFit(Events(Below(rs, n)))
    ensures var ps := Plan(Events(Below(rs, n)));
            Stores(ps) && |ps| <= if n <= 0x10 then 0 else if n >= 0x1B then 11 else n - 0x10
  {
    hide WellFormed, OfTag, TagOf, Plan, Packable, Output, Writable;
    BelowWell(rs, n);
    EventsFit(Below(rs, n));
    if n == 0 {
      NoBlobs();
      assert Events([]) == [];
    } else {
      var t: byte := n - 1;
      var before, part := Below(rs, t), OfTag(rs, t);
      PlanBelow(rs, t, mac);
      if part == [] {
        assert before + [] == before;
      } else {
        OnlyKnown(rs, t);
        OfTagWell(rs, t);
        EventsFit(part);
        OfTagMembers(rs, t);
        BelowSorted(rs, t);
        PlanAppend(before, part, t);
        PlanStores(Below(rs, n));
        PartPackable(rs, t, mac);
      }
    }
  }

  lemma PartPackable(rs: seq<Record>, t: byte, mac: (Bytes, Bytes) -> Bytes)
    requires AllWell(rs) && SplitOut(rs, t, mac).Ok?
    ensures AllFit(Events(OfTag(rs, t))) && AllPackable(Plan(Events(OfTag(rs, t))))
  {
    hide WellFormed, OfTag, Plan, Packable, Output;
    OfTagWell(rs, t);
    EventsFit(OfTag(rs, t));
    OutputIff(Events(OfTag(rs, t)), None, mac);
  }

  /** If every part can be written on its own, so can the whole. */
  lemma MergedOk(rs: seq<Record>, mac: (Bytes, Bytes) -> Bytes)
    requires AllWell(rs) && Splittable(rs, mac)
    ensures Merged(rs, mac).Ok?
  {
    hide WellFormed, Plan, Below, Output;
    RegroupWell(rs);
    PlanBelow(rs, TAGS, mac);
    StoreBlobs(Plan(Events(Regroup(rs))));
    OutputIff(Events(Regroup(rs)), None, mac);
  }

  lemma SplitFilesSplittable(rs: seq<Record>, tags: seq<byte>, files: seq<Bytes>, mac: (Bytes, Bytes) -> Bytes)
    requires AllWell(rs) && Covers(tags, rs) && SplitFiles(rs, tags, files, mac)
    ensures Splittable(rs, mac)
  {
    hide WellFormed, OfTag, SplitOut, TagOf;
    forall t: byte | OfTag(rs, t) != [] ensures SplitOut(rs, t, mac).Ok? {
      OfTagMembers(rs, t);
      var s := OfTag(rs, t);
      assert s[0] in s;
      var i :| 0 <= i < |tags| && tags[i] == t;
    }
  }

  // ---- the documented merge ----

  lemma DocumentedOne(data: Bytes)
    requires Walk.Walk(data, 0).Ok?
    ensures Documented([data]) == Ok(RecordsOf(Walk.Walk(data, 0).value.events))
  {
    hide Walk.Walk;
    var rs := RecordsOf(Walk.Walk(data, 0).value.events);
    assert [data][..0] == [] && [] + rs == rs;
    assert Documented([]) == Ok([]);
  }

  /** Regrouping what fits differs from regrouping everything if something does not. */
  lemma OverweightDiffers(rs: seq<Record>, ps: seq<Record>, mac: (Bytes, Bytes) -> Bytes)
    requires AllWell(rs) && AllWell(ps) && IsMac(mac) && Merged(rs, mac).Ok?
    requires !EachTagFits(rs) && EachTagFits(ps)
    ensures Merged(ps, mac) != Merged(rs, mac)
  {
    hide WellFormed, Output, Carries, Regroup, Light, Grouped, EachTagFits;
    MergedFaithful(rs, mac);
    RegroupWell(rs);
    RegroupIsStableSort(rs);
    EventsLight(Regroup(rs));
    EachTagRegroup(rs);
    OutputAbandonsIff(Events(Regroup(rs)), None, mac);
    AbandonsFaults(Walk.Walk(Merged(rs, mac).value, 0).value);
    if Merged(ps, mac).Ok? {
      MergedFaithful(ps, mac);
      CarriesMeans(Merged(ps, mac).value, Events(Regroup(ps)));
    }
  }

  lemma EachTagRegroup(rs: seq<Record>)
    ensures EachTagFits(Regroup(rs)) <==> EachTagFits(rs)
  {
    hide OfTag, Total, Below;
    forall t: byte ensures OfTag(Regroup(rs), t) == OfTag(rs, t) { BelowOfTag(rs, TAGS, t); }
    if EachTagFits(Regroup(rs)) {
      forall t: byte ensures Total(OfTag(rs, t)) <= DEFAULT_MAX_DECODE {
        assert Total(OfTag(Regroup(rs), t)) <= DEFAULT_MAX_DECODE;
      }
    }
    if EachTagFits(rs) {
      forall t: byte ensures Total(OfTag(Regroup(rs), t)) <= DEFAULT_MAX_DECODE {
        assert Total(OfTag(rs, t)) <= DEFAULT_MAX_DECODE;
      }
    }
  }

  /** If every tag that occurs fits, every tag does. */
  lemma AllFitting(rs: seq<Record>, tags: seq<byte>)
    requires Covers(tags, rs)
    ensures EachTagFits(rs) <==> forall t | t in tags :: Fits(rs, t)
  {
    hide OfTag, Total, TagOf;
    assert Total([]) == 0 by { NoTotal(); }
    if forall t | t in tags :: Fits(rs, t) {
      forall t: byte ensures Total(OfTag(rs, t)) <= DEFAULT_MAX_DECODE {
        if t in tags { assert Fits(rs, t); } else { OfTagNone(rs, t); }
      }
    }
    if EachTagFits(rs) {
      forall t | t in tags ensures Fits(rs, t) { assert Total(OfTag(rs, t)) <= DEFAULT_MAX_DECODE; }
    }
  }

  /** The split of a container: its records, its tags and the file of each. */
  ghost predicate IsSplit(data: Bytes, tags: seq<byte>, files: seq<Bytes>, mac: (Bytes, Bytes) -> Bytes) {
    && Walk.Walk(data, 0).Ok? && IsMac(mac)
    && var rs := RecordsOf(Walk.Walk(data, 0).value.events);
    NoRepeats(tags) && Covers(tags, rs) && AllWell(rs) && SplitFiles(rs, tags, files, mac)
  }

  /** On every container: merging its split files, in any order, gives byte for byte
      what merging the container gives, exactly when there is a file at all and no tag
      outweighs what a walk decodes. */
  lemma SplitThenMerge(data: Bytes, tags: seq<byte>, files: seq<Bytes>, mac: (Bytes, Bytes) -> Bytes)
    requires IsSplit(data, tags, files, mac)
    ensures Intended([data], mac).Ok?
    ensures Intended(files, mac) == Intended([data], mac)
            <==> tags != [] && EachTagFits(RecordsOf(Walk.Walk(data, 0).value.events))
  {
    hide WellFormed, Canon, Walk.Walk, Merged, Parts, EachTagFits, Covers, SplitOut, Fits;
    var rs := RecordsOf(Walk.Walk(data, 0).value.events);
    var f := Fitting(rs, tags);
    GatherSplit(rs, tags, files, mac);
    DocumentedOne(data);
    SplitFilesSplittable(rs, tags, files, mac);
    MergedOk(rs, mac);
    PartsFit(rs, tags);
    AllFitting(rs, tags);
    if EachTagFits(rs) {
      FittingAll(rs, tags);
      MergedParts(rs, tags, mac);
    } else {
      OverweightDiffers(rs, CanonAll(Parts(rs, f)), mac);
    }
  }

  // ---- merge as written ----

  lemma {:induction false} TotalBound(rs: seq<Record>)
    ensures Total(rs) <= 65538 * |rs|
  {
    hide WellFormed, Tlv.RecordBytes;
    if rs != [] {
      TotalBound(rs[..|rs| - 1]);
      SizeBound(rs[|rs| - 1]);
    }
  }

  lemma SizeBound(r: Record)
    ensures Size(r) <= 65538
  {
  }

  /** Sixteen records always fit. */
  lemma ShortFits(rs: seq<Record>, t: byte)
    requires |OfTag(rs, t)| <= 16
    ensures Fits(rs, t)
  {
    TotalBound(OfTag(rs, t));
  }

  lemma LongFitting(rs: seq<Record>, tags: seq<byte>)
    ensures SomeLong(rs, Fitting(rs, tags)) ==> SomeLong(rs, tags)
    ensures !SomeLong(rs, tags) ==> forall t | t in tags :: Fits(rs, t)
    ensures SomeLong(rs, tags) && (forall t | t in tags :: Fits(rs, t)) ==> SomeLong(rs, Fitting(rs, tags))
  {
    hide OfTag, Fits;
    var f := Fitting(rs, tags);
    if SomeLong(rs, f) {
      var i :| 0 <= i < |f| && |OfTag(rs, f[i])| > 16;
      FittingMembers(rs, tags, f[i]);
      var j :| 0 <= j < |tags| && tags[j] == f[i];
      assert |OfTag(rs, tags[j])| > 16;
    }
    if !SomeLong(rs, tags) {
      forall t | t in tags ensures Fits(rs, t) {
        var j :| 0 <= j < |tags| && tags[j] == t;
        assert |OfTag(rs, tags[j])| <= 16;
        ShortFits(rs, t);
      }
    }
    if forall t | t in tags :: Fits(rs, t) { FittingAll(rs, tags); }
  }

  /** On every container, with merge as written: the split files give what merging the
      container is documented to give exactly when there is one and none has more than
      sixteen records; and released memory is written exactly when some file that can be
      walked has more than sixteen. */
  lemma SplitThenMergeAsWritten(data: Bytes, tags: seq<byte>, files: seq<Bytes>, mac: (Bytes, Bytes) -> Bytes)
    requires IsSplit(data, tags, files, mac)
    ensures var rs := RecordsOf(Walk.Walk(data, 0).value.events);
            && (Merge(files, mac) == Intended([data], mac) <==> tags != [] && !SomeLong(rs, tags))
            && (Merge(files, mac) == Error(OutOfBounds) <==> SomeLong(rs, Fitting(rs, tags)))
  {
    hide WellFormed, Canon, Walk.Walk, Parts, EachTagFits, SplitOut, Hazard, SomeLong, Intended, Merge, Fits, Fitting, Covers;
    var rs := RecordsOf(Walk.Walk(data, 0).value.events);
    var f := Fitting(rs, tags);
    GatherSplit(rs, tags, files, mac);
    FittingNoRepeats(rs, tags);
    PartsHazard(rs, f);
    CanonHazard(Parts(rs, f));
    MergeIffNoHazard(files, mac);
    SplitThenMerge(data, tags, files, mac);
    AllFitting(rs, tags);
    LongFitting(rs, tags);
  }
}
