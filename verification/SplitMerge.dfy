/** The split and merge tools: their per-tag vectors, the containers they write,
    and merging what was split (src/report/split.c, src/report/merge.c). */
module SplitMerge {
  import opened Core
  import opened Records
  import opened Walk
  import opened WriterSpec
  import opened Replay
  import opened Tools
  import opened Pipeline
  import opened ByTag
  import opened Dedup
  import Codecs
  import Container
  import Tlv
  import Vectors
  import Dict

  // ---- capacities of a vector that starts at 16 and doubles ----

  const FIRST := 16

  function Fill(c: nat, n: nat): nat
    requires c > 0
    decreases n - c
  {
    if n <= c then c else Fill(2 * c, n)
  }

  /** Capacity of a vector holding `n` records. */
  function CapFor(n: nat): nat { if n == 0 then 0 else Fill(FIRST, n) }

  /** A vector of `n` records is full and has been allocated. */
  predicate Full(n: nat) { n > 0 && CapFor(n) == n }

  function Doubled(k: nat): (n: nat)
    ensures n >= FIRST
  {
    if k == 0 then FIRST else 2 * Doubled(k - 1)
  }

  lemma {:induction false} FillStep(c: nat, n: nat)
    requires c > 0 && n > 0
    ensures Fill(c, n) >= n && Fill(c, n + 1) == if Fill(c, n) == n then 2 * n else Fill(c, n)
    decreases n - c
  {
    if n > c { FillStep(2 * c, n); }
  }

  lemma {:induction false} FillIsDoubled(k: nat, n: nat) returns (j: nat)
    ensures Fill(Doubled(k), n) == Doubled(j)
    decreases n - Doubled(k)
  {
    j := k;
    if n > Doubled(k) { j := FillIsDoubled(k + 1, n); }
  }

  lemma {:induction false} DoubledGrows(j: nat, k: nat)
    requires j <= k
    ensures Doubled(j) <= Doubled(k) && Doubled(k) >= FIRST
  {
    if j < k { DoubledGrows(j, k - 1); } else if k > 0 { DoubledGrows(j - 1, k - 1); }
  }

  lemma {:induction false} FillAtDoubled(j: nat, k: nat)
    requires j <= k
    ensures Fill(Doubled(j), Doubled(k)) == Doubled(k)
    decreases k - j
  {
    DoubledGrows(j, k);
    if Doubled(j) < Doubled(k) {
      FillAtDoubled(j + 1, k);
    }
  }

  /** A vector is full exactly at 16, 32, 64, ... records. */
  lemma FullIsDoubled(n: nat)
    ensures Full(n) <==> exists k: nat :: n == Doubled(k)
  {
    if Full(n) {
      var k := FillIsDoubled(0, n);
    }
    if exists k: nat :: n == Doubled(k) {
      var k: nat :| n == Doubled(k);
      DoubledGrows(0, k);
      FillAtDoubled(0, k);
    }
  }

  lemma CapStep(n: nat)
    ensures n <= CapFor(n)
    ensures CapFor(n + 1) == if CapFor(n) == n then Vectors.Grown(FIRST, n) else CapFor(n)
  {
    if n > 0 { FillStep(FIRST, n); }
  }

  // ---- the cached base of merge ----

  /** The cached base of the vector is stale at the moment it is written through:
      the vector has just grown and the previous record had the same tag. */
  predicate Stale(before: seq<Record>, r: Record) {
    && before != [] && TagOf(before[|before| - 1]) == TagOf(r)
    && Full(|OfTag(before, TagOf(r))|)
  }

  /** Some record of the stream is written to released memory. */
  predicate Hazard(rs: seq<Record>) {
    rs != [] && var n := |rs| - 1; Hazard(rs[..n]) || Stale(rs[..n], rs[n])
  }

  lemma {:induction false} HazardIff(rs: seq<Record>)
    ensures Hazard(rs) <==> exists i :: 0 <= i < |rs| && Stale(rs[..i], rs[i])
  {
    hide Stale;
    if rs != [] {
      var n := |rs| - 1;
      HazardIff(rs[..n]);
      forall i | 0 <= i < n ensures rs[..n][..i] == rs[..i] && rs[..n][i] == rs[i] {}
      if Hazard(rs[..n]) {
        var i :| 0 <= i < n && Stale(rs[..n][..i], rs[..n][i]);
        assert Stale(rs[..i], rs[i]);
      }
      if exists i :: 0 <= i < |rs| && Stale(rs[..i], rs[i]) {
        var i :| 0 <= i < |rs| && Stale(rs[..i], rs[i]);
        if i < n { assert Stale(rs[..n][..i], rs[..n][i]); }
      }
    }
  }

  // ---- the vectors ----

  datatype Block = Block(room: nat, cells: seq<Record>)

  /** The heap is explicit here, because what merge does depends on which blocks
      have been released. */
  class Groups {
    var blocks: map<nat, Block>
    var next: nat
    var byTag: seq<nat>
    var count: seq<nat>
    var cap: seq<nat>
    var recentBase: Option<nat>
    var recentTag: int
    ghost var taken: seq<Record>

    ghost predicate Shaped()
      reads this`blocks, this`next, this`byTag, this`count, this`cap
    {
      && |byTag| == TAGS && |count| == TAGS && |cap| == TAGS
      && (forall id | id in blocks :: id < next)
      && (forall t | 0 <= t < TAGS && cap[t] > 0 :: byTag[t] in blocks)
      && (forall t, u | 0 <= t < u < TAGS && cap[t] > 0 && cap[u] > 0 :: byTag[t] != byTag[u])
    }

    /** Vector of tag `t` holds exactly the tag's records, with `room` cells. */
    ghost predicate Vector(t: byte, room: nat)
      reads this`blocks, this`next, this`byTag, this`count, this`cap, this`taken
    {
      && Shaped() && cap[t] == room && count[t] == |OfTag(taken, t)|
      && (room > 0 ==> blocks[byTag[t]] == Block(room, OfTag(taken, t)))
      && (room == 0 ==> OfTag(taken, t) == [])
    }

    ghost predicate Valid()
      reads this`blocks, this`next, this`byTag, this`count, this`cap, this`taken
    {
      Shaped() && forall t: byte :: Vector(t, CapFor(|OfTag(taken, t)|))
    }

    /** What the cache promises. */
    ghost predicate Cached()
      reads this
    {
      && |byTag| == TAGS && |cap| == TAGS
      && (taken == [] ==> recentTag == -1)
      && (taken != [] ==>
            var t := TagOf(taken[|taken| - 1]);
            recentTag == t && cap[t] > 0 && recentBase == Some(byTag[t]))
    }

    constructor ()
      ensures Valid() && Cached() && taken == []
    {
      blocks, next := map[], 0;
      byTag, count, cap := seq(TAGS, _ => 0), seq(TAGS, _ => 0), seq(TAGS, _ => 0);
      recentBase, recentTag := None, -1;
      taken := [];
    }

    /** A larger block for `tag`; the old one is released. */
    method Grow(tag: byte) returns (ok: bool)
      requires Valid() && count[tag] == cap[tag]
      modifies this`blocks, this`next, this`byTag, this`cap
      ensures Shaped() && |byTag| == TAGS
      ensures !ok ==> Valid() && byTag == old(byTag) && cap == old(cap)
      ensures ok ==> Vector(tag, Vectors.Grown(FIRST, count[tag]))
      ensures ok ==> forall t: byte | t != tag :: Vector(t, CapFor(|OfTag(taken, t)|))
      ensures ok && old(cap[tag]) > 0 ==> old(byTag[tag]) !in blocks
      ensures ok && old(cap[tag]) == 0 ==> forall t: byte | t != tag :: old(cap[t]) == cap[t] && old(byTag[t]) == byTag[t]
    {
      assert Vector(tag, CapFor(|OfTag(taken, tag)|));
      var newcap := Vectors.Grown(FIRST, cap[tag]);
      ok := Codecs.Allocate(newcap);
      if !ok {
        return;
      }
      var cells := if count[tag] != 0 then blocks[byTag[tag]].cells else [];
      if cap[tag] != 0 {
        blocks := blocks - {byTag[tag]};
      }
      blocks := blocks[next := Block(newcap, cells)];
      byTag, cap, next := byTag[tag := next], cap[tag := newcap], next + 1;
      forall t: byte | t != tag ensures Vector(t, CapFor(|OfTag(taken, t)|)) {
        assert old(Vector(t, CapFor(|OfTag(taken, t)|)));
      }
    }

    /** Makes room for one more record of `tag`. */
    method Room(tag: byte) returns (ok: bool)
      requires Valid()
      modifies this`blocks, this`next, this`byTag, this`cap
      ensures ok ==> Roomy(tag)
      ensures ok ==> var n := |OfTag(taken, tag)|;
                && (Full(n) ==> old(byTag[tag]) !in blocks)
                && (n > 0 && !Full(n) ==> byTag[tag] == old(byTag[tag]))
    {
      hide OfTag, Fill;
      assert Vector(tag, CapFor(|OfTag(taken, tag)|));
      CapStep(|OfTag(taken, tag)|);
      if count[tag] == cap[tag] {
        ok := Grow(tag);
      } else {
        ok := true;
      }
    }

    /** Every vector is as it should be, and that of `tag` has room. */
    ghost predicate Roomy(tag: byte)
      reads this`blocks, this`next, this`byTag, this`count, this`cap, this`taken
    {
      && Shaped() && Vector(tag, CapFor(|OfTag(taken, tag)| + 1))
      && forall t: byte | t != tag :: Vector(t, CapFor(|OfTag(taken, t)|))
    }

    /** Writes `rec` behind the records of its tag, through `slot`. */
    method Put(tag: byte, slot: nat, rec: Record) returns (ok: bool)
      requires Roomy(tag) && TagOf(rec) == tag && (slot in blocks ==> slot == byTag[tag])
      modifies this`blocks, this`count, this`taken
      ensures ok <==> slot in old(blocks)
      ensures ok ==> Valid() && taken == old(taken) + [rec] && cap[tag] > 0
    {
      hide OfTag, CapFor, TagOf;
      CapStep(|OfTag(taken, tag)|);
      assert CapFor(|OfTag(taken, tag)| + 1) > |OfTag(taken, tag)| by { CapStep(|OfTag(taken, tag)| + 1); }
      if slot !in blocks || count[tag] >= blocks[slot].room {
        return false;
      }
      var b := blocks[slot];
      blocks := blocks[slot := b.(cells := b.cells + [rec])];
      count := count[tag := count[tag] + 1];
      taken := taken + [rec];
      forall t: byte ensures Vector(t, CapFor(|OfTag(taken, t)|)) {
        OfTagSnoc(old(taken), rec, t);
        assert OfTag(old(taken), t) + [] == OfTag(old(taken), t);
        if t != tag { assert old(Vector(t, CapFor(|OfTag(taken, t)|))); }
      }
      return true;
    }

    /** `dtl_split_on_record` */
    method OnSplitRecord(rec: Record) returns (ok: bool)
      requires Valid()
      modifies this
      ensures ok ==> Valid() && taken == old(taken) + [rec]
    {
      hide OfTag, Fill, Valid, Roomy;
      var tag := TagOf(rec);
      ok := Room(tag);
      if ok {
        assert |byTag| == TAGS by { RoomyShape(tag); }
        ok := Put(tag, byTag[tag], rec);
      }
    }

    lemma RoomyShape(tag: byte)
      requires Roomy(tag)
      ensures |byTag| == TAGS && byTag[tag] in blocks
    {
      CapStep(|OfTag(taken, tag)|);
    }

    lemma CachedTag(rec: Record)
      requires Valid() && Cached()
      ensures recentTag == TagOf(rec) <==> taken != [] && TagOf(taken[|taken| - 1]) == TagOf(rec)
      ensures recentTag == TagOf(rec) ==> |OfTag(taken, TagOf(rec))| > 0 && recentBase == Some(byTag[TagOf(rec)])
    {
      if recentTag == TagOf(rec) {
        assert Vector(TagOf(rec), CapFor(|OfTag(taken, TagOf(rec))|));
      }
    }

    /** `dtl_merge_on_record`. The write goes to a released block exactly when the
        cached base is stale. */
    method OnMergeRecord(rec: Record) returns (rc: Option<Err>)
      requires Valid() && Cached()
      modifies this
      ensures rc in {None, Some(Oom), Some(OutOfBounds)}
      ensures rc == None ==> Valid() && Cached() && taken == old(taken) + [rec] && !Stale(old(taken), rec)
      ensures rc == Some(OutOfBounds) ==> Stale(old(taken), rec)
    {
      hide OfTag, Fill, Roomy, TagOf, Full;
      var tag := TagOf(rec);
      CachedTag(rec);
      var ok := Room(tag);
      if !ok {
        return Some(Oom);
      }
      assert |byTag| == TAGS && byTag[tag] in blocks by { RoomyShape(tag); }
      var slot := byTag[tag];
      if recentTag == tag && recentBase.Some? {
        slot := recentBase.value;
      }
      recentTag, recentBase := tag, Some(slot);
      ok := Put(tag, slot, rec);
      if !ok {
        return Some(OutOfBounds);
      }
      return None;
    }
  }

  // ---- merge ----

  /** Records of all inputs, gathered file by file. */
  function Gathered(inputs: seq<Bytes>): Result<seq<Record>> {
    if inputs == [] then Ok([])
    else
      var n := |inputs| - 1;
      var before :- Gathered(inputs[..n]);
      var seen :- Walk.Walk(inputs[n], 0);
      var all := before + RecordsOf(seen.events);
      if Hazard(all) then Error(OutOfBounds) else Ok(all)
  }

  lemma WalkedWell(data: Bytes)
    requires Walk.Walk(data, 0).Ok?
    ensures AllWell(RecordsOf(Walk.Walk(data, 0).value.events))
  {
    hide WellFormed, Walk.Walk, Weight;
    WalkReplayable(data);
  }

  lemma {:induction false} GatheredWell(inputs: seq<Bytes>)
    ensures Gathered(inputs).Ok? ==> AllWell(Gathered(inputs).value) && !Hazard(Gathered(inputs).value)
  {
    hide WellFormed, Walk.Walk, Stale;
    if inputs != [] {
      var n := |inputs| - 1;
      GatheredWell(inputs[..n]);
      if Walk.Walk(inputs[n], 0).Ok? { WalkedWell(inputs[n]); }
    }
  }

  /** `dtl_merge_files` between reading and writing the files. */
  function Merge(inputs: seq<Bytes>, mac: (Bytes, Bytes) -> Bytes): Result<Bytes> {
    if inputs == [] then Error(Inval)
    else
      var rs :- Gathered(inputs);
      GatheredWell(inputs);
      Merged(rs, mac)
  }

  /** The gathering that split's step would give: every record, whatever the order. */
  function Documented(inputs: seq<Bytes>): Result<seq<Record>> {
    if inputs == [] then Ok([])
    else
      var n := |inputs| - 1;
      var before :- Documented(inputs[..n]);
      var seen :- Walk.Walk(inputs[n], 0);
      Ok(before + RecordsOf(seen.events))
  }

  lemma {:induction false} DocumentedWell(inputs: seq<Bytes>)
    ensures Documented(inputs).Ok? ==> AllWell(Documented(inputs).value)
  {
    hide WellFormed, Walk.Walk;
    if inputs != [] {
      var n := |inputs| - 1;
      DocumentedWell(inputs[..n]);
      if Walk.Walk(inputs[n], 0).Ok? { WalkedWell(inputs[n]); }
    }
  }

  /** Merge as documented. */
  function Intended(inputs: seq<Bytes>, mac: (Bytes, Bytes) -> Bytes): Result<Bytes> {
    if inputs == [] then Error(Inval)
    else
      var rs :- Documented(inputs);
      DocumentedWell(inputs);
      Merged(rs, mac)
  }

  lemma {:induction false} HazardStays(a: seq<Record>, b: seq<Record>)
    requires Hazard(a)
    ensures Hazard(a + b)
    decreases |b|
  {
    hide Stale;
    if b == [] {
      assert a + b == a;
    } else {
      var n := |b| - 1;
      HazardStays(a, b[..n]);
      assert (a + b)[..|a + b| - 1] == a + b[..n];
    }
  }

  /** The records that reach merge's callback: those of the longest run of leading
      inputs that can be walked. */
  function Reached(inputs: seq<Bytes>): (r: (seq<Record>, bool))
    ensures r.1 ==> Documented(inputs) == Ok(r.0)
    ensures !r.1 ==> Documented(inputs).Error?
  {
    if inputs == [] then ([], true)
    else
      var n := |inputs| - 1;
      var (rs, all) := Reached(inputs[..n]);
      if !all || Walk.Walk(inputs[n], 0).Error? then (rs, false)
      else (rs + RecordsOf(Walk.Walk(inputs[n], 0).value.events), true)
  }

  /** On every list of inputs, merge gathers what it documents exactly when no record
      that reaches it arrives at a full vector directly after a record of its tag. */
  lemma {:induction false} GatheredIffNoHazard(inputs: seq<Bytes>)
    ensures Gathered(inputs) == if Hazard(Reached(inputs).0) then Error(OutOfBounds) else Documented(inputs)
  {
    hide Walk.Walk, Hazard;
    if inputs == [] {
      NoHazard();
    } else {
      var n := |inputs| - 1;
      GatheredIffNoHazard(inputs[..n]);
      var (before, all) := Reached(inputs[..n]);
      if Hazard(before) && all && Walk.Walk(inputs[n], 0).Ok? {
        HazardStays(before, RecordsOf(Walk.Walk(inputs[n], 0).value.events));
      }
    }
  }

  /** Merge does what it documents exactly when no stale base is written through. */
  lemma MergeIffNoHazard(inputs: seq<Bytes>, mac: (Bytes, Bytes) -> Bytes)
    ensures Merge(inputs, mac) == if Hazard(Reached(inputs).0) then Error(OutOfBounds) else Intended(inputs, mac)
    ensures Merge(inputs, mac) == Intended(inputs, mac) <==> !Hazard(Reached(inputs).0)
    ensures Merge(inputs, mac) == Error(OutOfBounds) <==> Hazard(Reached(inputs).0)
  {
    hide Hazard, Documented, Gathered, Merged, AllWell;
    GatheredIffNoHazard(inputs);
    GatheredWell(inputs);
    IntendedInBounds(inputs, mac);
    if inputs == [] { NoHazard(); }
  }

  // ---- documented runs stay in bounds ----

  lemma ParseInBounds(data: Bytes)
    ensures Container.Parse(data) != Error(OutOfBounds)
  {
    hide Container.TakeTable, Container.ResolveEach, Container.TotalComp, FromLe32, FromLe16;
    if Container.TakeHeader(data).Ok? {
      var ((flags, count), s1) := Container.TakeHeader(data).value;
      TableInBounds(s1, count);
      if Container.TakeTable(s1, count).Ok? {
        var (entries, tail) := Container.TakeTable(s1, count).value;
        if Container.SplitTail(flags, tail).Ok? { EachInBounds(entries, Container.SplitTail(flags, tail).value.0); }
      }
    }
  }

  lemma {:induction false} TableInBounds(s: Bytes, n: nat)
    ensures Container.TakeTable(s, n) != Error(OutOfBounds)
  {
    hide FromLe32, FromLe16;
    if n > 0 && Container.TakeEntry(s).Ok? { TableInBounds(Container.TakeEntry(s).value.1, n - 1); }
  }

  lemma {:induction false} EachInBounds(entries: seq<Container.Entry>, region: Bytes)
    ensures Container.ResolveEach(entries, region) != Error(OutOfBounds)
  {
    if entries != [] { EachInBounds(entries[1..], region); }
  }

  lemma {:induction false} PairsInBounds(pairs: seq<(Bytes, Bytes)>)
    ensures PairBytes(pairs) != Error(OutOfBounds)
  {
    if pairs != [] { PairsInBounds(pairs[1..]); }
  }

  lemma AddedInBounds(st: State, r: Record)
    requires st.Active? && Representable(r)
    ensures Do(st, AddRecord(r)) != Failed(OutOfBounds)
  {
    if r.Config? { PairsInBounds(r.pairs); }
  }

  lemma EndedInBounds(st: State)
    requires st.Active?
    ensures Do(st, End) != Failed(OutOfBounds)
  {
    hide Codecs.Encode, Dict.Full;
    if st.open.Some? && Codecs.Get(st.open.value.codec).Some? {
      var c := Codecs.Get(st.open.value.codec).value;
      Codecs.RoomSuffices(c, st.open.value.tlv, Codecs.WorstCase(c, |st.open.value.tlv|));
    }
  }

  lemma ItemInBounds(st: State, isOpen: bool, same: bool, it: WalkEvent)
    requires st.Active? && WellFormed(it.rec)
    ensures ReplayItem(st, isOpen, same, it) != Error(OutOfBounds)
  {
    hide WellFormed, Representable, Ended, Added;
    FitIsRepresentable(it.rec);
    if same {
      AddedInBounds(st, it.rec);
    } else {
      EndedInBounds(st);
      var st1 := if isOpen then Do(st, End) else st;
      if st1.Active? {
        var st2 := Do(st1, Begin(it.sectionType, it.codec));
        if st2.Active? { AddedInBounds(st2, it.rec); }
      }
    }
  }

  lemma {:induction false} ReplayInBounds(items: seq<WalkEvent>)
    requires AllFit(items)
    ensures Replayed(items) != Error(OutOfBounds)
  {
    hide WellFormed, ReplayItem;
    if items != [] {
      var init, it := items[..|items| - 1], items[|items| - 1];
      ReplayInBounds(init);
      if Replayed(init).Ok? {
        ItemInBounds(Replayed(init).value, init != [],
                     init != [] && init[|init| - 1].sectionIndex == it.sectionIndex, it);
      }
    }
  }

  lemma MergedInBounds(rs: seq<Record>, mac: (Bytes, Bytes) -> Bytes)
    requires AllWell(rs)
    ensures Merged(rs, mac) != Error(OutOfBounds)
  {
    hide WellFormed, Replayed, Ended;
    RegroupWell(rs);
    ReplayInBounds(Events(Regroup(rs)));
    if Replayed(Events(Regroup(rs))).Ok? { EndedInBounds(Replayed(Events(Regroup(rs))).value); }
  }

  lemma {:induction false} DocumentedInBounds(inputs: seq<Bytes>)
    ensures Documented(inputs) != Error(OutOfBounds)
  {
    hide Container.Parse, Sections;
    if inputs != [] {
      DocumentedInBounds(inputs[..|inputs| - 1]);
      ParseInBounds(inputs[|inputs| - 1]);
    }
  }

  lemma IntendedInBounds(inputs: seq<Bytes>, mac: (Bytes, Bytes) -> Bytes)
    ensures Intended(inputs, mac) != Error(OutOfBounds)
  {
    hide Merged, AllWell, Documented;
    DocumentedInBounds(inputs);
    DocumentedWell(inputs);
    if Documented(inputs).Ok? { MergedInBounds(Documented(inputs).value, mac); }
  }

  /** Seventeen records of one tag in a row are enough. */
  lemma SeventeenHeartbeats()
    ensures var beat := Heartbeat(0, 0);
            Hazard(seq(17, _ => beat)) && !Hazard(seq(16, _ => beat))
  {
    var beat := Heartbeat(0, 0);
    var r17 := seq(17, _ => beat);
    BeatsOfTag(16);
    assert r17[..16] == seq(16, _ => beat);
    assert Full(16);
    assert Stale(r17[..16], r17[16]);
    BeatsSafe(16);
  }

  lemma {:induction false} BeatsOfTag(n: nat)
    ensures OfTag(seq(n, _ => Heartbeat(0, 0)), 0x10) == seq(n, _ => Heartbeat(0, 0))
  {
    if n > 0 {
      BeatsOfTag(n - 1);
      assert seq(n, _ => Heartbeat(0, 0))[..n - 1] == seq(n - 1, _ => Heartbeat(0, 0));
    }
  }

  lemma {:induction false} BeatsSafe(n: nat)
    requires n <= 16
    ensures !Hazard(seq(n, _ => Heartbeat(0, 0)))
  {
    if n > 0 {
      BeatsSafe(n - 1);
      BeatsOfTag(n - 1);
      assert seq(n, _ => Heartbeat(0, 0))[..n - 1] == seq(n - 1, _ => Heartbeat(0, 0));
    }
  }

  lemma {:induction false} VisitRecords(rs: seq<Record>, ty: u16, codec: byte, si: nat, inSec: nat, index: nat)
    ensures RecordsOf(Visit(Tlv.Parsed(rs), ty, codec, si, inSec, index).events) == CanonAll(rs)
    decreases |rs|
  {
    hide Canon;
    if rs != [] {
      VisitRecords(rs[1..], ty, codec, si, inSec + 1, index + 1);
      assert Tlv.Parsed(rs)[1..] == Tlv.Parsed(rs[1..]);
    }
  }

  lemma {:induction false} BeatStream(n: nat)
    ensures var rs := seq(n, _ => Heartbeat(0, 0));
            Tlv.AllWellFormed(rs) && |Tlv.Stream(rs)| == 11 * n && CanonAll(rs) == rs
  {
    var rs := seq(n, _ => Heartbeat(0, 0));
    if n > 0 {
      BeatStream(n - 1);
      assert rs[1..] == seq(n - 1, _ => Heartbeat(0, 0));
    }
  }

  /** Seventeen heartbeats, then an input that is no container: the released block is
      written before the bad input is seen, where merge documents its error. */
  lemma HazardBeforeBadInput(mac: (Bytes, Bytes) -> Bytes)
    ensures var rs := seq(17, _ => Heartbeat(0, 0));
            && Tlv.AllWellFormed(rs) && 0 < |Tlv.Stream(rs)| <= 0xFFFF
            && var inputs := [Stored(Tlv.Stream(rs)), []];
            Merge(inputs, mac) == Error(OutOfBounds) && Intended(inputs, mac) == Error(Truncated)
  {
    hide Walk.Walk, Hazard, Merge, Stored, Visit, Tlv.Stream;
    var rs := seq(17, _ => Heartbeat(0, 0));
    BeatStream(17);
    SeventeenHeartbeats();
    Tlv.StreamBack(rs);
    VisitRecords(rs, 1, 0, 0, 0, 0);
    var first := Stored(Tlv.Stream(rs));
    StoredWalk(Tlv.Stream(rs), false);
    assert RecordsOf(Walk.Walk(first, 0).value.events) == rs;
    NoContainer();
    var one: seq<Bytes>, both: seq<Bytes> := [first], [first, []];
    assert both[..1] == one && one[..0] == [] && [] + rs == rs;
    assert Documented([]) == Ok([]) && Reached([]) == ([], true);
    assert Reached([first]) == (rs, true) && Documented([first]) == Ok(rs);
    assert Reached(both) == (rs, false);
    MergeIffNoHazard(both, mac);
  }

  lemma NoContainer()
    ensures Walk.Walk([], 0) == Error(Truncated)
  {
  }

  /** Whenever merge succeeds, its output carries the stable ordering by tag of all
      the records of all its inputs, exactly when no tag outweighs what a walk decodes. */
  lemma MergeFaithful(inputs: seq<Bytes>, mac: (Bytes, Bytes) -> Bytes)
    requires IsMac(mac) && Merge(inputs, mac).Ok?
    ensures Documented(inputs) == Gathered(inputs)
    ensures Carries(Merge(inputs, mac).value, Events(Regroup(Gathered(inputs).value))) <==> EachTagFits(Gathered(inputs).value)
  {
    hide Carries, Merged, Regroup, AllWell, EachTagFits, Hazard, Walk.Walk;
    GatheredWell(inputs);
    GatheredMeans(inputs);
    MergedFaithful(Gathered(inputs).value, mac);
  }

  lemma {:induction false} GatheredMeans(inputs: seq<Bytes>)
    requires Gathered(inputs).Ok?
    ensures Documented(inputs) == Gathered(inputs)
  {
    hide Hazard, Walk.Walk;
    if inputs != [] { GatheredMeans(inputs[..|inputs| - 1]); }
  }

  // ---- split, then merge ----

  /** A record and its wire form are written alike. */
  lemma CanonWrites(r: Record)
    requires WellFormed(r)
    ensures Representable(r) && WellFormed(Canon(r)) && Representable(Canon(r))
    ensures Payload(Canon(r)) == Payload(r) && TagOf(Canon(r)) == TagOf(r)
  {
    if r.Config? { CanonPairBytes(r.pairs); }
  }

  function CanonAll(rs: seq<Record>): (s: seq<Record>)
    ensures |s| == |rs| && forall i | 0 <= i < |rs| :: s[i] == Canon(rs[i])
  {
    seq(|rs|, i requires 0 <= i < |rs| => Canon(rs[i]))
  }

  lemma CanonTag(r: Record)
    ensures TagOf(Canon(r)) == TagOf(r)
  {
  }

  lemma {:induction false} CanonOfTag(rs: seq<Record>, t: byte)
    ensures OfTag(CanonAll(rs), t) == CanonAll(OfTag(rs, t))
  {
    hide Canon, TagOf;
    if rs != [] {
      var n := |rs| - 1;
      CanonOfTag(rs[..n], t);
      CanonTag(rs[n]);
      assert CanonAll(rs)[..n] == CanonAll(rs[..n]);
    }
  }

  lemma {:induction false} CanonBelow(rs: seq<Record>, n: nat)
    requires n <= TAGS
    ensures Below(CanonAll(rs), n) == CanonAll(Below(rs, n))
  {
    hide Canon, OfTag;
    if n > 0 {
      CanonBelow(rs, n - 1);
      CanonOfTag(rs, n - 1);
    }
  }

  lemma CanonAdds(st: State, r: Record)
    requires st.Active? && WellFormed(r)
    ensures Representable(r) && Representable(Canon(r)) && Do(st, AddRecord(Canon(r))) == Do(st, AddRecord(r))
  {
    hide WellFormed, Canon, Representable;
    CanonWrites(r);
  }

  lemma CanonItem(st: State, isOpen: bool, same: bool, r: Record)
    requires st.Active? && WellFormed(r) && WellFormed(Canon(r))
    ensures ReplayItem(st, isOpen, same, Placed(Canon(r))) == ReplayItem(st, isOpen, same, Placed(r))
  {
    hide WellFormed, Canon, Representable, Added, Ended;
    FitIsRepresentable(r);
    FitIsRepresentable(Canon(r));
    CanonTag(r);
    if same {
      CanonAdds(st, r);
    } else {
      var st1 := if isOpen then Do(st, End) else st;
      if st1.Active? {
        var st2 := Do(st1, Begin(TagOf(r), Codecs.STORE));
        if st2.Active? { CanonAdds(st2, r); }
      }
    }
  }

  lemma CanonWell(rs: seq<Record>)
    requires AllWell(rs)
    ensures AllWell(CanonAll(rs)) && AllFit(Events(rs)) && AllFit(Events(CanonAll(rs)))
  {
    hide WellFormed, Canon;
    forall i | 0 <= i < |rs| ensures WellFormed(CanonAll(rs)[i]) { assert rs[i] in rs; CanonWrites(rs[i]); }
    EventsFit(rs);
    EventsFit(CanonAll(rs));
  }

  lemma {:induction false} CanonReplayed(rs: seq<Record>)
    requires AllWell(rs)
    ensures AllFit(Events(rs)) && AllFit(Events(CanonAll(rs))) && Replayed(Events(CanonAll(rs))) == Replayed(Events(rs))
  {
    hide WellFormed, Canon, ReplayItem;
    CanonWell(rs);
    if rs != [] {
      var n := |rs| - 1;
      CanonReplayed(rs[..n]);
      var es, cs := Events(rs), Events(CanonAll(rs));
      assert es[..n] == Events(rs[..n]) && cs[..n] == Events(CanonAll(rs[..n]));
      assert rs[n] in rs;
      CanonTag(rs[n]);
      if n > 0 { CanonTag(rs[n - 1]); }
      assert WellFormed(Canon(rs[n])) by { CanonWrites(rs[n]); }
      var st := Replayed(es[..n]);
      if st.Ok? {
        CanonItem(st.value, n > 0, n > 0 && TagOf(rs[n - 1]) == TagOf(rs[n]), rs[n]);
      }
    }
  }

  /** Regrouping the wire forms of the parts writes the very bytes that regrouping
      the records writes. */
  lemma MergedParts(rs: seq<Record>, tags: seq<byte>, mac: (Bytes, Bytes) -> Bytes)
    requires AllWell(rs) && NoRepeats(tags) && Covers(tags, rs)
    ensures AllWell(CanonAll(Parts(rs, tags))) && Merged(CanonAll(Parts(rs, tags)), mac) == Merged(rs, mac)
  {
    hide WellFormed, Canon, Below, Parts, Replayed, Finish, Do;
    PartsWell(rs, tags);
    CanonWell(Parts(rs, tags));
    CanonBelow(Parts(rs, tags), TAGS);
    RegroupParts(rs, tags);
    RegroupWell(rs);
    CanonReplayed(Regroup(rs));
  }

  lemma {:induction false} PartsWell(rs: seq<Record>, tags: seq<byte>)
    requires AllWell(rs)
    ensures AllWell(Parts(rs, tags))
  {
    hide WellFormed, OfTag;
    if tags != [] {
      PartsWell(rs, tags[..|tags| - 1]);
      OfTagWell(rs, tags[|tags| - 1]);
    }
  }

  /** The files that splitting `rs` writes for `tags`, in that order. */
  ghost predicate SplitFiles(rs: seq<Record>, tags: seq<byte>, files: seq<Bytes>, mac: (Bytes, Bytes) -> Bytes)
    requires AllWell(rs)
  {
    |files| == |tags| && forall i | 0 <= i < |tags| :: SplitOut(rs, tags[i], mac) == Ok(files[i])
  }

  /** The records that merging takes from the split file of `tag`: all of them, or none
      when they outweigh what a walk decodes. */
  lemma SplitWalk(rs: seq<Record>, tag: byte, mac: (Bytes, Bytes) -> Bytes)
    requires AllWell(rs) && IsMac(mac) && SplitOut(rs, tag, mac).Ok?
    ensures var w := Walk.Walk(SplitOut(rs, tag, mac).value, 0);
            w.Ok? && RecordsOf(w.value.events) == if Fits(rs, tag) then CanonAll(OfTag(rs, tag)) else []
  {
    hide WellFormed, Canon, Output, OfTag, Walk.Walk, Container.Parse, Total, Carries, Light, Grouped, OneSource;
    if Fits(rs, tag) {
      SplitFaithful(rs, tag, mac);
      CarriesMeans(SplitOut(rs, tag, mac).value, Events(OfTag(rs, tag)));
      var es := Walk.Walk(SplitOut(rs, tag, mac).value, 0).value.events;
      forall i | 0 <= i < |es| ensures RecordsOf(es)[i] == CanonAll(OfTag(rs, tag))[i] {
        assert es[i].rec == Canon(Events(OfTag(rs, tag))[i].rec);
      }
    } else {
      PartFits(rs, tag);
      EventsLight(OfTag(rs, tag));
      TagIsOneSource(rs, tag);
      OverweightLost(Events(OfTag(rs, tag)), None, mac, tag);
    }
  }

  /** The tag's records can be walked as one section. */
  ghost predicate Fits(rs: seq<Record>, tag: byte) { Total(OfTag(rs, tag)) <= DEFAULT_MAX_DECODE }

  lemma TagIsOneSource(rs: seq<Record>, tag: byte)
    requires !Fits(rs, tag)
    ensures OneSource(Events(OfTag(rs, tag)), tag)
  {
    hide OfTag, TagOf;
    var s := OfTag(rs, tag);
    OfTagMembers(rs, tag);
    forall k | 0 <= k < |s| ensures TagOf(s[k]) == tag { assert s[k] in s; }
  }

  /** The tags whose split file can be walked. */
  ghost function Fitting(rs: seq<Record>, tags: seq<byte>): seq<byte> {
    if tags == [] then []
    else
      var n := |tags| - 1;
      Fitting(rs, tags[..n]) + if Fits(rs, tags[n]) then [tags[n]] else []
  }

  lemma {:induction false} FittingMembers(rs: seq<Record>, tags: seq<byte>, t: byte)
    ensures t in Fitting(rs, tags) <==> t in tags && Fits(rs, t)
  {
    hide Fits;
    if tags != [] {
      var n := |tags| - 1;
      FittingMembers(rs, tags[..n], t);
      assert tags == tags[..n] + [tags[n]];
    }
  }

  lemma {:induction false} FittingNoRepeats(rs: seq<Record>, tags: seq<byte>)
    requires NoRepeats(tags)
    ensures NoRepeats(Fitting(rs, tags))
  {
    hide Fits;
    if tags != [] {
      var n := |tags| - 1;
      FittingNoRepeats(rs, tags[..n]);
      FittingMembers(rs, tags[..n], tags[n]);
      var f := Fitting(rs, tags[..n]);
      assert forall i | 0 <= i < |f| :: f[i] in f;
    }
  }

  lemma {:induction false} FittingAll(rs: seq<Record>, tags: seq<byte>)
    requires forall t | t in tags :: Fits(rs, t)
    ensures Fitting(rs, tags) == tags
  {
    hide Fits;
    if tags != [] {
      var init, t := tags[..|tags| - 1], tags[|tags| - 1];
      forall u | u in init ensures Fits(rs, u) { assert u in tags; }
      FittingAll(rs, init);
      assert t in tags;
      assert tags == init + [t];
    }
  }

  /** What merge gathers from the split files. */
  lemma {:induction false} GatherSplit(rs: seq<Record>, tags: seq<byte>, files: seq<Bytes>, mac: (Bytes, Bytes) -> Bytes)
    requires AllWell(rs) && IsMac(mac) && SplitFiles(rs, tags, files, mac)
    ensures Documented(files) == Ok(CanonAll(Parts(rs, Fitting(rs, tags))))
    decreases |tags|
  {
    hide WellFormed, Canon, SplitOut, OfTag, Walk.Walk, Fits;
    if tags != [] {
      var n := |tags| - 1;
      GatherSplit(rs, tags[..n], files[..n], mac);
      SplitWalk(rs, tags[n], mac);
      var f := Fitting(rs, tags[..n]);
      if Fits(rs, tags[n]) {
        assert (f + [tags[n]])[..|f|] == f;
        assert CanonAll(Parts(rs, f) + OfTag(rs, tags[n])) == CanonAll(Parts(rs, f)) + CanonAll(OfTag(rs, tags[n]));
      } else {
        assert f + [] == f && CanonAll(Parts(rs, f)) + [] == CanonAll(Parts(rs, f));
      }
    }
  }

  // ---- split files through the cached base ----

  lemma FullFrom16(k: nat)
    ensures k < 16 ==> !Full(k)
    ensures Full(16)
  {
  }

  lemma {:induction false} OnlyTag(part: seq<Record>, tag: byte)
    requires forall x | x in part :: TagOf(x) == tag
    ensures OfTag(part, tag) == part
  {
    hide TagOf;
    if part != [] { OnlyTag(part[..|part| - 1], tag); }
  }

  /** A run of one tag after records of other tags. */
  lemma {:induction false} BlockHazard(before: seq<Record>, part: seq<Record>, tag: byte)
    requires (forall x | x in part :: TagOf(x) == tag) && forall x | x in before :: TagOf(x) != tag
    ensures Hazard(before + part) <==> Hazard(before) || |part| > 16
    decreases |part|
  {
    hide TagOf, OfTag, Full, Hazard;
    if part == [] {
      assert before + part == before;
    } else {
      var k := |part| - 1;
      var init, x := part[..k], part[k];
      var all := before + init;
      BlockHazard(before, init, tag);
      assert before + part == all + [x];
      HazardSnoc(all, x);
      OfTagConcat(before, init, tag);
      OfTagNone(before, tag);
      OnlyTag(init, tag);
      assert OfTag(all, tag) == [] + init == init;
      FullFrom16(k);
      assert k > 0 ==> all[|all| - 1] == init[k - 1];
      assert k == 0 ==> all == before;
    }
  }

  lemma {:induction false} PartsMembers(rs: seq<Record>, tags: seq<byte>)
    ensures forall x | x in Parts(rs, tags) :: TagOf(x) in tags
  {
    hide TagOf, OfTag;
    if tags != [] {
      var n := |tags| - 1;
      PartsMembers(rs, tags[..n]);
      OfTagMembers(rs, tags[n]);
    }
  }

  ghost predicate SomeLong(rs: seq<Record>, tags: seq<byte>) {
    exists i :: 0 <= i < |tags| && |OfTag(rs, tags[i])| > 16
  }

  lemma SomeLongSnoc(rs: seq<Record>, tags: seq<byte>, t: byte)
    ensures SomeLong(rs, tags + [t]) <==> SomeLong(rs, tags) || |OfTag(rs, t)| > 16
  {
    hide OfTag;
    var all := tags + [t];
    if SomeLong(rs, tags) {
      var i :| 0 <= i < |tags| && |OfTag(rs, tags[i])| > 16;
      assert |OfTag(rs, all[i])| > 16;
    }
    if |OfTag(rs, t)| > 16 { assert all[|tags|] == t; }
  }

  /** The concatenated split files reach the stale base exactly when some tag has
      more than sixteen records. */
  lemma {:induction false} PartsHazard(rs: seq<Record>, tags: seq<byte>)
    requires NoRepeats(tags)
    ensures Hazard(Parts(rs, tags)) <==> SomeLong(rs, tags)
  {
    hide TagOf, OfTag, Hazard, SomeLong;
    if tags == [] {
      assert !Hazard([]) by { NoHazard(); }
      assert !SomeLong(rs, []) by { NoneLong(rs); }
    } else {
      var n := |tags| - 1;
      var init, t := tags[..n], tags[n];
      PartsHazard(rs, init);
      PartsMembers(rs, init);
      OfTagMembers(rs, t);
      assert t !in init;
      BlockHazard(Parts(rs, init), OfTag(rs, t), t);
      assert tags == init + [t];
      SomeLongSnoc(rs, init, t);
    }
  }

  lemma NoneLong(rs: seq<Record>)
    ensures !SomeLong(rs, [])
  {
  }

  lemma {:induction false} CanonHazard(rs: seq<Record>)
    ensures Hazard(CanonAll(rs)) <==> Hazard(rs)
  {
    hide TagOf, OfTag, Full, Canon;
    if rs != [] {
      var n := |rs| - 1;
      CanonHazard(rs[..n]);
      assert CanonAll(rs)[..n] == CanonAll(rs[..n]);
      CanonTag(rs[n]);
      CanonOfTag(rs[..n], TagOf(rs[n]));
      if n > 0 { CanonTag(rs[n - 1]); }
    }
  }

  // ---- the loops ----

  method AbsorbMerge(g: Groups, rs: seq<Record>) returns (rc: Option<Err>)
    requires g.Valid() && g.Cached() && !Hazard(g.taken)
    modifies g
    ensures rc in {None, Some(Oom), Some(OutOfBounds)}
    ensures rc == None ==> g.Valid() && g.Cached() && g.taken == old(g.taken) + rs && !Hazard(g.taken)
    ensures rc == Some(OutOfBounds) ==> Hazard(old(g.taken) + rs)
  {
    hide Stale, Hazard;
    ghost var start := g.taken;
    for i := 0 to |rs|
      invariant g.Valid() && g.Cached() && g.taken == start + rs[..i] && !Hazard(g.taken)
    {
      ghost var before := g.taken;
      rc := g.OnMergeRecord(rs[i]);
      assert start + rs[..i + 1] == before + [rs[i]];
      HazardSnoc(before, rs[i]);
      if rc != None {
        if rc == Some(OutOfBounds) {
          HazardStays(start + rs[..i + 1], rs[i + 1..]);
          assert start + rs == start + rs[..i + 1] + rs[i + 1..];
        }
        return;
      }
    }
    assert rs[..|rs|] == rs;
    return None;
  }

  lemma HazardSnoc(rs: seq<Record>, r: Record)
    ensures Hazard(rs + [r]) <==> Hazard(rs) || Stale(rs, r)
  {
    hide Stale;
    var all := rs + [r];
    assert all[..|all| - 1] == rs && all[|all| - 1] == r;
  }

  /** The emission order: ascending tags, skipping those without records. */
  method Emission(g: Groups) returns (es: seq<WalkEvent>)
    requires g.Valid()
    ensures es == Events(Regroup(g.taken))
  {
    hide OfTag, CapFor;
    es := [];
    for tag := 0 to TAGS
      invariant es == Events(Below(g.taken, tag))
    {
      assert g.Vector(tag, CapFor(|OfTag(g.taken, tag)|));
      ghost var part := OfTag(g.taken, tag);
      if g.count[tag] == 0 {
        assert part == [] && Below(g.taken, tag) + [] == Below(g.taken, tag);
        continue;
      }
      es := es + Events(g.blocks[g.byTag[tag]].cells);
    }
  }

  method MergeMemory(inputs: seq<Bytes>, mac: (Bytes, Bytes) -> Bytes) returns (r: Result<Bytes>, ghost lapsed: bool)
    requires IsMac(mac)
    ensures lapsed ==> r.Error?
    ensures !lapsed ==> r == Merge(inputs, mac)
  {
    hide Walk.Walk, Hazard, Output, WellFormed, Regroup;
    if inputs == [] {
      return Error(Inval), false;
    }
    var g := new Groups();
    assert !Hazard([]) by { NoHazard(); }
    for i := 0 to |inputs|
      invariant fresh(g) && g.Valid() && g.Cached() && !Hazard(g.taken)
      invariant Gathered(inputs[..i]) == Ok(g.taken)
    {
      assert inputs[..i + 1][..i] == inputs[..i];
      var seen := WalkMemory(inputs[i], 0);
      if seen.Error? {
        GatherFails(inputs, i + 1, seen.err);
        return Error(seen.err), false;
      }
      var rc := AbsorbMerge(g, RecordsOf(seen.value.events));
      if rc.Some? {
        if rc.value == OutOfBounds { GatherFails(inputs, i + 1, OutOfBounds); }
        return Error(rc.value), rc.value == Oom;
      }
    }
    assert inputs[..|inputs|] == inputs;
    GatheredWell(inputs);
    RegroupWell(g.taken);
    var es := Emission(g);
    r, lapsed := ReplayAll(es, None, mac);
  }

  lemma NoHazard()
    ensures !Hazard([])
  {
  }

  lemma {:induction false} GatherFails(inputs: seq<Bytes>, i: nat, e: Err)
    requires i <= |inputs| && Gathered(inputs[..i]) == Error(e)
    ensures Gathered(inputs) == Error(e)
    decreases |inputs|
  {
    hide Walk.Walk, Hazard;
    if i < |inputs| {
      var init := inputs[..|inputs| - 1];
      assert init[..i] == inputs[..i];
      GatherFails(init, i, e);
    } else {
      assert inputs[..i] == inputs;
    }
  }

  /** What split writes: for each tag that occurs, ascending, its container; the
      first failure stops it. */
  function SplitAll(rs: seq<Record>, n: nat, mac: (Bytes, Bytes) -> Bytes): Result<seq<(byte, Bytes)>>
    requires n <= TAGS && AllWell(rs)
  {
    if n == 0 then Ok([])
    else
      var before :- SplitAll(rs, n - 1, mac);
      var tag: byte := n - 1;
      if OfTag(rs, tag) == [] then Ok(before)
      else
        var out :- SplitOut(rs, tag, mac);
        Ok(before + [(tag, out)])
  }

  /** The files, in ascending order of their tags, are those of exactly the tags
      below `n` that occur. */
  ghost predicate Complete(fs: seq<(byte, Bytes)>, rs: seq<Record>, n: nat, mac: (Bytes, Bytes) -> Bytes)
    requires AllWell(rs)
  {
    && (forall i | 0 <= i < |fs| :: fs[i].0 < n && OfTag(rs, fs[i].0) != [] && SplitOut(rs, fs[i].0, mac) == Ok(fs[i].1))
    && (forall i, j | 0 <= i < j < |fs| :: fs[i].0 < fs[j].0)
    && (forall t: byte | t < n && OfTag(rs, t) != [] :: HasTag(fs, t))
  }

  ghost predicate HasTag(fs: seq<(byte, Bytes)>, t: byte) { exists i :: 0 <= i < |fs| && fs[i].0 == t }

  lemma HasTagSnoc(fs: seq<(byte, Bytes)>, f: (byte, Bytes), t: byte)
    ensures HasTag(fs + [f], t) <==> HasTag(fs, t) || f.0 == t
  {
    var all := fs + [f];
    if HasTag(fs, t) {
      var i :| 0 <= i < |fs| && fs[i].0 == t;
      assert all[i].0 == t;
    }
    if f.0 == t { assert all[|fs|].0 == t; }
  }

  lemma {:induction false} SplitAllCovers(rs: seq<Record>, n: nat, mac: (Bytes, Bytes) -> Bytes)
    requires n <= TAGS && AllWell(rs) && SplitAll(rs, n, mac).Ok?
    ensures Complete(SplitAll(rs, n, mac).value, rs, n, mac)
  {
    hide OfTag, SplitOut, AllWell, HasTag;
    if n > 0 {
      SplitAllCovers(rs, n - 1, mac);
      var before, fs := SplitAll(rs, n - 1, mac).value, SplitAll(rs, n, mac).value;
      forall t: byte | t < n && OfTag(rs, t) != [] ensures HasTag(fs, t) {
        if OfTag(rs, n - 1) != [] { HasTagSnoc(before, fs[|fs| - 1], t); }
      }
    }
  }

  function TagsOf(fs: seq<(byte, Bytes)>): (ts: seq<byte>)
    ensures |ts| == |fs| && forall i | 0 <= i < |ts| :: ts[i] == fs[i].0
  {
    seq(|fs|, i requires 0 <= i < |fs| => fs[i].0)
  }

  function FilesOf(fs: seq<(byte, Bytes)>): (bs: seq<Bytes>)
    ensures |bs| == |fs| && forall i | 0 <= i < |bs| :: bs[i] == fs[i].1
  {
    seq(|fs|, i requires 0 <= i < |fs| => fs[i].1)
  }

  lemma {:induction false} HasRecord(rs: seq<Record>, x: Record)
    requires x in rs
    ensures OfTag(rs, TagOf(x)) != []
  {
    hide TagOf;
    var n := |rs| - 1;
    if x != rs[n] { HasRecord(rs[..n], x); }
  }

  /** What split writes is a split in the sense of the merge theorems. */
  lemma SplitAllIsSplit(rs: seq<Record>, mac: (Bytes, Bytes) -> Bytes)
    requires AllWell(rs) && SplitAll(rs, TAGS, mac).Ok?
    ensures var fs := SplitAll(rs, TAGS, mac).value;
            NoRepeats(TagsOf(fs)) && Covers(TagsOf(fs), rs) && SplitFiles(rs, TagsOf(fs), FilesOf(fs), mac)
  {
    hide OfTag, SplitOut, AllWell, SplitAll, TagOf;
    var fs := SplitAll(rs, TAGS, mac).value;
    SplitAllCovers(rs, TAGS, mac);
    forall x | x in rs ensures TagOf(x) in TagsOf(fs) {
      HasRecord(rs, x);
      assert HasTag(fs, TagOf(x));
      var i :| 0 <= i < |fs| && fs[i].0 == TagOf(x);
      assert TagsOf(fs)[i] == TagOf(x);
    }
  }

  method SplitMemory(data: Bytes, mac: (Bytes, Bytes) -> Bytes)
    returns (r: Result<seq<(byte, Bytes)>>, ghost lapsed: bool)
    requires IsMac(mac)
    ensures lapsed ==> r.Error?
    ensures !lapsed ==>
              match Walk.Walk(data, 0)
              case Error(e) => r == Error(e)
              case Ok(seen) =>
                AllWell(RecordsOf(seen.events)) && r == SplitAll(RecordsOf(seen.events), TAGS, mac)
  {
    hide Walk.Walk, Output, WellFormed;
    var seen := WalkMemory(data, 0);
    if seen.Error? {
      return Error(seen.err), false;
    }
    WalkedWell(data);
    var g := new Groups();
    var rs := RecordsOf(seen.value.events);
    for i := 0 to |rs|
      invariant fresh(g) && g.Valid() && g.taken == rs[..i]
    {
      var ok := g.OnSplitRecord(rs[i]);
      if !ok {
        return Error(Oom), true;
      }
      assert rs[..i + 1] == rs[..i] + [rs[i]];
    }
    assert rs[..|rs|] == rs;
    r, lapsed := WriteTags(g, mac);
  }

  lemma {:induction false} SplitFails(rs: seq<Record>, n: nat, m: nat, e: Err, mac: (Bytes, Bytes) -> Bytes)
    requires n <= m <= TAGS && AllWell(rs) && SplitAll(rs, n, mac) == Error(e)
    ensures SplitAll(rs, m, mac) == Error(e)
    decreases m
  {
    hide OfTag, SplitOut, AllWell;
    if n < m { SplitFails(rs, n, m - 1, e, mac); }
  }

  method WriteTags(g: Groups, mac: (Bytes, Bytes) -> Bytes) returns (r: Result<seq<(byte, Bytes)>>, ghost lapsed: bool)
    requires IsMac(mac) && g.Valid() && AllWell(g.taken)
    ensures lapsed ==> r.Error?
    ensures !lapsed ==> r == SplitAll(g.taken, TAGS, mac)
  {
    hide OfTag, CapFor, Output, AllWell;
    var files: seq<(byte, Bytes)> := [];
    for tag := 0 to TAGS
      invariant SplitAll(g.taken, tag, mac) == Ok(files)
    {
      assert g.Vector(tag, CapFor(|OfTag(g.taken, tag)|));
      if g.count[tag] == 0 {
        continue;
      }
      OfTagWell(g.taken, tag);
      EventsFit(OfTag(g.taken, tag));
      var out, bad := ReplayAll(Events(g.blocks[g.byTag[tag]].cells), None, mac);
      if out.Error? {
        if !bad { SplitFails(g.taken, tag + 1, TAGS, out.err, mac); }
        return Error(out.err), bad;
      }
      var t: byte := tag;
      files := files + [(t, out.value)];
    }
    return Ok(files), false;
  }
}
