/** When the replaying tools succeed (src/report/repack.c, select.c, dedup.c, sign.c,
    merge.c, split.c): the exact condition, read off the records to be written. */
module Success {
  import opened Core
  import opened Records
  import opened Walk
  import opened WriterSpec
  import opened Pipeline
  import opened Replay
  import opened Tools
  import Codecs
  import Container
  import Tlv

  /** An output section: its type and codec, and the stream it is to hold. */
  datatype Planned = Planned(ty: u16, codec: byte, raw: Bytes)

  /** One output section for each run of items from one source section. */
  function Plan(items: seq<WalkEvent>): (ps: seq<Planned>)
    requires AllFit(items)
    ensures items != [] ==> ps != []
  {
    if items == [] then []
    else
      var init, it := items[..|items| - 1], items[|items| - 1];
      PlanStep(Plan(init), init != [] && init[|init| - 1].sectionIndex == it.sectionIndex, it)
  }

  /** The plan with one more item. */
  function PlanStep(ps: seq<Planned>, same: bool, it: WalkEvent): (r: seq<Planned>)
    requires WellFormed(it.rec)
    ensures r != []
  {
    if same && ps != [] then
      var n := |ps| - 1;
      ps[..n] + [ps[n].(raw := ps[n].raw + Tlv.RecordBytes(it.rec))]
    else ps + [Planned(it.sectionType, it.codec, Tlv.RecordBytes(it.rec))]
  }

  /** The stream is of a legal size, the codec exists and does not refuse it: varint
      and delta want whole words, dict at most 65535 distinct blocks. */
  predicate Packable(p: Planned) {
    && 0 < |p.raw| <= SECTION_MAX_RAW && Codecs.Get(p.codec).Some?
    && Codecs.Refuses(Codecs.Get(p.codec).value, p.raw).None?
  }

  function PackedOf(p: Planned): Container.Packed
    requires Packable(p)
  {
    Codecs.RoomSuffices(Codecs.Get(p.codec).value, p.raw, 0);
    BlobFits(p);
    Container.Packed(p.ty, p.codec, |p.raw|, Codecs.Unlimited(Codecs.Get(p.codec).value, p.raw).value)
  }

  lemma BlobFits(p: Planned)
    requires Packable(p)
    ensures var u := Codecs.Unlimited(Codecs.Get(p.codec).value, p.raw); u.Ok? && |u.value| <= 0xFFFF_FFFF
  {
    hide Codecs.Encode, Codecs.Refuses;
    var c := Codecs.Get(p.codec).value;
    Codecs.RoomSuffices(c, p.raw, 0);
    Codecs.EncodeFits(c, p.raw, Codecs.WorstCase(c, |p.raw|));
  }

  predicate AllPackable(ps: seq<Planned>) { forall i | 0 <= i < |ps| :: Packable(ps[i]) }

  function PackAll(ps: seq<Planned>): (r: seq<Container.Packed>)
    requires AllPackable(ps)
    ensures |r| == |ps|
  {
    if ps == [] then [] else PackAll(ps[..|ps| - 1]) + [PackedOf(ps[|ps| - 1])]
  }

  lemma EndedIff(st: State)
    requires st.Active? && st.open.Some?
    ensures var o := st.open.value; var p := Planned(o.ty, o.codec, o.tlv);
            && (Do(st, End).Active? <==> Packable(p))
            && (Packable(p) ==> Do(st, End) == Active(st.done + [PackedOf(p)], None, st.key))
  {
    hide Codecs.Encode, Codecs.Refuses;
    var o := st.open.value;
    var p := Planned(o.ty, o.codec, o.tlv);
    if Codecs.Get(o.codec).Some? { Codecs.RoomSuffices(Codecs.Get(o.codec).value, o.tlv, 0); }
    if Packable(p) { BlobFits(p); }
  }

  /** A well-formed record is always added to an open section. */
  lemma AddedAlways(st: State, r: Record)
    requires st.Active? && st.open.Some? && WellFormed(r) && Representable(r)
    ensures Do(st, AddRecord(r))
         == Active(st.done, Some(st.open.value.(tlv := st.open.value.tlv + Tlv.RecordBytes(r))), st.key)
  {
  }

  /** What the loop has done after a plan: all but the last section are packed. */
  ghost predicate Reaches(ps: seq<Planned>, st: State) {
    && ps != [] && AllPackable(ps[..|ps| - 1])
    && var last := ps[|ps| - 1];
    st == Active(PackAll(ps[..|ps| - 1]), Some(Open(last.ty, last.codec, last.raw)), None)
  }

  ghost predicate Reachable(ps: seq<Planned>) {
    |ps| <= MAX_SECTIONS && (ps != [] ==> AllPackable(ps[..|ps| - 1]))
  }

  lemma PackableSnoc(ps: seq<Planned>)
    requires ps != []
    ensures AllPackable(ps) <==> AllPackable(ps[..|ps| - 1]) && Packable(ps[|ps| - 1])
  {
    hide Packable;
    var n := |ps| - 1;
    if AllPackable(ps) {
      forall i | 0 <= i < n ensures Packable(ps[..n][i]) { assert ps[..n][i] == ps[i]; }
    }
    if AllPackable(ps[..n]) && Packable(ps[n]) {
      forall i | 0 <= i < |ps| ensures Packable(ps[i]) { if i < n { assert ps[i] == ps[..n][i]; } }
    }
  }

  lemma FirstStep(it: WalkEvent)
    requires WellFormed(it.rec)
    ensures var r, ps := ReplayItem(INITIAL, false, false, it), PlanStep([], false, it);
            Reachable(ps) && r.Ok? && Reaches(ps, r.value)
  {
    hide WellFormed, Representable, Tlv.RecordBytes, Added, Ended;
    FitIsRepresentable(it.rec);
    AddedAlways(Active([], Some(Open(it.sectionType, it.codec, [])), None), it.rec);
    var bytes := Tlv.RecordBytes(it.rec);
    assert [] + bytes == bytes;
    var ps := PlanStep([], false, it);
    assert ps == [Planned(it.sectionType, it.codec, bytes)] && ps[..0] == [];
  }

  lemma SameStep(ps: seq<Planned>, st: State, it: WalkEvent)
    requires WellFormed(it.rec) && Reachable(ps) && Reaches(ps, st)
    ensures var r, ps' := ReplayItem(st, true, true, it), PlanStep(ps, true, it);
            Reachable(ps') && r.Ok? && Reaches(ps', r.value)
  {
    hide WellFormed, Representable, Tlv.RecordBytes, Added, Ended, Packable, PackAll;
    FitIsRepresentable(it.rec);
    AddedAlways(st, it.rec);
    var n := |ps| - 1;
    assert PlanStep(ps, true, it)[..n] == ps[..n];
  }

  lemma NextStep(ps: seq<Planned>, st: State, it: WalkEvent)
    requires WellFormed(it.rec) && Reachable(ps) && Reaches(ps, st)
    ensures var r, ps' := ReplayItem(st, true, false, it), PlanStep(ps, false, it);
            (r.Ok? <==> Reachable(ps')) && (r.Ok? ==> Reaches(ps', r.value))
  {
    hide WellFormed, Representable, Tlv.RecordBytes, Added, Ended, Packable, PackedOf;
    FitIsRepresentable(it.rec);
    var ps' := PlanStep(ps, false, it);
    assert ps'[..|ps'| - 1] == ps;
    PackableSnoc(ps);
    EndedIff(st);
    if AllPackable(ps) {
      var st1 := Do(st, End);
      assert st1 == Active(PackAll(ps), None, None);
      if |ps| < MAX_SECTIONS {
        AddedAlways(Active(st1.done, Some(Open(it.sectionType, it.codec, [])), None), it.rec);
        assert [] + Tlv.RecordBytes(it.rec) == Tlv.RecordBytes(it.rec);
      }
    }
  }

  lemma {:induction false} ReplayedIff(items: seq<WalkEvent>)
    requires AllFit(items)
    ensures Replayed(items).Ok? <==> Reachable(Plan(items))
    ensures Replayed(items).Ok? && items != [] ==> Reaches(Plan(items), Replayed(items).value)
    ensures items == [] ==> Replayed(items) == Ok(INITIAL)
  {
    hide WellFormed, ReplayItem, PlanStep, Reaches;
    if items != [] {
      var init, it := items[..|items| - 1], items[|items| - 1];
      var same := init != [] && init[|init| - 1].sectionIndex == it.sectionIndex;
      ReplayedIff(init);
      if init == [] {
        FirstStep(it);
      } else if !Reachable(Plan(init)) {
        NotReachable(Plan(init), same, it);
      } else if same {
        SameStep(Plan(init), Replayed(init).value, it);
      } else {
        NextStep(Plan(init), Replayed(init).value, it);
      }
    }
  }

  lemma NotReachable(ps: seq<Planned>, same: bool, it: WalkEvent)
    requires WellFormed(it.rec) && ps != [] && !Reachable(ps)
    ensures !Reachable(PlanStep(ps, same, it))
  {
    hide WellFormed, Packable, Tlv.RecordBytes;
    var n := |ps| - 1;
    if same {
      assert PlanStep(ps, same, it)[..n] == ps[..n];
    } else {
      assert PlanStep(ps, same, it)[..n + 1] == ps;
      PackableSnoc(ps);
    }
  }

  /** At most 64 sections, each of them packable, and blobs of at most 4 GiB in all. */
  ghost predicate Writable(items: seq<WalkEvent>)
    requires AllFit(items)
  {
    && |Plan(items)| <= MAX_SECTIONS && AllPackable(Plan(items))
    && |Container.Blobs(PackAll(Plan(items)))| <= 0xFFFF_FFFF
  }

  /** The replay loop succeeds exactly on such items. */
  lemma OutputIff(items: seq<WalkEvent>, key: Option<Bytes>, mac: (Bytes, Bytes) -> Bytes)
    requires AllFit(items)
    ensures Output(items, key, mac).Ok? <==> Writable(items)
  {
    hide WellFormed, Replayed, Packable, PackedOf, Container.Blobs, Ended, Container.Body;
    ReplayedIff(items);
    if items == [] {
      NoBlobs();
    } else {
      var ps := Plan(items);
      PackableSnoc(ps);
      if Replayed(items).Ok? {
        EndedIff(Replayed(items).value);
      }
    }
  }

  lemma NoBlobs()
    ensures Plan([]) == [] && PackAll([]) == [] && Container.Blobs([]) == []
  {
  }

  // ---- the tools ----

  /** A rewriting tool succeeds exactly when its input can be walked and what it
      selects can be written. */
  lemma RewriteIff(events: seq<WalkEvent>, keep: seq<bool>, codec: Option<byte>, key: Option<Bytes>, mac: (Bytes, Bytes) -> Bytes)
    requires |events| == |keep| && Replayable(events)
    ensures Replayable(Selected(events, keep, codec))
    ensures Rewrite(events, keep, codec, key, mac).Ok? <==> Writable(Selected(events, keep, codec))
  {
    hide Writable, Output, Selected;
    SelectedReplayable(events, keep, codec);
    OutputIff(Selected(events, keep, codec), key, mac);
  }

  lemma RepackIff(data: Bytes, codec: byte, mac: (Bytes, Bytes) -> Bytes)
    ensures Repack(data, codec, mac).Ok? <==>
              && Codecs.Get(codec).Some? && Walk.Walk(data, 0).Ok?
              && var items := Recoded(Walk.Walk(data, 0).value.events, Some(codec)); AllFit(items) && Writable(items)
  {
    hide Walk.Walk, Rewrite, Writable, Light, Grouped, WellFormed;
    if Walk.Walk(data, 0).Ok? {
      var es := Walk.Walk(data, 0).value.events;
      WalkReplayable(data);
      RewriteIff(es, All(|es|), Some(codec), None, mac);
      KeepAll(Recoded(es, Some(codec)));
    }
  }

  lemma SelectIff(data: Bytes, p: Record -> bool, mac: (Bytes, Bytes) -> Bytes)
    ensures Select(data, p, mac).Ok? <==>
              && Walk.Walk(data, 0).Ok?
              && var es := Walk.Walk(data, 0).value.events;
              AllFit(Kept(es, Chosen(es, p))) && Writable(Kept(es, Chosen(es, p)))
  {
    hide Walk.Walk, Rewrite, Writable, Light, Grouped, WellFormed;
    if Walk.Walk(data, 0).Ok? {
      var es := Walk.Walk(data, 0).value.events;
      WalkReplayable(data);
      RewriteIff(es, Chosen(es, p), None, None, mac);
      UnchangedItems(es);
    }
  }

  lemma SignIff(data: Bytes, key: Bytes, mac: (Bytes, Bytes) -> Bytes)
    ensures Sign(data, key, mac).Ok? <==>
              && key != [] && Walk.Walk(data, 0).Ok?
              && AllFit(Walk.Walk(data, 0).value.events) && Writable(Walk.Walk(data, 0).value.events)
  {
    hide Walk.Walk, Rewrite, Writable, Light, Grouped, WellFormed;
    if Walk.Walk(data, 0).Ok? {
      var es := Walk.Walk(data, 0).value.events;
      WalkReplayable(data);
      RewriteIff(es, All(|es|), None, Some(key), mac);
      UnchangedItems(es);
      KeepAll(es);
    }
  }

  // ---- and with which error they fail ----

  /** Why a section is not packed. */
  function Refused(p: Planned): Err {
    if |p.raw| == 0 || |p.raw| > 67_108_864 then Range
    else if p.codec > 6 then BadRecord
    else match Codecs.Refuses(Codecs.Get(p.codec).value, p.raw)
      case Some(e) => e
      case None => Range
  }

  /** The first thing that goes wrong while the sections are written one after the other,
      the last one still open: one that was refused, or a sixty-fifth, which the tools
      report as OOM. */
  function WhileOpen(ps: seq<Planned>): Option<Err>
    decreases |ps|, 0
  {
    if ps == [] then None
    else if WhenClosed(ps[..|ps| - 1]).Some? then WhenClosed(ps[..|ps| - 1])
    else if |ps| > 64 then Some(Oom)
    else None
  }

  /** The same with the last one closed. */
  function WhenClosed(ps: seq<Planned>): Option<Err>
    decreases |ps|, 1
  {
    if WhileOpen(ps).Some? then WhileOpen(ps)
    else if ps != [] && !Packable(ps[|ps| - 1]) then Some(Refused(ps[|ps| - 1]))
    else None
  }

  lemma EndedError(st: State)
    requires st.Active? && st.open.Some? && Do(st, End).Failed?
    ensures var o := st.open.value; Do(st, End).err == Refused(Planned(o.ty, o.codec, o.tlv))
  {
    hide Codecs.Encode, Codecs.Refuses;
    var o := st.open.value;
    EndedIff(st);
    if o.codec <= 6 {
      var c := Codecs.Get(o.codec).value;
      Codecs.RoomSuffices(c, o.tlv, 0);
      Codecs.EncodeFits(c, o.tlv, Codecs.WorstCase(c, |o.tlv|));
    }
  }

  /** What the writer's state says about the plan so far. */
  ghost predicate Reports(r: Result<State>, ps: seq<Planned>) {
    match WhileOpen(ps)
    case Some(e) => r == Error(e)
    case None => r.Ok?
  }

  lemma NextReports(ps: seq<Planned>, st: State, it: WalkEvent)
    requires WellFormed(it.rec) && Reachable(ps) && Reaches(ps, st) && WhileOpen(ps).None?
    ensures Reports(ReplayItem(st, true, false, it), PlanStep(ps, false, it))
  {
    hide WellFormed, Representable, Tlv.RecordBytes, Added, Ended, Packable, PackedOf, Refused;
    NextStep(ps, st, it);
    PackableSnoc(ps);
    EndedIff(st);
    if Do(st, End).Failed? { EndedError(st); }
    var ps' := PlanStep(ps, false, it);
    assert ps'[..|ps'| - 1] == ps;
    var last := ps[|ps| - 1];
    assert st.open == Some(Open(last.ty, last.codec, last.raw));
    assert |st.done| == |ps| - 1;
    if Packable(last) {
      assert WhenClosed(ps) == None;
      assert AllPackable(ps);
      if |ps| >= 64 {
        assert Begun(Do(st, End), it.sectionType, it.codec).Failed?;
      }
    } else {
      assert WhenClosed(ps) == Some(Refused(last));
    }
  }

  lemma SameReports(ps: seq<Planned>, it: WalkEvent)
    requires WellFormed(it.rec) && ps != []
    ensures WhileOpen(PlanStep(ps, true, it)) == WhileOpen(ps)
  {
    hide WellFormed, WhenClosed, Tlv.RecordBytes;
    var n := |ps| - 1;
    assert PlanStep(ps, true, it)[..n] == ps[..n];
  }

  lemma StillReports(ps: seq<Planned>, same: bool, it: WalkEvent)
    requires WellFormed(it.rec) && ps != [] && WhileOpen(ps).Some?
    ensures WhileOpen(PlanStep(ps, same, it)) == WhileOpen(ps)
  {
    hide WellFormed, Tlv.RecordBytes;
    if same {
      SameReports(ps, it);
    } else {
      assert PlanStep(ps, false, it)[..|ps|] == ps;
    }
  }

  lemma FirstReports(it: WalkEvent)
    requires WellFormed(it.rec)
    ensures WhileOpen(PlanStep([], false, it)) == None
  {
    hide WellFormed, Tlv.RecordBytes;
    assert PlanStep([], false, it)[..0] == [];
  }

  lemma {:induction false} ReplayedReports(items: seq<WalkEvent>)
    requires AllFit(items)
    ensures Reports(Replayed(items), Plan(items))
  {
    hide WellFormed, ReplayItem, PlanStep, Reaches, Reachable, WhileOpen;
    if items == [] {
      NothingReported();
    } else {
      var init, it := items[..|items| - 1], items[|items| - 1];
      var same := init != [] && init[|init| - 1].sectionIndex == it.sectionIndex;
      ReplayedReports(init);
      ReplayedIff(init);
      ReplayedIff(items);
      if init == [] {
        FirstReports(it);
        FirstStep(it);
      } else if WhileOpen(Plan(init)).Some? {
        StillReports(Plan(init), same, it);
      } else if same {
        SameReports(Plan(init), it);
        SameStep(Plan(init), Replayed(init).value, it);
      } else {
        NextReports(Plan(init), Replayed(init).value, it);
      }
    }
  }

  lemma NothingReported()
    ensures WhileOpen([]) == None
  {
  }

  /** What the replay loop returns: bytes, or the first error in writing order, or RANGE
      for over 4 GiB of blobs. */
  lemma OutputErrors(items: seq<WalkEvent>, key: Option<Bytes>, mac: (Bytes, Bytes) -> Bytes)
    requires AllFit(items) && Output(items, key, mac).Error?
    ensures Output(items, key, mac).err == match WhenClosed(Plan(items)) { case Some(e) => e case None => Range }
  {
    hide WellFormed, Replayed, Packable, PackedOf, Container.Blobs, Ended, Container.Body, Refused, WhileOpen, Plan;
    ReplayedReports(items);
    ReplayedIff(items);
    if items == [] {
      NoBlobs();
      NothingReported();
    } else if Replayed(items).Ok? {
      EndedIff(Replayed(items).value);
      if Do(Replayed(items).value, End).Failed? { EndedError(Replayed(items).value); }
    }
  }

  lemma RewriteErrors(events: seq<WalkEvent>, keep: seq<bool>, codec: Option<byte>, key: Option<Bytes>, mac: (Bytes, Bytes) -> Bytes)
    requires |events| == |keep| && Replayable(events) && Rewrite(events, keep, codec, key, mac).Error?
    ensures Replayable(Selected(events, keep, codec))
    ensures Rewrite(events, keep, codec, key, mac).err
         == match WhenClosed(Plan(Selected(events, keep, codec))) { case Some(e) => e case None => Range }
  {
    hide Output, Selected, WhenClosed, Plan;
    SelectedReplayable(events, keep, codec);
    OutputErrors(Selected(events, keep, codec), key, mac);
  }

  /** The error of writing these items. */
  function ErrorOf(items: seq<WalkEvent>): Err
    requires AllFit(items)
  {
    match WhenClosed(Plan(items)) { case Some(e) => e case None => Range }
  }

  /** Repack fails with INVAL for an unknown codec, then with the parser's error, then with
      the writer's. */
  lemma RepackErrors(data: Bytes, codec: byte, mac: (Bytes, Bytes) -> Bytes)
    requires Repack(data, codec, mac).Error?
    ensures codec <= 6 && Container.Parse(data).Ok? ==>
              Walk.Walk(data, 0).Ok? && AllFit(Recoded(Walk.Walk(data, 0).value.events, Some(codec)))
    ensures Repack(data, codec, mac).err
         == if codec > 6 then Inval
            else match Container.Parse(data)
              case Error(e) => e
              case Ok(_) => ErrorOf(Recoded(Walk.Walk(data, 0).value.events, Some(codec)))
  {
    hide Rewrite, WhenClosed, Plan, Light, Grouped, WellFormed, Container.Parse, Walk.Sections, Recoded;
    if Walk.Walk(data, 0).Ok? && codec <= 6 {
      var es := Walk.Walk(data, 0).value.events;
      WalkReplayable(data);
      KeepAll(Recoded(es, Some(codec)));
      RewriteErrors(es, All(|es|), Some(codec), None, mac);
    }
  }

  /** Sign fails with INVAL for an empty key, then likewise. */
  lemma SignErrors(data: Bytes, key: Bytes, mac: (Bytes, Bytes) -> Bytes)
    requires Sign(data, key, mac).Error?
    ensures key != [] && Container.Parse(data).Ok? ==> Walk.Walk(data, 0).Ok? && AllFit(Walk.Walk(data, 0).value.events)
    ensures Sign(data, key, mac).err
         == if key == [] then Inval
            else match Container.Parse(data)
              case Error(e) => e
              case Ok(_) => ErrorOf(Walk.Walk(data, 0).value.events)
  {
    hide Rewrite, WhenClosed, Plan, Light, Grouped, WellFormed, Container.Parse, Walk.Sections;
    if Walk.Walk(data, 0).Ok? && key != [] {
      var es := Walk.Walk(data, 0).value.events;
      WalkReplayable(data);
      KeepAll(es);
      UnchangedItems(es);
      RewriteErrors(es, All(|es|), None, Some(key), mac);
    }
  }

  /** Select has no error of its own. */
  lemma SelectErrors(data: Bytes, p: Record -> bool, mac: (Bytes, Bytes) -> Bytes)
    requires Select(data, p, mac).Error?
    ensures Container.Parse(data).Ok? ==>
              Walk.Walk(data, 0).Ok? && var es := Walk.Walk(data, 0).value.events; AllFit(Kept(es, Chosen(es, p)))
    ensures Select(data, p, mac).err
         == match Container.Parse(data)
            case Error(e) => e
            case Ok(_) => var es := Walk.Walk(data, 0).value.events; ErrorOf(Kept(es, Chosen(es, p)))
  {
    hide Rewrite, WhenClosed, Plan, Light, Grouped, WellFormed, Container.Parse, Walk.Sections;
    if Walk.Walk(data, 0).Ok? {
      var es := Walk.Walk(data, 0).value.events;
      WalkReplayable(data);
      UnchangedItems(es);
      RewriteErrors(es, Chosen(es, p), None, None, mac);
    }
  }
}
