/** Absorb and replay: the loop shared by repack, select, dedup and sign
    (src/report/repack.c, select.c, dedup.c, sign.c). An absorbed item is the walk
    event it came from, with the codec its section is to be written in. */
module Replay {
  import opened Core
  import opened Records
  import opened Walk
  import opened WriterSpec
  import opened Pipeline
  import Codecs
  import Container
  import Tlv
  import Writer
  import Vectors

  // ---- the calls of the replay loop ----

  /** Calls for the records so far: a section opens whenever the source section changes. */
  function Calls(items: seq<WalkEvent>): seq<Call> {
    if items == [] then []
    else
      var init, it := items[..|items| - 1], items[|items| - 1];
      Calls(init) +
      if init != [] && init[|init| - 1].sectionIndex == it.sectionIndex then [AddRecord(it.rec)]
      else (if init != [] then [End] else []) + [Begin(it.sectionType, it.codec), AddRecord(it.rec)]
  }

  /** A run in which no allocation fails. */
  function Smooth(calls: seq<Call>): (t: Trace)
    ensures |t| == |calls| && forall i | 0 <= i < |t| :: t[i] == (calls[i], None)
  {
    seq(|calls|, i requires 0 <= i < |calls| => (calls[i], None))
  }

  predicate AllValid(calls: seq<Call>) { forall i | 0 <= i < |calls| :: ValidCall(calls[i]) }

  predicate AllFit(items: seq<WalkEvent>) { forall k | 0 <= k < |items| :: WellFormed(items[k].rec) }

  lemma {:induction false} CallsValid(items: seq<WalkEvent>)
    requires AllFit(items)
    ensures AllValid(Calls(items))
  {
    hide WellFormed;
    if items != [] {
      var init := items[..|items| - 1];
      CallsValid(init);
      FitIsRepresentable(items[|items| - 1].rec);
    }
  }

  lemma FitIsRepresentable(r: Record)
    requires WellFormed(r)
    ensures Representable(r)
  {
  }

  // ---- what the loop does ----

  function Need(st: State): Result<State> { if st.Failed? then Error(st.err) else Ok(st) }

  /** The writer after the records so far. A section that cannot be opened is
      reported as OOM, whatever the writer latched. */
  function Replayed(items: seq<WalkEvent>): (r: Result<State>)
    requires AllFit(items)
    ensures r.Ok? ==> r.value.Active?
  {
    if items == [] then Ok(INITIAL)
    else
      var init, it := items[..|items| - 1], items[|items| - 1];
      var st :- Replayed(init);
      ReplayItem(st, init != [], init != [] && init[|init| - 1].sectionIndex == it.sectionIndex, it)
  }

  /** One turn of the loop. */
  function ReplayItem(st: State, isOpen: bool, same: bool, it: WalkEvent): (r: Result<State>)
    requires st.Active? && WellFormed(it.rec)
    ensures r.Ok? ==> r.value.Active?
  {
    if same then Need(Do(st, AddRecord(it.rec)))
    else
      var st1 :- if isOpen then Need(Do(st, End)) else Ok(st);
      var st2 := Do(st1, Begin(it.sectionType, it.codec));
      if st2.Failed? then Error(Oom) else Need(Do(st2, AddRecord(it.rec)))
  }

  /** The bytes the tools write, or the code they return. */
  function Output(items: seq<WalkEvent>, key: Option<Bytes>, mac: (Bytes, Bytes) -> Bytes): Result<Bytes>
    requires AllFit(items)
  {
    var st :- Replayed(items);
    var st1 :- if items != [] then Need(Do(st, End)) else Ok(st);
    Finish(if key.Some? then Do(st1, SetKey(key.value)) else st1, mac)
  }

  lemma RunSnoc(calls: seq<Call>, c: Call)
    requires AllValid(calls) && ValidCall(c)
    ensures AllValid(calls + [c]) && Run(Smooth(calls + [c])) == Step(Run(Smooth(calls)), c, None)
  {
    hide Step;
    var t := Smooth(calls + [c]);
    assert t[..|t| - 1] == Smooth(calls) && t[|t| - 1] == (c, None);
  }

  /** While it succeeds, the loop is a run of the writer. */
  lemma {:induction false} ReplayedIsRun(items: seq<WalkEvent>)
    requires AllFit(items) && Replayed(items).Ok?
    ensures AllValid(Calls(items)) && Run(Smooth(Calls(items))) == Replayed(items).value
  {
    hide WellFormed, Representable, Ended, Added, Begun;
    CallsValid(items);
    if items != [] {
      var init, it := items[..|items| - 1], items[|items| - 1];
      ReplayedIsRun(init);
      FitIsRepresentable(it.rec);
      var c0, begin, add := Calls(init), Begin(it.sectionType, it.codec), AddRecord(it.rec);
      if init != [] && init[|init| - 1].sectionIndex == it.sectionIndex {
        RunSnoc(c0, add);
      } else {
        var c1 := c0 + if init != [] then [End] else [];
        if init != [] { RunSnoc(c0, End); } else { assert c1 == c0; }
        RunSnoc(c1, begin);
        RunSnoc(c1 + [begin], add);
        assert Calls(items) == c1 + [begin] + [add];
      }
    }
  }

  /** The calls that end the run. */
  function Closing(items: seq<WalkEvent>, key: Option<Bytes>): seq<Call> {
    (if items != [] then [End] else []) + (if key.Some? then [SetKey(key.value)] else [])
  }

  lemma OutputIsRun(items: seq<WalkEvent>, key: Option<Bytes>, mac: (Bytes, Bytes) -> Bytes)
    requires AllFit(items) && Output(items, key, mac).Ok?
    ensures var p := Calls(items) + Closing(items, key);
            AllValid(p) && ValidTrace(Smooth(p)) && Output(items, key, mac) == Finish(Run(Smooth(p)), mac)
  {
    hide WellFormed, Representable, Ended, Added, Begun, Finish, Calls, Replayed;
    ReplayedIsRun(items);
    var c0 := Calls(items);
    var c1 := c0 + if items != [] then [End] else [];
    if items != [] { RunSnoc(c0, End); } else { assert c1 == c0; }
    var p := c0 + Closing(items, key);
    if key.Some? {
      RunSnoc(c1, SetKey(key.value));
      assert p == c1 + [SetKey(key.value)];
    } else {
      assert p == c1;
    }
  }

  // ---- faithfulness ----

  /** Items in source order, each source section having one type and target codec. */
  ghost predicate Grouped(items: seq<WalkEvent>) {
    && (forall j, k | 0 <= j <= k < |items| :: items[j].sectionIndex <= items[k].sectionIndex)
    && (forall j, k | 0 <= j <= k < |items| && items[j].sectionIndex == items[k].sectionIndex ::
          items[j].sectionType == items[k].sectionType && items[j].codec == items[k].codec)
  }

  /** The output holds the items in order, one output section for each source
      section that has any, numbered without gaps and of the same type. */
  ghost predicate Faithful(items: seq<WalkEvent>, out: seq<WalkEvent>) {
    && |out| == |items|
    && (forall k | 0 <= k < |out| ::
          && out[k].rec == Canon(items[k].rec) && out[k].recordIndex == k
          && out[k].sectionType == items[k].sectionType && out[k].codec == items[k].codec)
    && (out != [] ==> out[0].sectionIndex == 0)
    && (forall k | 0 < k < |out| ::
          out[k].sectionIndex == out[k - 1].sectionIndex +
            if items[k].sectionIndex == items[k - 1].sectionIndex then 0 else 1)
  }

  lemma {:induction false} SameSections(items: seq<WalkEvent>, out: seq<WalkEvent>, j: nat, k: nat)
    requires Grouped(items) && Faithful(items, out) && j <= k < |out|
    ensures out[j].sectionIndex <= out[k].sectionIndex
    ensures out[j].sectionIndex == out[k].sectionIndex <==> items[j].sectionIndex == items[k].sectionIndex
    decreases k
  {
    if j < k { SameSections(items, out, j, k - 1); }
  }

  lemma SmoothSnoc(calls: seq<Call>, c: Call)
    requires AllValid(calls) && ValidCall(c)
    ensures AllValid(calls + [c]) && ValidTrace(Smooth(calls + [c])) && ValidTrace(Smooth(calls))
    ensures HistoryOf(Smooth(calls + [c])) == Extend(HistoryOf(Smooth(calls)), c)
    ensures var h := HistoryOf(Smooth(calls)); var e := Expected(Smooth(calls));
            Expected(Smooth(calls + [c]))
              == if (c.AddRecord? || c.AddRaw? || c.AddBatch?) && h.open.Some? && ItemOf(c).Ok? then
                   Join(e, SeenItem(ItemOf(c).value, h.open.value.ty, h.open.value.codec, |h.closed|,
                                    |h.open.value.items|, |e.events|))
                 else e
  {
    hide ItemOf, SeenItem, Extend;
    var t := Smooth(calls + [c]);
    assert t[..|t| - 1] == Smooth(calls) && t[|t| - 1] == (c, None);
  }

  /** Bytes that the records of source section `si` take when written. */
  ghost function Weight(items: seq<WalkEvent>, si: nat): nat
    requires AllFit(items)
  {
    if items == [] then 0
    else
      var init, it := items[..|items| - 1], items[|items| - 1];
      Weight(init, si) + if it.sectionIndex == si then |Tlv.RecordBytes(it.rec)| else 0
  }

  ghost predicate Light(items: seq<WalkEvent>, limit: nat)
    requires AllFit(items)
  {
    forall si: nat :: Weight(items, si) <= limit
  }

  /** State of the replay after the calls for `items`. */
  ghost predicate Mirrors(items: seq<WalkEvent>, h: History, e: Seen, limit: nat)
    requires AllFit(items)
  {
    && e.faults == [] && Faithful(items, e.events)
    && WithinLimit(h.closed, limit)
    && (items == [] ==> h == History([], None))
    && (items != [] ==>
          var last := items[|items| - 1];
          && h.open.Some? && h.open.value.ty == last.sectionType && h.open.value.codec == last.codec
          && e.events[|items| - 1].sectionIndex == |h.closed|
          && Small(h.open.value.items)
          && |ItemsBytes(h.open.value.items)| <= Weight(items, last.sectionIndex))
  }

  lemma AddStep(r: Record)
    requires WellFormed(r)
    ensures ItemOf(AddRecord(r)).Ok?
    ensures Tlv.Read(ItemOf(AddRecord(r)).value) == Ok(Canon(r))
    ensures |Tlv.ItemBytes(ItemOf(AddRecord(r)).value)| == |Tlv.RecordBytes(r)|
  {
    PayloadRoundTrip(r);
  }

  /** What the promises grow by when a well-formed record is added. */
  lemma AddSeen(r: Record, e: Seen, o: Logged, si: nat)
    requires WellFormed(r) && Representable(r)
    ensures ItemOf(AddRecord(r)).Ok?
    ensures Join(e, SeenItem(ItemOf(AddRecord(r)).value, o.ty, o.codec, si, |o.items|, |e.events|))
         == Seen(e.events + [WalkEvent(o.ty, o.codec, si, |o.items|, |e.events|, Canon(r))], e.faults)
  {
    hide WellFormed, Canon, Tlv.Read, ItemOf, Representable;
    AddStep(r);
    assert e.faults + [] == e.faults;
  }

  lemma FaithfulSnoc(init: seq<WalkEvent>, it: WalkEvent, out: seq<WalkEvent>, ev: WalkEvent)
    requires Faithful(init, out)
    requires ev.rec == Canon(it.rec) && ev.recordIndex == |init| && ev.sectionType == it.sectionType && ev.codec == it.codec
    requires ev.sectionIndex == if init == [] then 0
                                else out[|init| - 1].sectionIndex +
                                       if it.sectionIndex == init[|init| - 1].sectionIndex then 0 else 1
    ensures Faithful(init + [it], out + [ev])
  {
    hide Canon;
  }

  lemma WeightSnoc(init: seq<WalkEvent>, it: WalkEvent, si: nat)
    requires AllFit(init) && AllFit(init + [it]) && WellFormed(it.rec)
    ensures Weight(init + [it], si) == Weight(init, si) + if it.sectionIndex == si then |Tlv.RecordBytes(it.rec)| else 0
  {
    hide WellFormed;
    var all := init + [it];
    assert all[..|all| - 1] == init && all[|all| - 1] == it;
  }

  /** History before the record of one more item: maybe close, maybe open. */
  ghost function Ready(init: seq<WalkEvent>, it: WalkEvent, h: History): History {
    if init != [] && init[|init| - 1].sectionIndex == it.sectionIndex then h
    else Extend(if init != [] then Extend(h, End) else h, Begin(it.sectionType, it.codec))
  }

  /** The writer is about to add `it`. */
  ghost predicate Poised(init: seq<WalkEvent>, it: WalkEvent, h1: History, e: Seen, limit: nat)
    requires AllFit(init)
  {
    && e.faults == [] && Faithful(init, e.events)
    && WithinLimit(h1.closed, limit)
    && h1.open.Some? && h1.open.value.ty == it.sectionType && h1.open.value.codec == it.codec
    && |h1.closed| == (if init == [] then 0
                       else e.events[|init| - 1].sectionIndex +
                              if it.sectionIndex == init[|init| - 1].sectionIndex then 0 else 1)
    && Small(h1.open.value.items)
    && |ItemsBytes(h1.open.value.items)| <= Weight(init, it.sectionIndex)
  }

  lemma ReadyIsPoised(init: seq<WalkEvent>, it: WalkEvent, h: History, e: Seen, limit: nat)
    requires AllFit(init) && Grouped(init + [it]) && Light(init, limit) && Mirrors(init, h, e, limit)
    ensures Poised(init, it, Ready(init, it, h), e, limit)
  {
    hide WellFormed, Faithful, ItemsBytes, Canon;
    var all := init + [it];
    assert all[|init|] == it;
    if init != [] {
      var last := init[|init| - 1];
      assert all[|init| - 1] == last;
      assert Weight(init, last.sectionIndex) <= limit;
    }
    assert ItemsBytes([]) == [] by { NoBytes(); }
  }

  lemma NoBytes()
    ensures ItemsBytes([]) == []
  {
  }

  lemma PoisedIsOpen(init: seq<WalkEvent>, it: WalkEvent, h1: History, e: Seen, limit: nat)
    requires AllFit(init) && Poised(init, it, h1, e, limit)
    ensures h1.open.Some?
  {
  }

  lemma AddMirrors(init: seq<WalkEvent>, it: WalkEvent, h1: History, e: Seen, limit: nat)
    requires AllFit(init) && WellFormed(it.rec) && Representable(it.rec) && AllFit(init + [it])
    requires Poised(init, it, h1, e, limit)
    ensures ItemOf(AddRecord(it.rec)).Ok?
    ensures Mirrors(init + [it], Extend(h1, AddRecord(it.rec)),
              Join(e, SeenItem(ItemOf(AddRecord(it.rec)).value, h1.open.value.ty, h1.open.value.codec, |h1.closed|,
                               |h1.open.value.items|, |e.events|)), limit)
  {
    hide WellFormed, Canon, Faithful, ItemOf, SeenItem, Tlv.RecordBytes, Tlv.ItemBytes, Representable, ItemsBytes, Weight;
    var o := h1.open.value;
    assert |e.events| == |init| by { FaithfulSize(init, e.events); }
    AddSeen(it.rec, e, o, |h1.closed|);
    AddStep(it.rec);
    FaithfulSnoc(init, it, e.events, WalkEvent(o.ty, o.codec, |h1.closed|, |o.items|, |e.events|, Canon(it.rec)));
    ItemsSnoc(o.items, ItemOf(AddRecord(it.rec)).value);
    WeightSnoc(init, it, it.sectionIndex);
    assert (init + [it])[|init|] == it;
  }

  lemma FaithfulSize(items: seq<WalkEvent>, out: seq<WalkEvent>)
    requires Faithful(items, out)
    ensures |out| == |items|
  {
  }

  lemma {:induction false} CallsMirror(items: seq<WalkEvent>, limit: nat)
    requires AllFit(items) && Grouped(items) && Light(items, limit)
    ensures AllValid(Calls(items))
    ensures Mirrors(items, HistoryOf(Smooth(Calls(items))), Expected(Smooth(Calls(items))), limit)
  {
    hide WellFormed, Mirrors, Poised, Grouped, Light, Calls, HistoryOf, Expected, Extend, ItemOf, SeenItem, Representable, Ready;
    CallsValid(items);
    if items == [] {
      StartMirrors(limit);
    } else {
      var init, it := items[..|items| - 1], items[|items| - 1];
      LighterPrefix(items, limit);
      CallsMirror(init, limit);
      assert items == init + [it];
      var h, e := HistoryOf(Smooth(Calls(init))), Expected(Smooth(Calls(init)));
      FitIsRepresentable(it.rec);
      ReadyIsPoised(init, it, h, e, limit);
      AddMirrors(init, it, Ready(init, it, h), e, limit);
      PoisedIsOpen(init, it, Ready(init, it, h), e, limit);
      OneItemCalls(init, it);
    }
  }

  lemma StartMirrors(limit: nat)
    ensures Calls([]) == [] && Mirrors([], HistoryOf(Smooth([])), Expected(Smooth([])), limit)
  {
  }

  lemma LighterPrefix(items: seq<WalkEvent>, limit: nat)
    requires items != [] && AllFit(items) && Grouped(items) && Light(items, limit)
    ensures AllFit(items[..|items| - 1]) && Grouped(items[..|items| - 1]) && Light(items[..|items| - 1], limit)
  {
    hide WellFormed;
    var init := items[..|items| - 1];
    forall si: nat ensures Weight(init, si) <= limit { assert Weight(items, si) <= limit; }
  }

  /** How the history and the promises grow over the calls for one item. */
  lemma OneItemCalls(init: seq<WalkEvent>, it: WalkEvent)
    requires AllValid(Calls(init)) && Representable(it.rec) && ItemOf(AddRecord(it.rec)).Ok?
    ensures AllValid(Calls(init + [it]))
    ensures var items := init + [it]; var e := Expected(Smooth(Calls(init)));
            var h1 := Ready(init, it, HistoryOf(Smooth(Calls(init))));
            && HistoryOf(Smooth(Calls(items))) == Extend(h1, AddRecord(it.rec))
            && (h1.open.Some? ==>
                  Expected(Smooth(Calls(items)))
                    == Join(e, SeenItem(ItemOf(AddRecord(it.rec)).value, h1.open.value.ty, h1.open.value.codec,
                                        |h1.closed|, |h1.open.value.items|, |e.events|)))
  {
    hide ItemOf, SeenItem, Extend, Expected, HistoryOf, Representable;
    var items := init + [it];
    assert items[..|items| - 1] == init && items[|items| - 1] == it;
    var c0 := Calls(init);
    var add := AddRecord(it.rec);
    if init != [] && init[|init| - 1].sectionIndex == it.sectionIndex {
      SmoothSnoc(c0, add);
    } else {
      var c1 := c0 + if init != [] then [End] else [];
      if init != [] { SmoothSnoc(c0, End); } else { assert c1 == c0; }
      var begin := Begin(it.sectionType, it.codec);
      SmoothSnoc(c1, begin);
      SmoothSnoc(c1 + [begin], add);
      assert Calls(items) == c1 + [begin] + [add];
    }
  }

  // ---- the main theorem ----

  /** History and promises after the closing calls. */
  lemma ClosingMirrors(items: seq<WalkEvent>, key: Option<Bytes>, limit: nat)
    requires AllFit(items) && Light(items, limit) && AllValid(Calls(items))
    requires Mirrors(items, HistoryOf(Smooth(Calls(items))), Expected(Smooth(Calls(items))), limit)
    ensures var p := Calls(items) + Closing(items, key);
            && AllValid(p) && ValidTrace(Smooth(p)) && Expected(Smooth(p)) == Expected(Smooth(Calls(items)))
            && WithinLimit(HistoryOf(Smooth(p)).closed, limit)
            && |HistoryOf(Smooth(p)).closed| == SectionsOf(Expected(Smooth(p)).events)
  {
    hide WellFormed, Expected, HistoryOf, Calls, Faithful, ItemsBytes, SeenItem;
    var c0 := Calls(items);
    var h, e := HistoryOf(Smooth(c0)), Expected(Smooth(c0));
    FaithfulSize(items, e.events);
    var c1 := c0 + if items != [] then [End] else [];
    if items != [] {
      SmoothSnoc(c0, End);
      assert Weight(items, items[|items| - 1].sectionIndex) <= limit;
    } else {
      assert c1 == c0;
    }
    var p := c0 + Closing(items, key);
    if key.Some? {
      SmoothSnoc(c1, SetKey(key.value));
      assert p == c1 + [SetKey(key.value)];
    } else {
      assert p == c1;
    }
  }

  /** Sections that the events of a walk without gaps come from. */
  function SectionsOf(out: seq<WalkEvent>): nat { if out == [] then 0 else out[|out| - 1].sectionIndex + 1 }

  /** A walk of `bytes` returns exactly `items`, in sections that correspond one to
      one to the source sections, and `bytes` has no other section. */
  ghost predicate Carries(bytes: Bytes, items: seq<WalkEvent>) {
    var w := Walk.Walk(bytes, 0);
    && w.Ok? && w.value.faults == [] && Faithful(items, w.value.events)
    && Container.Parse(bytes).Ok? && |Container.Parse(bytes).value.sections| == SectionsOf(w.value.events)
  }

  lemma CarriesMeans(bytes: Bytes, items: seq<WalkEvent>)
    requires Carries(bytes, items)
    ensures Walk.Walk(bytes, 0).Ok? && Walk.Walk(bytes, 0).value.faults == []
    ensures Faithful(items, Walk.Walk(bytes, 0).value.events)
  {
    hide Walk.Walk, Faithful, Container.Parse;
  }

  /** Whatever the items, if the replay succeeds its output carries them. */
  lemma ReplayFaithful(items: seq<WalkEvent>, key: Option<Bytes>, mac: (Bytes, Bytes) -> Bytes)
    requires AllFit(items) && Grouped(items) && Light(items, DEFAULT_MAX_DECODE) && IsMac(mac)
    requires Output(items, key, mac).Ok?
    ensures Carries(Output(items, key, mac).value, items)
  {
    hide WellFormed, Grouped, Light, Expected, HistoryOf, Run, Finish, Output, Calls, Closing, Walk.Walk, Container.Parse, Faithful;
    var p := Calls(items) + Closing(items, key);
    OutputIsRun(items, key, mac);
    CallsMirror(items, DEFAULT_MAX_DECODE);
    ClosingMirrors(items, key, DEFAULT_MAX_DECODE);
    WriterThenWalk(Smooth(p), mac, 0);
    SectionCount(Smooth(p), mac);
  }

  lemma SectionCount(t: Trace, mac: (Bytes, Bytes) -> Bytes)
    requires ValidTrace(t) && IsMac(mac) && Finish(Run(t), mac).Ok?
    ensures var c := Container.Parse(Finish(Run(t), mac).value);
            c.Ok? && |c.value.sections| == |HistoryOf(t).closed|
  {
    hide Packs, Run, HistoryOf, Container.Parse, Container.Body;
    RunAgrees(t);
    FinishParses(Run(t).done, HistoryOf(t).closed, Run(t).key, mac);
  }

  // ---- the decode limit, in both directions ----

  /** The history holds exactly the weights of the items. */
  ghost predicate Weighs(items: seq<WalkEvent>, h: History, limit: nat)
    requires AllFit(items)
  {
    && (items == [] ==> h == History([], None))
    && (items != [] ==>
          var last := items[|items| - 1].sectionIndex;
          && h.open.Some? && Small(h.open.value.items)
          && |ItemsBytes(h.open.value.items)| == Weight(items, last)
          && (WithinLimit(h.closed, limit) <==> OthersLight(items, last, limit)))
  }

  /** Every source section but `except` is within the limit. */
  ghost predicate OthersLight(items: seq<WalkEvent>, except: nat, limit: nat)
    requires AllFit(items)
  {
    forall si: nat | si != except :: Weight(items, si) <= limit
  }

  lemma OthersShift(items: seq<WalkEvent>, a: nat, b: nat, limit: nat)
    requires AllFit(items) && a != b && Weight(items, b) == 0
    ensures OthersLight(items, b, limit) <==> OthersLight(items, a, limit) && Weight(items, a) <= limit
  {
    hide WellFormed, Weight;
    if OthersLight(items, a, limit) && Weight(items, a) <= limit {
      forall si: nat | si != b ensures Weight(items, si) <= limit {}
    }
    if OthersLight(items, b, limit) {
      forall si: nat | si != a ensures Weight(items, si) <= limit {}
    }
  }

  lemma OthersKeep(init: seq<WalkEvent>, it: WalkEvent, limit: nat)
    requires AllFit(init) && AllFit(init + [it]) && WellFormed(it.rec)
    ensures OthersLight(init + [it], it.sectionIndex, limit) <==> OthersLight(init, it.sectionIndex, limit)
  {
    hide WellFormed, Weight;
    forall si: nat | si != it.sectionIndex ensures Weight(init + [it], si) == Weight(init, si) { WeightSnoc(init, it, si); }
  }

  lemma {:induction false} NoWeight(items: seq<WalkEvent>, si: nat)
    requires AllFit(items) && forall k | 0 <= k < |items| :: items[k].sectionIndex != si
    ensures Weight(items, si) == 0
  {
    hide WellFormed, Tlv.RecordBytes;
    if items != [] { NoWeight(items[..|items| - 1], si); }
  }

  lemma CloseWithin(closed: seq<Logged>, l: Logged, limit: nat)
    requires Small(l.items)
    ensures WithinLimit(closed + [l], limit) <==> WithinLimit(closed, limit) && |ItemsBytes(l.items)| <= limit
  {
    hide ItemsBytes;
    var all := closed + [l];
    assert all[|closed|] == l;
    if WithinLimit(all, limit) {
      forall i | 0 <= i < |closed| && Small(closed[i].items) ensures |ItemsBytes(closed[i].items)| <= limit {
        assert all[i] == closed[i];
      }
    }
  }

  /** After `Ready` the open section holds what the items before weigh in the section
      of the next one, and the closed sections the other weights. */
  lemma ReadyWeighs(init: seq<WalkEvent>, it: WalkEvent, h: History, limit: nat)
    requires AllFit(init) && Grouped(init + [it]) && Weighs(init, h, limit)
    ensures var h1 := Ready(init, it, h);
            && h1.open.Some? && Small(h1.open.value.items)
            && |ItemsBytes(h1.open.value.items)| == Weight(init, it.sectionIndex)
            && (WithinLimit(h1.closed, limit) <==> OthersLight(init, it.sectionIndex, limit))
  {
    hide WellFormed, ItemsBytes, Weight, WithinLimit, OthersLight;
    assert ItemsBytes([]) == [] by { NoBytes(); }
    var all := init + [it];
    assert all[|init|] == it;
    if init == [] {
      EmptyLight(it.sectionIndex, limit);
      NoWeight(init, it.sectionIndex);
      assert WithinLimit([], limit) by { NothingOver(limit); }
    } else {
      var last := init[|init| - 1];
      assert all[|init| - 1] == last;
      if last.sectionIndex != it.sectionIndex {
        CloseWithin(h.closed, h.open.value, limit);
        forall k | 0 <= k < |init| ensures init[k].sectionIndex != it.sectionIndex {
          assert all[k] == init[k] && all[k].sectionIndex <= all[|init| - 1].sectionIndex <= it.sectionIndex;
        }
        NoWeight(init, it.sectionIndex);
        OthersShift(init, last.sectionIndex, it.sectionIndex, limit);
      }
    }
  }

  lemma EmptyLight(except: nat, limit: nat)
    ensures OthersLight([], except, limit)
  {
  }

  lemma AddWeighs(init: seq<WalkEvent>, it: WalkEvent, h: History, limit: nat)
    requires AllFit(init) && WellFormed(it.rec) && Representable(it.rec) && AllFit(init + [it])
    requires Grouped(init + [it]) && Weighs(init, h, limit)
    ensures Ready(init, it, h).open.Some? && ItemOf(AddRecord(it.rec)).Ok?
    ensures Weighs(init + [it], Extend(Ready(init, it, h), AddRecord(it.rec)), limit)
  {
    hide WellFormed, ItemsBytes, Weight, WithinLimit, ItemOf, Tlv.RecordBytes, Tlv.ItemBytes, Representable, Ready, Canon,
         Tlv.Read, OthersLight;
    ReadyWeighs(init, it, h, limit);
    AddStep(it.rec);
    ItemsSnoc(Ready(init, it, h).open.value.items, ItemOf(AddRecord(it.rec)).value);
    assert (init + [it])[|init|] == it;
    WeightSnoc(init, it, it.sectionIndex);
    OthersKeep(init, it, limit);
  }

  lemma {:induction false} CallsWeigh(items: seq<WalkEvent>, limit: nat)
    requires AllFit(items) && Grouped(items)
    ensures AllValid(Calls(items)) && Weighs(items, HistoryOf(Smooth(Calls(items))), limit)
  {
    hide WellFormed, Calls, HistoryOf, Expected, Extend, ItemOf, SeenItem, Representable, Ready, Weighs;
    CallsValid(items);
    if items == [] {
      StartWeighs(limit);
    } else {
      var init, it := items[..|items| - 1], items[|items| - 1];
      CallsWeigh(init, limit);
      assert items == init + [it];
      FitIsRepresentable(it.rec);
      AddWeighs(init, it, HistoryOf(Smooth(Calls(init))), limit);
      OneItemCalls(init, it);
    }
  }

  lemma StartWeighs(limit: nat)
    ensures Calls([]) == [] && Weighs([], HistoryOf(Smooth([])), limit)
  {
  }

  /** After the closing calls, the sections fit the limit exactly when the items do. */
  lemma ClosingWeighs(items: seq<WalkEvent>, key: Option<Bytes>, limit: nat)
    requires AllFit(items) && Grouped(items)
    ensures var p := Calls(items) + Closing(items, key);
            AllValid(p) && ValidTrace(Smooth(p)) && (WithinLimit(HistoryOf(Smooth(p)).closed, limit) <==> Light(items, limit))
  {
    hide WellFormed, Expected, HistoryOf, Calls, ItemsBytes, SeenItem, WithinLimit, Weight;
    CallsWeigh(items, limit);
    var c0 := Calls(items);
    var h := HistoryOf(Smooth(c0));
    var c1 := c0 + if items != [] then [End] else [];
    if items != [] {
      SmoothSnoc(c0, End);
      CloseWithin(h.closed, h.open.value, limit);
      var last := items[|items| - 1].sectionIndex;
      assert Light(items, limit) <==> OthersLight(items, last, limit) && Weight(items, last) <= limit;
    } else {
      assert c1 == c0;
      forall si: nat ensures Weight(items, si) == 0 { NoWeight(items, si); }
      assert WithinLimit([], limit) by { NothingOver(limit); }
    }
    var p := c0 + Closing(items, key);
    if key.Some? {
      SmoothSnoc(c1, SetKey(key.value));
      assert p == c1 + [SetKey(key.value)];
    } else {
      assert p == c1;
    }
  }

  /** Walking a successful output abandons a section exactly when some source section
      outweighs the decode limit. */
  lemma OutputAbandonsIff(items: seq<WalkEvent>, key: Option<Bytes>, mac: (Bytes, Bytes) -> Bytes)
    requires AllFit(items) && Grouped(items) && IsMac(mac) && Output(items, key, mac).Ok?
    ensures var w := Walk.Walk(Output(items, key, mac).value, 0);
            w.Ok? && (Abandons(w.value) <==> !Light(items, DEFAULT_MAX_DECODE))
  {
    hide WellFormed, Grouped, Light, Expected, HistoryOf, Run, Finish, Output, Calls, Closing, Walk.Walk, WithinLimit, Abandons;
    var p := Calls(items) + Closing(items, key);
    OutputIsRun(items, key, mac);
    ClosingWeighs(items, key, DEFAULT_MAX_DECODE);
    WriterThenWalkIff(Smooth(p), mac, 0);
  }

  /** The replay theorem in both directions: a successful output carries the items
      exactly when no source section outweighs the decode limit. */
  lemma ReplayFaithfulIff(items: seq<WalkEvent>, key: Option<Bytes>, mac: (Bytes, Bytes) -> Bytes)
    requires AllFit(items) && Grouped(items) && IsMac(mac) && Output(items, key, mac).Ok?
    ensures Carries(Output(items, key, mac).value, items) <==> Light(items, DEFAULT_MAX_DECODE)
  {
    hide WellFormed, Grouped, Light, Output, Walk.Walk, Container.Parse, Faithful, Abandons;
    if Light(items, DEFAULT_MAX_DECODE) {
      ReplayFaithful(items, key, mac);
    } else {
      OutputAbandonsIff(items, key, mac);
      AbandonsFaults(Walk.Walk(Output(items, key, mac).value, 0).value);
    }
  }

  // ---- one overweight section ----

  ghost predicate OneSource(items: seq<WalkEvent>, si: nat) {
    items != [] && forall k | 0 <= k < |items| :: items[k].sectionIndex == si
  }

  lemma OneIndex(items: seq<WalkEvent>, out: seq<WalkEvent>, si: nat)
    requires OneSource(items, si) && Grouped(items) && Faithful(items, out)
    ensures SectionsOf(out) == 1
  {
    SameSections(items, out, 0, |out| - 1);
  }

  lemma OneSection(items: seq<WalkEvent>, key: Option<Bytes>, mac: (Bytes, Bytes) -> Bytes, si: nat)
    requires AllFit(items) && Grouped(items) && IsMac(mac) && Output(items, key, mac).Ok? && OneSource(items, si)
    ensures var c := Container.Parse(Output(items, key, mac).value); c.Ok? && |c.value.sections| == 1
  {
    hide WellFormed, Grouped, Expected, HistoryOf, Run, Finish, Output, Calls, Closing, Container.Parse, Faithful, WithinLimit,
         Weight;
    var big := Weight(items, si);
    forall sj: nat ensures Weight(items, sj) <= big { if sj != si { NoWeight(items, sj); } }
    var p := Calls(items) + Closing(items, key);
    OutputIsRun(items, key, mac);
    CallsMirror(items, big);
    ClosingMirrors(items, key, big);
    OneIndex(items, Expected(Smooth(Calls(items))).events, si);
    SectionCount(Smooth(p), mac);
  }

  lemma LoneSection(s: Container.Section, limit: nat)
    requires Abandons(Sections([s], 0, 0, limit))
    ensures Sections([s], 0, 0, limit).events == []
  {
    hide Visit, Raw, Abandons, Tlv.Items;
    var first := SectionSeen(s, 0, 0, limit);
    assert [s][1..] == [];
    JoinNothing(first);
    if Raw(s, limit).Ok? { VisitCompletes(Tlv.Items(Raw(s, limit).value), s.ty, s.codec, 0, 0, 0); }
  }

  /** Items of one source section that outweighs the limit are all lost. */
  lemma OverweightLost(items: seq<WalkEvent>, key: Option<Bytes>, mac: (Bytes, Bytes) -> Bytes, si: nat)
    requires AllFit(items) && Grouped(items) && IsMac(mac) && Output(items, key, mac).Ok? && OneSource(items, si)
    requires !Light(items, DEFAULT_MAX_DECODE)
    ensures var w := Walk.Walk(Output(items, key, mac).value, 0); w.Ok? && w.value.events == []
  {
    hide WellFormed, Grouped, Light, Output, Container.Parse, Sections, Abandons, OneSource;
    OutputAbandonsIff(items, key, mac);
    OneSection(items, key, mac, si);
    var ss := Container.Parse(Output(items, key, mac).value).value.sections;
    assert ss == [ss[0]];
    LoneSection(ss[0], DEFAULT_MAX_DECODE);
  }

  lemma AbandonsFaults(a: Seen)
    requires Abandons(a)
    ensures a.faults != []
  {
  }
}
