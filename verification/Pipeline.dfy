/** Encoder and decoder as one system: walking what a writer run produced gives
    back what the run's calls put in. */
module Pipeline {
  import opened Core
  import opened Records
  import opened Walk
  import opened WriterSpec
  import Codecs
  import Container
  import Tlv

  // ---- what the calls of a run promise a later walk ----

  function SeenItem(i: Tlv.Item, ty: u16, codec: byte, si: nat, inSec: nat, index: nat): Seen {
    match Tlv.Read(i)
    case Ok(rec) => Seen([WalkEvent(ty, codec, si, inSec, index, rec)], [])
    case Error(e) => Seen([], [Fault(si, inSec, e, false)])
  }

  /** Read off the calls: each item added to an open section is one callback, with
      the coordinates it has at the moment it is added. */
  function Expected(t: Trace): Seen
    requires ValidTrace(t)
  {
    if t == [] then NOTHING
    else
      var init, c := t[..|t| - 1], t[|t| - 1].0;
      var e, h := Expected(init), HistoryOf(init);
      if (c.AddRecord? || c.AddRaw? || c.AddBatch?) && h.open.Some? && ItemOf(c).Ok? then
        Join(e, SeenItem(ItemOf(c).value, h.open.value.ty, h.open.value.codec, |h.closed|,
                         |h.open.value.items|, |e.events|))
      else e
  }

  // ---- the same, section by section ----

  function Reads(items: seq<Tlv.Item>): (r: seq<Result<Record>>)
    ensures |r| == |items|
  {
    seq(|items|, i requires 0 <= i < |items| => Tlv.Read(items[i]))
  }

  function LogSeen(l: Logged, si: nat, index: nat): Seen { Visit(Reads(l.items), l.ty, l.codec, si, 0, index) }

  function LogsSeen(ls: seq<Logged>, si: nat, index: nat): Seen {
    if ls == [] then NOTHING
    else
      var first := LogSeen(ls[0], si, index);
      Join(first, LogsSeen(ls[1..], si + 1, index + |first.events|))
  }

  lemma JoinNothing(a: Seen)
    ensures Join(a, NOTHING) == a == Join(NOTHING, a)
  {
    assert a.events + [] == a.events == [] + a.events && a.faults + [] == a.faults == [] + a.faults;
  }

  lemma {:induction false} VisitSnoc(items: seq<Tlv.Item>, i: Tlv.Item, ty: u16, codec: byte, si: nat, inSec: nat, index: nat)
    ensures var a := Visit(Reads(items), ty, codec, si, inSec, index);
            Visit(Reads(items + [i]), ty, codec, si, inSec, index)
              == Join(a, SeenItem(i, ty, codec, si, inSec + |items|, index + |a.events|))
    decreases |items|
  {
    hide Tlv.Read;
    var all := Reads(items + [i]);
    if items == [] {
      assert all == [Tlv.Read(i)] && all[1..] == [];
      var one := SeenItem(i, ty, codec, si, inSec, index);
      assert Visit(all[1..], ty, codec, si, inSec + 1, index + |one.events|) == NOTHING;
      JoinNothing(one);
    } else {
      var rest := items[1..];
      assert all[1..] == Reads(rest + [i]) && all[0] == Tlv.Read(items[0]) && Reads(items)[1..] == Reads(rest);
      var first := SeenItem(items[0], ty, codec, si, inSec, index);
      var index' := index + |first.events|;
      VisitSnoc(rest, i, ty, codec, si, inSec + 1, index');
      var a := Visit(Reads(rest), ty, codec, si, inSec + 1, index');
      JoinAssoc(first, a, SeenItem(i, ty, codec, si, inSec + |items|, index' + |a.events|));
    }
  }

  lemma {:induction false} LogsSnoc(ls: seq<Logged>, l: Logged, si: nat, index: nat)
    ensures var a := LogsSeen(ls, si, index);
            LogsSeen(ls + [l], si, index) == Join(a, LogSeen(l, si + |ls|, index + |a.events|))
    decreases |ls|
  {
    hide LogSeen;
    if ls == [] {
      assert ls + [l] == [l] && [l][1..] == [];
      JoinNothing(LogSeen(l, si, index));
    } else {
      assert (ls + [l])[1..] == ls[1..] + [l];
      var first := LogSeen(ls[0], si, index);
      var index' := index + |first.events|;
      LogsSnoc(ls[1..], l, si + 1, index');
      var a := LogsSeen(ls[1..], si + 1, index');
      JoinAssoc(first, a, LogSeen(l, si + |ls|, index' + |a.events|));
    }
  }

  function HistorySeen(h: History): Seen {
    var closed := LogsSeen(h.closed, 0, 0);
    if h.open.Some? then Join(closed, LogSeen(h.open.value, |h.closed|, |closed.events|)) else closed
  }

  lemma ExtendSeen(h: History, c: Call, e: Seen)
    requires ValidCall(c) && e == HistorySeen(h) && (c.Begin? ==> h.open.None?)
    ensures HistorySeen(Extend(h, c))
         == if (c.AddRecord? || c.AddRaw? || c.AddBatch?) && h.open.Some? && ItemOf(c).Ok? then
              Join(e, SeenItem(ItemOf(c).value, h.open.value.ty, h.open.value.codec, |h.closed|,
                               |h.open.value.items|, |e.events|))
            else e
  {
    hide ItemOf, SeenItem, Visit, LogsSeen;
    var closed := LogsSeen(h.closed, 0, 0);
    match c
    case Begin(ty, codec) =>
      EmptyLog(ty, codec, |h.closed|, |closed.events|);
      JoinNothing(closed);
    case SetKey(_) =>
    case End => if h.open.Some? { LogsSnoc(h.closed, h.open.value, 0, 0); }
    case _ =>
      if h.open.Some? && ItemOf(c).Ok? {
        var l, i := h.open.value, ItemOf(c).value;
        VisitSnoc(l.items, i, l.ty, l.codec, |h.closed|, 0, |closed.events|);
        var a := LogSeen(l, |h.closed|, |closed.events|);
        JoinAssoc(closed, a, SeenItem(i, l.ty, l.codec, |h.closed|, |l.items|, |closed.events| + |a.events|));
      }
  }

  lemma EmptyLog(ty: u16, codec: byte, si: nat, index: nat)
    ensures LogSeen(Logged(ty, codec, []), si, index) == NOTHING
  {
  }

  /** Along a run that has not failed, call order and section order agree. */
  lemma {:induction false} ExpectedIsHistory(t: Trace)
    requires ValidTrace(t) && Run(t).Active?
    ensures Expected(t) == HistorySeen(HistoryOf(t))
  {
    hide HistorySeen, Extend, ItemOf, SeenItem, Agrees;
    if t == [] {
      StartSeen();
    } else {
      var init, c := t[..|t| - 1], t[|t| - 1].0;
      ExpectedIsHistory(init);
      RunAgrees(init);
      if c.Begin? { BeginWasClosed(Run(init), HistoryOf(init), c); }
      ExtendSeen(HistoryOf(init), c, Expected(init));
    }
  }

  lemma StartSeen()
    ensures HistorySeen(History([], None)) == NOTHING
  {
  }

  lemma BeginWasClosed(st: State, h: History, c: Call)
    requires c.Begin? && st.Active? && Agrees(st, h) && Do(st, c).Active?
    ensures h.open.None?
  {
  }

  // ---- decoding ----

  lemma {:induction false} ItemsBack(items: seq<Tlv.Item>)
    requires Small(items)
    ensures Tlv.Items(ItemsBytes(items)) == Reads(items)
    decreases |items|
  {
    hide Tlv.Read, Tlv.ItemBytes, Tlv.TakeItem;
    if items == [] {
      NoItems();
    } else {
      Tlv.ItemBack(items[0], ItemsBytes(items[1..]));
      ItemsBack(items[1..]);
      assert Reads(items) == [Tlv.Read(items[0])] + Reads(items[1..]);
    }
  }

  lemma NoItems()
    ensures Tlv.Items([]) == []
  {
  }

  /** Every section of the run fits the walker's decode limit. */
  ghost predicate WithinLimit(closed: seq<Logged>, limit: nat) {
    forall i | 0 <= i < |closed| :: Small(closed[i].items) ==> |ItemsBytes(closed[i].items)| <= limit
  }

  lemma SectionBack(p: Container.Packed, l: Logged, si: nat, index: nat, limit: nat)
    requires Packs(p, l) && p.rawLen <= limit
    ensures SectionSeen(Container.Section(p.ty, p.codec, p.rawLen, p.blob), si, index, limit) == LogSeen(l, si, index)
  {
    hide Codecs.Decode, Visit;
    ItemsBack(l.items);
  }

  ghost predicate AllPack(ps: seq<Container.Packed>, ls: seq<Logged>) {
    |ps| == |ls| && forall i | 0 <= i < |ps| :: Packs(ps[i], ls[i])
  }

  lemma FirstBack(ps: seq<Container.Packed>, ls: seq<Logged>, si: nat, index: nat, limit: nat)
    requires AllPack(ps, ls) && WithinLimit(ls, limit) && ps != []
    ensures SectionSeen(Container.Sections(ps)[0], si, index, limit) == LogSeen(ls[0], si, index)
  {
    hide SectionSeen, LogSeen, ItemsBytes;
    assert Packs(ps[0], ls[0]);
    SectionBack(ps[0], ls[0], si, index, limit);
  }

  lemma OthersPack(ps: seq<Container.Packed>, ls: seq<Logged>, limit: nat)
    requires AllPack(ps, ls) && WithinLimit(ls, limit) && ps != []
    ensures AllPack(ps[1..], ls[1..]) && WithinLimit(ls[1..], limit)
  {
    hide Packs, ItemsBytes;
    forall i | 0 <= i < |ps[1..]| ensures Packs(ps[1..][i], ls[1..][i]) { assert Packs(ps[i + 1], ls[i + 1]); }
    forall i | 0 <= i < |ls[1..]| && Small(ls[1..][i].items)
      ensures |ItemsBytes(ls[1..][i].items)| <= limit
    {
      assert ls[1..][i] == ls[i + 1];
    }
  }

  lemma {:induction false} SectionsBack(ps: seq<Container.Packed>, ls: seq<Logged>, si: nat, index: nat, limit: nat)
    requires AllPack(ps, ls) && WithinLimit(ls, limit)
    ensures Sections(Container.Sections(ps), si, index, limit) == LogsSeen(ls, si, index)
    decreases |ps|
  {
    hide SectionSeen, LogSeen, Packs, WithinLimit;
    if ps != [] {
      FirstBack(ps, ls, si, index, limit);
      OthersPack(ps, ls, limit);
      SectionsBack(ps[1..], ls[1..], si + 1, index + |LogSeen(ls[0], si, index).events|, limit);
      assert Container.Sections(ps)[1..] == Container.Sections(ps[1..]);
    }
  }

  ghost predicate IsMac(mac: (Bytes, Bytes) -> Bytes) { forall k, b :: |mac(k, b)| == Container.MAC_LEN }

  function Limit(maxDecode: nat): nat { if maxDecode == 0 then DEFAULT_MAX_DECODE else maxDecode }

  lemma FinishParses(done: seq<Container.Packed>, ls: seq<Logged>, key: Option<Bytes>, mac: (Bytes, Bytes) -> Bytes)
    requires AllPack(done, ls) && IsMac(mac) && Finish(Active(done, None, key), mac).Ok?
    ensures var p := Container.Parse(Finish(Active(done, None, key), mac).value);
            p.Ok? && p.value.sections == Container.Sections(done)
  {
    hide Container.Parse, Container.Body, Packs;
    RawLens(done, ls);
    var body := Container.Body(done, if key.Some? then 1 else 0);
    match key
    case None => Container.LayoutBack(done, None);
    case Some(k) => Container.LayoutBack(done, Some(mac(k, body)));
  }

  lemma RawLens(done: seq<Container.Packed>, ls: seq<Logged>)
    requires AllPack(done, ls)
    ensures Container.RawLensValid(done)
  {
    forall i | 0 <= i < |done| ensures 0 < done[i].rawLen <= SECTION_MAX_RAW {
      assert Packs(done[i], ls[i]);
    }
  }

  /** The top theorem. For every run of the writer, whatever its calls, sections,
      codecs and trailer: if finishing succeeds, walking the bytes makes exactly the
      callbacks that the calls promised, in order and with the same coordinates. */
  lemma WriterThenWalk(t: Trace, mac: (Bytes, Bytes) -> Bytes, maxDecode: nat)
    requires ValidTrace(t) && IsMac(mac) && Finish(Run(t), mac).Ok?
    requires WithinLimit(HistoryOf(t).closed, Limit(maxDecode))
    ensures Walk.Walk(Finish(Run(t), mac).value, maxDecode) == Ok(Expected(t))
  {
    hide Expected, Packs, Run, HistoryOf, LogsSeen, Sections, Container.Parse, Container.Body;
    var st, h := Run(t), HistoryOf(t);
    RunAgrees(t);
    ExpectedIsHistory(t);
    FinishParses(st.done, h.closed, st.key, mac);
    SectionsBack(st.done, h.closed, 0, 0, Limit(maxDecode));
  }

  // ---- sections over the decode limit ----

  /** Some section was abandoned. */
  ghost predicate Abandons(a: Seen) { exists k :: 0 <= k < |a.faults| && a.faults[k].fatal }

  lemma JoinAbandons(a: Seen, b: Seen)
    ensures Abandons(Join(a, b)) <==> Abandons(a) || Abandons(b)
  {
    var c := Join(a, b);
    if Abandons(a) {
      var k :| 0 <= k < |a.faults| && a.faults[k].fatal;
      assert c.faults[k].fatal;
    }
    if Abandons(b) {
      var k :| 0 <= k < |b.faults| && b.faults[k].fatal;
      assert c.faults[|a.faults| + k].fatal;
    }
  }

  lemma {:induction false} VisitCompletes(items: seq<Result<Record>>, ty: u16, codec: byte, si: nat, inSec: nat, index: nat)
    ensures !Abandons(Visit(items, ty, codec, si, inSec, index))
    decreases |items|
  {
    if items != [] {
      VisitCompletes(items[1..], ty, codec, si, inSec + 1, if items[0].Ok? then index + 1 else index);
    }
  }

  lemma {:induction false} LogsComplete(ls: seq<Logged>, si: nat, index: nat)
    ensures !Abandons(LogsSeen(ls, si, index))
    decreases |ls|
  {
    hide Abandons, Visit;
    if ls == [] {
      NothingCompletes();
    } else {
      var first := LogSeen(ls[0], si, index);
      VisitCompletes(Reads(ls[0].items), ls[0].ty, ls[0].codec, si, 0, index);
      LogsComplete(ls[1..], si + 1, index + |first.events|);
      JoinAbandons(first, LogsSeen(ls[1..], si + 1, index + |first.events|));
    }
  }

  lemma NothingCompletes()
    ensures !Abandons(NOTHING)
  {
  }

  lemma HeavyAbandoned(p: Container.Packed, l: Logged, si: nat, index: nat, limit: nat)
    requires Packs(p, l) && |ItemsBytes(l.items)| > limit
    ensures Abandons(SectionSeen(Container.Section(p.ty, p.codec, p.rawLen, p.blob), si, index, limit))
  {
    hide Codecs.Decode, ItemsBytes;
    var a := SectionSeen(Container.Section(p.ty, p.codec, p.rawLen, p.blob), si, index, limit);
    assert a.faults == [Fault(si, 0, Range, true)];
    assert a.faults[0].fatal;
  }

  lemma LimitSplit(ls: seq<Logged>, limit: nat)
    requires ls != [] && Small(ls[0].items)
    ensures WithinLimit(ls, limit) <==> |ItemsBytes(ls[0].items)| <= limit && WithinLimit(ls[1..], limit)
  {
    hide ItemsBytes;
    var rest := ls[1..];
    assert forall i | 0 <= i < |rest| :: rest[i] == ls[i + 1];
    if |ItemsBytes(ls[0].items)| <= limit && WithinLimit(rest, limit) {
      forall i | 0 <= i < |ls| && Small(ls[i].items) ensures |ItemsBytes(ls[i].items)| <= limit {
        if i > 0 { assert ls[i] == rest[i - 1]; }
      }
    }
    if WithinLimit(ls, limit) {
      forall i | 0 <= i < |rest| && Small(rest[i].items) ensures |ItemsBytes(rest[i].items)| <= limit {
        assert rest[i] == ls[i + 1];
      }
    }
  }

  lemma RestPacks(ps: seq<Container.Packed>, ls: seq<Logged>)
    requires AllPack(ps, ls) && ps != []
    ensures AllPack(ps[1..], ls[1..]) && Packs(ps[0], ls[0]) && Small(ls[0].items)
  {
    forall i | 0 <= i < |ps[1..]| ensures Packs(ps[1..][i], ls[1..][i]) { assert Packs(ps[i + 1], ls[i + 1]); }
    assert Packs(ps[0], ls[0]);
  }

  lemma {:induction false} OverLimitAbandons(ps: seq<Container.Packed>, ls: seq<Logged>, si: nat, index: nat, limit: nat)
    requires AllPack(ps, ls) && !WithinLimit(ls, limit)
    ensures Abandons(Sections(Container.Sections(ps), si, index, limit))
    decreases |ps|
  {
    hide SectionSeen, Packs, WithinLimit, Abandons;
    if ps == [] {
      NothingOver(limit);
    } else {
      RestPacks(ps, ls);
      LimitSplit(ls, limit);
      var ss := Container.Sections(ps);
      var first := SectionSeen(ss[0], si, index, limit);
      assert ss[1..] == Container.Sections(ps[1..]);
      JoinAbandons(first, Sections(ss[1..], si + 1, index + |first.events|, limit));
      if |ItemsBytes(ls[0].items)| > limit {
        HeavyAbandoned(ps[0], ls[0], si, index, limit);
      } else {
        OverLimitAbandons(ps[1..], ls[1..], si + 1, index + |first.events|, limit);
      }
    }
  }

  lemma NothingOver(limit: nat)
    ensures WithinLimit([], limit)
  {
  }

  /** The top theorem in both directions: the walk is what the calls promised exactly
      when every section fits the decode limit; otherwise it abandons a section, which
      the calls never promise. */
  lemma WriterThenWalkIff(t: Trace, mac: (Bytes, Bytes) -> Bytes, maxDecode: nat)
    requires ValidTrace(t) && IsMac(mac) && Finish(Run(t), mac).Ok?
    ensures var w := Walk.Walk(Finish(Run(t), mac).value, maxDecode);
            && w.Ok?
            && (w == Ok(Expected(t)) <==> WithinLimit(HistoryOf(t).closed, Limit(maxDecode)))
            && (Abandons(w.value) <==> !WithinLimit(HistoryOf(t).closed, Limit(maxDecode)))
  {
    hide Expected, Packs, Run, HistoryOf, LogsSeen, Sections, Container.Parse, Container.Body, WithinLimit, Abandons;
    var st, h := Run(t), HistoryOf(t);
    RunAgrees(t);
    ExpectedIsHistory(t);
    FinishParses(st.done, h.closed, st.key, mac);
    LogsComplete(h.closed, 0, 0);
    if WithinLimit(h.closed, Limit(maxDecode)) {
      SectionsBack(st.done, h.closed, 0, 0, Limit(maxDecode));
    } else {
      OverLimitAbandons(st.done, h.closed, 0, 0, Limit(maxDecode));
    }
  }

  // ---- runs that add well-formed records ----

  /** Values the record parsers accept. */
  predicate Acceptable(r: Record) {
    && (r.Log? ==> r.severity <= MAX_SEVERITY)
    && (r.Net? ==> r.iface < IFACE_RESERVED)
  }

  predicate AddsRecords(t: Trace) {
    forall i | 0 <= i < |t| :: !t[i].0.AddRaw? && !t[i].0.AddBatch? && (t[i].0.AddRecord? ==> Acceptable(t[i].0.rec))
  }

  /** The records of a run, in call order. */
  function RecordsAdded(t: Trace): seq<Record> {
    if t == [] then []
    else RecordsAdded(t[..|t| - 1]) + if t[|t| - 1].0.AddRecord? then [t[|t| - 1].0.rec] else []
  }

  ghost predicate Returns(seen: Seen, rs: seq<Record>) {
    && seen.faults == [] && |seen.events| == |rs|
    && forall k | 0 <= k < |rs| :: seen.events[k].rec == Canon(rs[k]) && seen.events[k].recordIndex == k
  }

  lemma AddedItem(st: State, h: History, r: Record)
    requires st.Active? && Representable(r) && Agrees(st, h) && Do(st, AddRecord(r)).Active? && Acceptable(r)
    ensures h.open.Some? && ItemOf(AddRecord(r)).Ok? && Tlv.Read(ItemOf(AddRecord(r)).value) == Ok(Canon(r))
  {
    hide Parse, Payload;
    PayloadRoundTrip(r);
  }

  lemma {:induction false} RecordsReturn(t: Trace)
    requires ValidTrace(t) && AddsRecords(t) && Run(t).Active?
    ensures Returns(Expected(t), RecordsAdded(t))
  {
    hide Agrees, ItemOf, Tlv.Read, Representable, Acceptable;
    if t != [] {
      var init, c := t[..|t| - 1], t[|t| - 1].0;
      assert t[|t| - 1] in t && AddsRecords(init);
      RecordsReturn(init);
      if c.AddRecord? {
        RunAgrees(init);
        AddedItem(Run(init), HistoryOf(init), c.rec);
      }
    }
  }

  /** A run that adds only well-formed records loses none, reorders none and
      changes none beyond what has no wire form. */
  lemma RecordsSurvive(t: Trace, mac: (Bytes, Bytes) -> Bytes, maxDecode: nat)
    requires ValidTrace(t) && AddsRecords(t) && IsMac(mac) && Finish(Run(t), mac).Ok?
    requires WithinLimit(HistoryOf(t).closed, Limit(maxDecode))
    ensures var w := Walk.Walk(Finish(Run(t), mac).value, maxDecode);
            && w.Ok? && Returns(w.value, RecordsAdded(t))
            && ((forall k | 0 <= k < |RecordsAdded(t)| :: Plain(RecordsAdded(t)[k])) <==>
                forall k | 0 <= k < |RecordsAdded(t)| :: w.value.events[k].rec == RecordsAdded(t)[k])
  {
    hide Walk.Walk, Plain, Canon;
    WriterThenWalk(t, mac, maxDecode);
    RecordsReturn(t);
    forall k | 0 <= k < |RecordsAdded(t)|
      ensures Plain(RecordsAdded(t)[k]) <==> Canon(RecordsAdded(t)[k]) == RecordsAdded(t)[k]
    {
      CanonSame(RecordsAdded(t)[k]);
    }
  }

  // ---- the documented walk of a writer run ----

  lemma {:induction false} ItemsWhole(items: seq<Tlv.Item>)
    requires Small(items)
    ensures Tlv.Count(ItemsBytes(items)).1
    decreases |items|
  {
    hide Tlv.ItemBytes, Tlv.TakeItem;
    if items != [] {
      Tlv.ItemBack(items[0], ItemsBytes(items[1..]));
      ItemsWhole(items[1..]);
    }
  }

  lemma {:induction false} FaultlessItems(items: seq<Result<Record>>, ty: u16, codec: byte, si: nat, inSec: nat, index: nat)
    requires Visit(items, ty, codec, si, inSec, index).faults == []
    ensures forall i | 0 <= i < |items| :: items[i].Ok?
    decreases |items|
  {
    if items != [] {
      FaultlessItems(items[1..], ty, codec, si, inSec + 1, index + 1);
      assert forall i | 1 <= i < |items| :: items[i] == items[1..][i - 1];
    }
  }

  lemma PackConforms(p: Container.Packed, l: Logged, si: nat, index: nat, limit: nat, fatal: bool)
    requires Packs(p, l) && SectionSeen(Container.Section(p.ty, p.codec, p.rawLen, p.blob), si, index, limit).faults == []
    ensures SectionConforms(Container.Section(p.ty, p.codec, p.rawLen, p.blob), limit, fatal)
  {
    hide Codecs.Decode, Visit, ItemsBytes, Tlv.Items, Tlv.Count;
    var s := Container.Section(p.ty, p.codec, p.rawLen, p.blob);
    if Raw(s, limit).Ok? {
      var items := Tlv.Items(ItemsBytes(l.items));
      ItemsWhole(l.items);
      FaultlessItems(items, p.ty, p.codec, si, 0, index);
    }
  }

  lemma {:induction false} PacksConform(ps: seq<Container.Packed>, ls: seq<Logged>, si: nat, index: nat, limit: nat, fatal: bool)
    requires AllPack(ps, ls) && Sections(Container.Sections(ps), si, index, limit).faults == []
    ensures forall i | 0 <= i < |ps| :: SectionConforms(Container.Sections(ps)[i], limit, fatal)
    decreases |ps|
  {
    hide SectionSeen, SectionConforms, Packs;
    if ps != [] {
      RestPacks(ps, ls);
      var ss := Container.Sections(ps);
      assert ss[1..] == Container.Sections(ps[1..]);
      var first := SectionSeen(ss[0], si, index, limit);
      PackConforms(ps[0], ls[0], si, index, limit, fatal);
      PacksConform(ps[1..], ls[1..], si + 1, index + |first.events|, limit, fatal);
      assert forall i | 1 <= i < |ss| :: ss[i] == ss[1..][i - 1];
    }
  }

  /** On what a run of well-formed records writes, the walk and the documented walk
      are the same. */
  lemma WriterConforms(t: Trace, mac: (Bytes, Bytes) -> Bytes, maxDecode: nat, fatal: bool)
    requires ValidTrace(t) && AddsRecords(t) && IsMac(mac) && Finish(Run(t), mac).Ok?
    requires WithinLimit(HistoryOf(t).closed, Limit(maxDecode))
    ensures DocumentedWalk(Finish(Run(t), mac).value, maxDecode, fatal) == Walk.Walk(Finish(Run(t), mac).value, maxDecode)
  {
    hide Packs, Run, HistoryOf, Sections, SectionConforms, Container.Parse, Container.Body, WithinLimit, Returns, RecordsAdded,
         Expected, DocumentedSections;
    var st, h := Run(t), HistoryOf(t);
    RunAgrees(t);
    WriterThenWalk(t, mac, maxDecode);
    RecordsReturn(t);
    assert Expected(t).faults == [] by { ReturnsFaultless(Expected(t), RecordsAdded(t)); }
    FinishParses(st.done, h.closed, st.key, mac);
    PacksConform(st.done, h.closed, 0, 0, Limit(maxDecode), fatal);
    DocumentedWalkIff(Finish(Run(t), mac).value, maxDecode, fatal);
  }

  lemma ReturnsFaultless(seen: Seen, rs: seq<Record>)
    requires Returns(seen, rs)
    ensures seen.faults == []
  {
  }
}
