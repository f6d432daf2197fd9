/** The tools built on absorb and replay: repack, select and sign
    (src/report/repack.c, select.c, sign.c). What they absorb always meets the
    conditions of the replay theorem. */
module Tools {
  import opened Core
  import opened Records
  import opened Walk
  import opened Replay
  import opened WriterSpec
  import opened Pipeline
  import Codecs
  import Container
  import Tlv
  import Writer
  import Vectors

  // ---- what a walk absorbs ----

  lemma {:induction false} WeightConcat(a: seq<WalkEvent>, b: seq<WalkEvent>, si: nat)
    requires AllFit(a) && AllFit(b)
    ensures AllFit(a + b) && Weight(a + b, si) == Weight(a, si) + Weight(b, si)
    decreases |b|
  {
    hide WellFormed, Tlv.RecordBytes;
    if b == [] {
      assert a + b == a;
    } else {
      var init, it := b[..|b| - 1], b[|b| - 1];
      WeightConcat(a, init, si);
      assert (a + b)[..|a + b| - 1] == a + init && (a + b)[|a + b| - 1] == it;
    }
  }

  /** The records of one section weigh no more than the stream they were read from. */
  lemma {:induction false} StreamWeight(raw: Bytes, ty: u16, codec: byte, si: nat, inSec: nat, index: nat, sj: nat)
    ensures var es := Visit(Tlv.Items(raw), ty, codec, si, inSec, index).events;
            AllFit(es) && Weight(es, sj) <= if sj == si then |raw| else 0
    decreases |raw|
  {
    hide WellFormed, Tlv.RecordBytes, Parse, Tlv.TakeItem;
    match Tlv.TakeItem(raw)
    case Error(_) => EmptyStream(raw);
    case Ok((i, rest)) =>
      var items := Tlv.Items(raw);
      assert items[1..] == Tlv.Items(rest) && items[0] == Tlv.Read(i);
      match Tlv.Read(i)
      case Error(e) =>
        StreamWeight(rest, ty, codec, si, inSec + 1, index, sj);
        var tail := Visit(Tlv.Items(rest), ty, codec, si, inSec + 1, index).events;
        assert [] + tail == tail;
      case Ok(rec) =>
        StreamWeight(rest, ty, codec, si, inSec + 1, index + 1, sj);
        var ev := WalkEvent(ty, codec, si, inSec, index, rec);
        OneWeight(i, ev, sj);
        WeightConcat([ev], Visit(Tlv.Items(rest), ty, codec, si, inSec + 1, index + 1).events, sj);
  }

  lemma EmptyStream(raw: Bytes)
    requires Tlv.TakeItem(raw).Error?
    ensures Tlv.Items(raw) == []
  {
  }

  lemma OneWeight(i: Tlv.Item, ev: WalkEvent, sj: nat)
    requires |i.val| <= 0xFFFF && Tlv.Read(i) == Ok(ev.rec)
    ensures AllFit([ev]) && Weight([ev], sj) <= if sj == ev.sectionIndex then 3 + |i.val| else 0
  {
    hide Parse, WellFormed, Payload;
    assert Rewritable(Parse(i.tag, i.val), i.tag, |i.val|) by { ParsedIsWellFormed(i.tag, i.val); }
    assert [ev][..0] == [];
    assert Weight([ev], sj) == Weight([], sj) + if ev.sectionIndex == sj then |Tlv.RecordBytes(ev.rec)| else 0;
  }

  lemma SectionWeight(s: Container.Section, si: nat, index: nat, limit: nat, sj: nat)
    ensures var es := SectionSeen(s, si, index, limit).events;
            AllFit(es) && Weight(es, sj) <= if sj == si then limit else 0
  {
    hide Codecs.Decode, Visit, Tlv.Items, WellFormed;
    if Walk.Open(s, limit).Ok? {
      var c := Codecs.Get(s.codec).value;
      Codecs.DecodeFits(c, s.blob, s.rawLen);
      StreamWeight(Codecs.Decode(c, s.blob, s.rawLen).value, s.ty, s.codec, si, 0, index, sj);
    }
  }

  lemma {:induction false} SectionsWeight(ss: seq<Container.Section>, si: nat, index: nat, limit: nat, sj: nat)
    ensures var es := Sections(ss, si, index, limit).events;
            AllFit(es) && Weight(es, sj) <= if sj < si then 0 else limit
    decreases |ss|
  {
    hide SectionSeen, WellFormed, Weight;
    if ss == [] {
      NoWeight(sj);
    } else {
      var first := SectionSeen(ss[0], si, index, limit).events;
      SectionWeight(ss[0], si, index, limit, sj);
      SectionsWeight(ss[1..], si + 1, index + |first|, limit, sj);
      WeightConcat(first, Sections(ss[1..], si + 1, index + |first|, limit).events, sj);
    }
  }

  lemma NoWeight(sj: nat)
    ensures Weight([], sj) == 0
  {
  }

  /** The conditions of the replay theorem. */
  ghost predicate Replayable(items: seq<WalkEvent>) {
    AllFit(items) && Grouped(items) && Light(items, DEFAULT_MAX_DECODE)
  }

  /** Every record of every successful walk can be replayed. */
  lemma WalkReplayable(data: Bytes)
    requires Walk.Walk(data, 0).Ok?
    ensures Replayable(Walk.Walk(data, 0).value.events)
  {
    hide Sections, WellFormed, Weight, Container.Parse;
    var ss := Container.Parse(data).value.sections;
    var es := Walk.Walk(data, 0).value.events;
    WalkOrdered(data, 0);
    SectionsWeight(ss, 0, 0, DEFAULT_MAX_DECODE, 0);
    forall si: nat ensures Weight(es, si) <= DEFAULT_MAX_DECODE {
      SectionsWeight(ss, 0, 0, DEFAULT_MAX_DECODE, si);
    }
  }

  // ---- keeping some items, under another codec ----

  function Kept(items: seq<WalkEvent>, keep: seq<bool>): (r: seq<WalkEvent>)
    requires |items| == |keep|
    ensures forall x | x in r :: x in items
  {
    if items == [] then []
    else
      var n := |items| - 1;
      Kept(items[..n], keep[..n]) + if keep[n] then [items[n]] else []
  }

  function Recoded(items: seq<WalkEvent>, codec: Option<byte>): (r: seq<WalkEvent>)
    ensures |r| == |items|
    ensures forall k | 0 <= k < |r| :: r[k] == if codec.Some? then items[k].(codec := codec.value) else items[k]
  {
    seq(|items|, k requires 0 <= k < |items| => if codec.Some? then items[k].(codec := codec.value) else items[k])
  }

  lemma {:induction false} KeptReplayable(items: seq<WalkEvent>, keep: seq<bool>)
    requires |items| == |keep| && AllFit(items) && Grouped(items)
    ensures var r := Kept(items, keep);
            && AllFit(r) && Grouped(r)
            && forall si: nat :: Weight(r, si) <= Weight(items, si)
  {
    hide WellFormed, Tlv.RecordBytes;
    if items != [] {
      var n := |items| - 1;
      var init, it := items[..n], items[n];
      KeptReplayable(init, keep[..n]);
      var k := Kept(init, keep[..n]);
      if keep[n] {
        assert forall x | x in k :: x in init && x in items;
        assert forall j | 0 <= j < |k| :: k[j] in k;
        KeptGrouped(k, it, items);
      }
      var r := Kept(items, keep);
      forall si: nat ensures Weight(r, si) <= Weight(items, si) {
        if keep[n] { WeightSnoc(k, it, si); } else { assert r == k; }
      }
    }
  }

  lemma KeptGrouped(k: seq<WalkEvent>, it: WalkEvent, items: seq<WalkEvent>)
    requires items != [] && it == items[|items| - 1] && Grouped(items) && Grouped(k)
    requires forall j | 0 <= j < |k| :: k[j] in items
    ensures Grouped(k + [it])
  {
    var r := k + [it];
    forall i, j | 0 <= i <= j < |r|
      ensures r[i].sectionIndex <= r[j].sectionIndex
      ensures r[i].sectionIndex == r[j].sectionIndex ==> r[i].sectionType == r[j].sectionType && r[i].codec == r[j].codec
    {
      if j == |k| && i < |k| {
        var m :| 0 <= m < |items| && items[m] == k[i];
        assert items[m].sectionIndex <= items[|items| - 1].sectionIndex;
      }
    }
  }

  lemma {:induction false} RecodedWeight(items: seq<WalkEvent>, codec: Option<byte>, si: nat)
    requires AllFit(items)
    ensures AllFit(Recoded(items, codec)) && Weight(Recoded(items, codec), si) == Weight(items, si)
  {
    hide WellFormed, Tlv.RecordBytes;
    if items != [] {
      var n := |items| - 1;
      RecodedWeight(items[..n], codec, si);
      assert Recoded(items, codec)[..n] == Recoded(items[..n], codec);
    }
  }

  /** What the shared loop is given after absorbing `data`. */
  function Selected(events: seq<WalkEvent>, keep: seq<bool>, codec: Option<byte>): seq<WalkEvent>
    requires |events| == |keep|
  {
    Kept(Recoded(events, codec), keep)
  }

  lemma SelectedReplayable(events: seq<WalkEvent>, keep: seq<bool>, codec: Option<byte>)
    requires |events| == |keep| && Replayable(events)
    ensures Replayable(Selected(events, keep, codec))
  {
    hide WellFormed, Weight, Kept;
    var items := Recoded(events, codec);
    forall si: nat ensures AllFit(items) && Weight(items, si) == Weight(events, si) {
      RecodedWeight(events, codec, si);
    }
    assert AllFit(items) by { RecodedWeight(events, codec, 0); }
    KeptReplayable(items, keep);
    forall si: nat ensures Weight(Kept(items, keep), si) <= DEFAULT_MAX_DECODE {
      assert Weight(items, si) == Weight(events, si) <= DEFAULT_MAX_DECODE;
    }
  }

  // ---- the tools ----

  /** Codecs as stored in the source sections are kept when `codec` is None. */
  function Rewrite(events: seq<WalkEvent>, keep: seq<bool>, codec: Option<byte>, key: Option<Bytes>, mac: (Bytes, Bytes) -> Bytes)
    : Result<Bytes>
    requires |events| == |keep| && Replayable(events)
  {
    SelectedReplayable(events, keep, codec);
    Output(Selected(events, keep, codec), key, mac)
  }

  function All(n: nat): (r: seq<bool>)
    ensures |r| == n && forall i | 0 <= i < n :: r[i]
  {
    seq(n, _ => true)
  }

  function Chosen(events: seq<WalkEvent>, p: Record -> bool): (r: seq<bool>)
    ensures |r| == |events| && forall i | 0 <= i < |r| :: r[i] == p(events[i].rec)
  {
    seq(|events|, i requires 0 <= i < |events| => p(events[i].rec))
  }

  function Repack(data: Bytes, codec: byte, mac: (Bytes, Bytes) -> Bytes): Result<Bytes> {
    if Codecs.Get(codec).None? then Error(Inval)
    else
      var seen :- Walk.Walk(data, 0);
      WalkReplayable(data);
      Rewrite(seen.events, All(|seen.events|), Some(codec), None, mac)
  }

  /** `p` is the compiled query. */
  function Select(data: Bytes, p: Record -> bool, mac: (Bytes, Bytes) -> Bytes): Result<Bytes> {
    var seen :- Walk.Walk(data, 0);
    WalkReplayable(data);
    Rewrite(seen.events, Chosen(seen.events, p), None, None, mac)
  }

  function Sign(data: Bytes, key: Bytes, mac: (Bytes, Bytes) -> Bytes): Result<Bytes> {
    if key == [] then Error(Inval)
    else
      var seen :- Walk.Walk(data, 0);
      WalkReplayable(data);
      Rewrite(seen.events, All(|seen.events|), None, Some(key), mac)
  }

  /** The theorem for all of them: success means the output carries the selection. */
  lemma RewriteFaithful(events: seq<WalkEvent>, keep: seq<bool>, codec: Option<byte>, key: Option<Bytes>,
                        mac: (Bytes, Bytes) -> Bytes)
    requires |events| == |keep| && Replayable(events) && IsMac(mac) && Rewrite(events, keep, codec, key, mac).Ok?
    ensures Carries(Rewrite(events, keep, codec, key, mac).value, Selected(events, keep, codec))
  {
    hide Replayable, Selected, Output, Carries;
    SelectedReplayable(events, keep, codec);
    assert AllFit(Selected(events, keep, codec)) && Grouped(Selected(events, keep, codec)) &&
           Light(Selected(events, keep, codec), DEFAULT_MAX_DECODE) by { ReplayableMeans(Selected(events, keep, codec)); }
    ReplayFaithful(Selected(events, keep, codec), key, mac);
  }

  lemma ReplayableMeans(items: seq<WalkEvent>)
    requires Replayable(items)
    ensures AllFit(items) && Grouped(items) && Light(items, DEFAULT_MAX_DECODE)
  {
  }

  lemma {:induction false} KeepAll(items: seq<WalkEvent>)
    ensures Kept(items, All(|items|)) == items
  {
    if items != [] {
      var n := |items| - 1;
      assert All(n + 1)[..n] == All(n);
      KeepAll(items[..n]);
    }
  }

  /** A replayed record is the record itself exactly when the wire preserves it. */
  lemma RecordsAgree(items: seq<WalkEvent>, out: seq<WalkEvent>, k: nat)
    requires Faithful(items, out) && k < |items|
    ensures out[k].rec == items[k].rec <==> Plain(items[k].rec)
  {
    CanonSame(items[k].rec);
  }

  /** Repacking changes the codec of every section and nothing else. */
  lemma RepackFaithful(data: Bytes, codec: byte, mac: (Bytes, Bytes) -> Bytes)
    requires IsMac(mac) && Repack(data, codec, mac).Ok?
    ensures Carries(Repack(data, codec, mac).value, Recoded(Walk.Walk(data, 0).value.events, Some(codec)))
  {
    hide Carries, Walk.Walk, Rewrite, Replayable;
    var es := Walk.Walk(data, 0).value.events;
    WalkReplayable(data);
    RewriteFaithful(es, All(|es|), Some(codec), None, mac);
    KeepAll(Recoded(es, Some(codec)));
  }

  lemma UnchangedItems(items: seq<WalkEvent>)
    ensures Recoded(items, None) == items
  {
  }

  /** Selecting keeps exactly the records that satisfy the query, in order. */
  lemma SelectFaithful(data: Bytes, p: Record -> bool, mac: (Bytes, Bytes) -> Bytes)
    requires IsMac(mac) && Select(data, p, mac).Ok?
    ensures var es := Walk.Walk(data, 0).value.events;
            Carries(Select(data, p, mac).value, Kept(es, Chosen(es, p)))
  {
    hide Carries, Walk.Walk, Rewrite, Replayable;
    var es := Walk.Walk(data, 0).value.events;
    WalkReplayable(data);
    RewriteFaithful(es, Chosen(es, p), None, None, mac);
    UnchangedItems(es);
  }

  /** Signing keeps every record and leaves a trailer that is the MAC of the rest. */
  lemma SignFaithful(data: Bytes, key: Bytes, mac: (Bytes, Bytes) -> Bytes)
    requires IsMac(mac) && Sign(data, key, mac).Ok?
    ensures var out := Sign(data, key, mac).value;
            && Carries(out, Walk.Walk(data, 0).value.events)
            && |out| >= Container.MAC_LEN
            && out[|out| - Container.MAC_LEN..] == mac(key, out[..|out| - Container.MAC_LEN])
  {
    hide Carries, Walk.Walk, Replayable, Replayed;
    var es := Walk.Walk(data, 0).value.events;
    WalkReplayable(data);
    RewriteFaithful(es, All(|es|), None, Some(key), mac);
    UnchangedItems(es);
    KeepAll(es);
  }

  // ---- the loops ----

  /** One turn: sections are opened lazily, when the source section changes. */
  method ReplayOne(w: Writer.Encoder, it: WalkEvent, sectionOpen: bool, curSection: nat) returns (rc: Option<Err>, ghost lapsed: bool)
    requires w.Valid() && w.View().Active? && WellFormed(it.rec) && Representable(it.rec)
    modifies w, w.tlv
    ensures w.Valid() && (w.tlv == old(w.tlv) || fresh(w.tlv))
    ensures lapsed ==> rc.Some?
    ensures !lapsed ==>
              match ReplayItem(old(w.View()), sectionOpen, sectionOpen && curSection == it.sectionIndex, it)
              case Ok(st) => rc.None? && w.View() == st
              case Error(e) => rc == Some(e)
  {
    hide WellFormed, Representable, Ended, Added;
    lapsed := false;
    if !sectionOpen || it.sectionIndex != curSection {
      if sectionOpen {
        w.EndSection();
        if w.err.Some? {
          return w.err, w.lapse.Some?;
        }
      }
      var handle := w.BeginSection(it.sectionType, it.codec);
      if handle < 0 {
        return Some(Oom), false;
      }
    }
    w.AddOne(it.rec);
    return w.err, w.lapse.Some?;
  }

  /** The shared replay loop and what follows it. */
  method ReplayAll(items: seq<WalkEvent>, key: Option<Bytes>, mac: (Bytes, Bytes) -> Bytes)
    returns (r: Result<Bytes>, ghost lapsed: bool)
    requires AllFit(items) && IsMac(mac)
    ensures lapsed ==> r.Error?
    ensures !lapsed ==> r == Output(items, key, mac)
  {
    hide WellFormed, Representable, Ended, Added, Finish, ReplayItem;
    var w := new Writer.Encoder();
    var sectionOpen: bool, curSection: nat := false, 0;
    ghost var goal := Replayed(items);
    for i := 0 to |items|
      invariant w.Valid() && fresh(w) && fresh(w.tlv)
      invariant AllFit(items[..i]) && Replayed(items[..i]) == Ok(w.View())
      invariant sectionOpen <==> i > 0
      invariant i > 0 ==> curSection == items[i - 1].sectionIndex
    {
      ghost var pre := items[..i + 1];
      assert pre[..i] == items[..i] && pre[i] == items[i];
      FitIsRepresentable(items[i].rec);
      var rc, bad := ReplayOne(w, items[i], sectionOpen, curSection);
      if rc.Some? {
        if !bad { FailsEarly(items, i + 1, rc.value); }
        return Error(rc.value), bad;
      }
      sectionOpen, curSection := true, items[i].sectionIndex;
    }
    assert items[..|items|] == items;
    if sectionOpen {
      w.EndSection();
      if w.err.Some? {
        return Error(w.err.value), w.lapse.Some?;
      }
    }
    if key.Some? {
      w.SetHmac(key.value);
    }
    r := w.FinishLog(mac);
    return r, w.lapse.Some?;
  }

  /** An error for some prefix of the items is the error for all of them. */
  lemma {:induction false} FailsEarly(items: seq<WalkEvent>, i: nat, e: Err)
    requires AllFit(items) && i <= |items| && AllFit(items[..i]) && Replayed(items[..i]) == Error(e)
    ensures Replayed(items) == Error(e)
    decreases |items|
  {
    hide WellFormed, ReplayItem;
    if i < |items| {
      var init := items[..|items| - 1];
      assert init[..i] == items[..i];
      FailsEarly(init, i, e);
    } else {
      assert items[..i] == items;
    }
  }

  /** The record callback, for every event of a walk: a growing array of items. */
  method Absorb(events: seq<WalkEvent>, keep: seq<bool>, codec: Option<byte>) returns (items: seq<WalkEvent>, ok: bool)
    requires |events| == |keep|
    ensures ok ==> items == Selected(events, keep, codec)
  {
    var v := new Vectors.Vector<WalkEvent>(64);
    ghost var all := Recoded(events, codec);
    for i := 0 to |events|
      invariant v.Valid() && fresh(v) && fresh(v.items)
      invariant v.Contents() == Kept(all[..i], keep[..i])
    {
      assert all[..i + 1][..i] == all[..i] && keep[..i + 1][..i] == keep[..i];
      if keep[i] {
        ok := v.Push(if codec.Some? then events[i].(codec := codec.value) else events[i]);
        if !ok {
          return [], false;
        }
      }
    }
    assert all[..|events|] == all && keep[..|events|] == keep;
    return v.items[..v.count], true;
  }

  /** `dtl_repack_file` between reading and writing the file. */
  method RepackMemory(data: Bytes, codec: byte, mac: (Bytes, Bytes) -> Bytes) returns (r: Result<Bytes>, ghost lapsed: bool)
    requires IsMac(mac)
    ensures lapsed ==> r.Error?
    ensures !lapsed ==> r == Repack(data, codec, mac)
  {
    hide Walk.Walk, Output, Selected, Light, Grouped, WellFormed;
    if Codecs.Get(codec).None? {
      return Error(Inval), false;
    }
    var seen := WalkMemory(data, 0);
    if seen.Error? {
      return Error(seen.err), false;
    }
    WalkReplayable(data);
    var keep := All(|seen.value.events|);
    SelectedReplayable(seen.value.events, keep, Some(codec));
    var items, ok := Absorb(seen.value.events, keep, Some(codec));
    if !ok {
      return Error(Oom), true;
    }
    r, lapsed := ReplayAll(items, None, mac);
  }

  method SelectMemory(data: Bytes, p: Record -> bool, mac: (Bytes, Bytes) -> Bytes) returns (r: Result<Bytes>, ghost lapsed: bool)
    requires IsMac(mac)
    ensures lapsed ==> r.Error?
    ensures !lapsed ==> r == Select(data, p, mac)
  {
    hide Walk.Walk, Output, Selected, Light, Grouped, WellFormed;
    var seen := WalkMemory(data, 0);
    if seen.Error? {
      return Error(seen.err), false;
    }
    WalkReplayable(data);
    var keep := Chosen(seen.value.events, p);
    SelectedReplayable(seen.value.events, keep, None);
    var items, ok := Absorb(seen.value.events, keep, None);
    if !ok {
      return Error(Oom), true;
    }
    r, lapsed := ReplayAll(items, None, mac);
  }

  method SignMemory(data: Bytes, key: Bytes, mac: (Bytes, Bytes) -> Bytes) returns (r: Result<Bytes>, ghost lapsed: bool)
    requires IsMac(mac)
    ensures lapsed ==> r.Error?
    ensures !lapsed ==> r == Sign(data, key, mac)
  {
    hide Walk.Walk, Output, Selected, Light, Grouped, WellFormed;
    if key == [] {
      return Error(Inval), false;
    }
    var seen := WalkMemory(data, 0);
    if seen.Error? {
      return Error(seen.err), false;
    }
    WalkReplayable(data);
    var keep := All(|seen.value.events|);
    SelectedReplayable(seen.value.events, keep, None);
    var items, ok := Absorb(seen.value.events, keep, None);
    if !ok {
      return Error(Oom), true;
    }
    r, lapsed := ReplayAll(items, Some(key), mac);
  }
}
