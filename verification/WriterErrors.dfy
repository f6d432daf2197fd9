/** Which call of a writer run fails, and with which error, told by the calls alone
    (src/writer/writer.c). */
module WriterErrors {
  import opened Core
  import opened Records
  import opened WriterSpec
  import Acceptance
  import Codecs
  import Container
  import Dict
  import Tlv

  // ---- records that cannot be written ----

  function PairsLength(pairs: seq<(Bytes, Bytes)>): nat {
    if pairs == [] then 0
    else 2 + |CStr(pairs[0].0)| + |CStr(pairs[0].1)| + PairsLength(pairs[1..])
  }

  predicate LongString(pairs: seq<(Bytes, Bytes)>) {
    exists i :: 0 <= i < |pairs| && (|CStr(pairs[i].0)| > 255 || |CStr(pairs[i].1)| > 255)
  }

  /** Payload bytes of each type. */
  function WireLength(r: Record): nat {
    match r
    case Heartbeat(_, _) => 8
    case Sensor(_, samples) => 3 + 4 * |samples|
    case Event(_, payload) => 4 + |payload|
    case Diag(_, blob, _) => 4 + |blob|
    case Geo(_, _, _) => 12
    case Battery(_, _, _) => 7
    case Net(_, _, _, _, _) => 17
    case Log(_, msg) => 3 + |msg|
    case Config(pairs) => 1 + PairsLength(pairs)
    case Keyref(_, text, _) => 2 + |text|
    case Firmware(_, _, _, _) => 14
    case Unknown(_) => 0
  }

  /** An unknown type, a CONFIG string over 255 bytes, or a payload over 65535. */
  function RecordOffence(r: Record): Option<Err> {
    if r.Unknown? then Some(BadRecord)
    else if r.Config? && LongString(r.pairs) then Some(Range)
    else if WireLength(r) > 65535 then Some(Range)
    else None
  }

  lemma {:induction false} PairBytesMeans(pairs: seq<(Bytes, Bytes)>)
    ensures LongString(pairs) ==> PairBytes(pairs) == Error(Range)
    ensures !LongString(pairs) ==> PairBytes(pairs).Ok? && |PairBytes(pairs).value| == PairsLength(pairs)
  {
    if pairs != [] {
      PairBytesMeans(pairs[1..]);
      var first := |CStr(pairs[0].0)| > 255 || |CStr(pairs[0].1)| > 255;
      if LongString(pairs[1..]) {
        var i :| 0 <= i < |pairs[1..]| && (|CStr(pairs[1..][i].0)| > 255 || |CStr(pairs[1..][i].1)| > 255);
        assert pairs[i + 1] == pairs[1..][i];
        assert LongString(pairs);
      } else if !first {
        forall i | 0 <= i < |pairs| ensures |CStr(pairs[i].0)| <= 255 && |CStr(pairs[i].1)| <= 255 {
          if i > 0 { assert pairs[i] == pairs[1..][i - 1]; }
        }
      }
    }
  }

  lemma PayloadMeans(r: Record)
    requires Representable(r)
    ensures match RecordOffence(r)
            case None => Payload(r).Ok? && |Payload(r).value| == WireLength(r) <= 65535
            case Some(e) => Payload(r) == Error(e) || (e == Range && Payload(r).Ok? && |Payload(r).value| > 65535)
  {
    hide PairBytes, LongString;
    if r.Config? { PairBytesMeans(r.pairs); }
  }

  /** A batch is one item of little-endian words. */
  lemma {:induction false} BatchMeans(vals: seq<u32>, i: nat)
    requires i < |vals|
    ensures |SampleBytes(vals)| == 4 * |vals| && Acceptance.Word(SampleBytes(vals), 4 * i) == vals[i]
  {
    hide Le32;
    var s := SampleBytes(vals);
    if i > 0 {
      BatchMeans(vals[1..], i - 1);
      assert s[4..] == SampleBytes(vals[1..]);
      SameWordAt(s, 4 * i, s[4..], 4 * (i - 1));
    } else {
      FirstWord(vals[0], SampleBytes(vals[1..]));
    }
  }

  lemma SameWordAt(s: Bytes, i: nat, t: Bytes, j: nat)
    requires i >= 4 && i + 4 <= |s| && t == s[4..] && j == i - 4
    ensures Acceptance.Word(s, i) == Acceptance.Word(t, j)
  {
  }

  lemma FirstWord(w: u32, rest: Bytes)
    ensures Acceptance.Word(Le32(w) + rest, 0) == w
  {
    Le32RoundTrip(w, rest);
  }

  // ---- sections that cannot be closed ----

  /** Bytes of the items, each with its three-byte header. */
  function Weight(items: seq<Tlv.Item>): nat {
    if items == [] then 0 else 3 + |items[0].val| + Weight(items[1..])
  }

  lemma {:induction false} WeightMeans(items: seq<Tlv.Item>)
    requires Small(items)
    ensures |ItemsBytes(items)| == Weight(items)
  {
    if items != [] {
      assert forall i | 0 <= i < |items[1..]| :: items[1..][i] == items[i + 1];
      WeightMeans(items[1..]);
    }
  }

  /** More than 65535 distinct blocks of four bytes. */
  ghost predicate TooVaried(raw: Bytes) { |Dict.Blocks(raw, Dict.BlockCount(raw))| > 65535 }

  /** Empty or over 64 MiB; no such codec; a stream that is not whole words under the word
      codecs 2 and 5; a stream too varied for the dictionary, 4. */
  ghost function SectionOffence(l: Logged): Option<Err>
    requires Small(l.items)
  {
    if l.items == [] || Weight(l.items) > 67_108_864 then Some(Range)
    else if l.codec > 6 then Some(BadRecord)
    else if (l.codec == 2 || l.codec == 5) && Weight(l.items) % 4 != 0 then Some(Truncated)
    else if l.codec == 4 && TooVaried(ItemsBytes(l.items)) then Some(Range)
    else None
  }

  ghost function Refusal(id: byte, raw: Bytes): Option<Err> {
    if (id == 2 || id == 5) && |raw| % 4 != 0 then Some(Truncated)
    else if id == 4 && TooVaried(raw) then Some(Range)
    else None
  }

  lemma RefusesMeans(id: byte, raw: Bytes)
    ensures Codecs.Get(id).None? <==> id > 6
    ensures id <= 6 ==> Codecs.Refuses(Codecs.Get(id).value, raw) == Refusal(id, raw)
  {
    Dict.EncodeFails(raw, 0);
  }

  lemma EndMeans(st: State, l: Logged)
    requires st.Active? && st.open.Some? && Holds(st.open.value, l)
    ensures match SectionOffence(l)
            case None => Ended(st).Active?
            case Some(e) => Ended(st) == Failed(e)
  {
    hide Codecs.Encode, Codecs.Refuses, Codecs.Get, TooVaried;
    var o := st.open.value;
    WeightMeans(l.items);
    assert Weight(l.items) == 0 <==> l.items == [];
    RefusesMeans(o.codec, o.tlv);
    if o.codec <= 6 && |o.tlv| <= 67_108_864 {
      var c := Codecs.Get(o.codec).value;
      Codecs.RoomSuffices(c, o.tlv, 0);
      Codecs.EncodeFits(c, o.tlv, Codecs.WorstCase(c, |o.tlv|));
      WorstFits(c, |o.tlv|);
    }
  }

  lemma WorstFits(c: Codecs.Codec, n: nat)
    requires n <= 67_108_864
    ensures Codecs.WorstCase(c, n) <= 0xFFFF_FFFF
  {
  }

  // ---- one call ----

  ghost predicate SmallHistory(h: History) { h.open.Some? ==> Small(h.open.value.items) }

  /** The error of a call after a history of successful ones, or none. */
  ghost function Offence(h: History, c: Call): Option<Err>
    requires SmallHistory(h)
  {
    match c
    case Begin(_, _) =>
      if h.open.Some? then Some(Inval) else if |h.closed| >= 64 then Some(Range) else None
    case AddRecord(r) => if h.open.None? then Some(Inval) else RecordOffence(r)
    case AddRaw(_, _) => if h.open.None? then Some(Inval) else None
    case AddBatch(_, vals) =>
      if |vals| > 16383 then Some(Range) else if vals == [] then Some(Oom) else if h.open.None? then Some(Inval) else None
    case End => if h.open.None? then Some(Inval) else SectionOffence(h.open.value)
    case SetKey(_) => None
  }

  lemma CallMeans(st: State, h: History, c: Call)
    requires st.Active? && Agrees(st, h) && ValidCall(c)
    ensures SmallHistory(h)
    ensures match Offence(h, c)
            case None => Do(st, c).Active?
            case Some(e) => Do(st, c) == Failed(e)
  {
    hide Payload, SectionOffence, RecordOffence, Ended, Representable;
    match c
    case AddRecord(r) => if st.open.Some? { RecordMeans(st, r); }
    case End => if st.open.Some? { EndMeans(st, h.open.value); } else { NothingOpen(st); }
    case _ =>
  }

  lemma NothingOpen(st: State)
    requires st.Active? && st.open.None?
    ensures Ended(st) == Failed(Inval)
  {
  }

  lemma RecordMeans(st: State, r: Record)
    requires st.Active? && Representable(r) && st.open.Some?
    ensures match RecordOffence(r)
            case None => Added(st, AddRecord(r)).Active?
            case Some(e) => Added(st, AddRecord(r)) == Failed(e)
  {
    hide Payload, RecordOffence, WireLength;
    PayloadMeans(r);
  }

  // ---- whole runs ----

  /** Call `k` fails by itself or by an allocation, and no call before it does. */
  ghost predicate FirstFailure(t: Trace, k: nat, e: Err)
    requires ValidTrace(t)
  {
    && k < |t| && Fails(t, k) == Some(e)
    && forall i | 0 <= i < k :: Fails(t, i) == None
  }

  ghost function Fails(t: Trace, k: nat): Option<Err>
    requires ValidTrace(t) && k < |t|
  {
    if t[k].1.Some? then t[k].1
    else if SmallHistory(HistoryOf(t[..k])) then Offence(HistoryOf(t[..k]), t[k].0)
    else None
  }

  lemma FailsBefore(t: Trace, n: nat, k: nat)
    requires ValidTrace(t) && k < n <= |t|
    ensures Fails(t[..n], k) == Fails(t, k)
  {
    hide Offence;
    assert t[..n][..k] == t[..k] && t[..n][k] == t[k];
  }

  lemma StepMeans(t: Trace)
    requires ValidTrace(t) && t != [] && Run(t[..|t| - 1]).Active?
    ensures match Fails(t, |t| - 1)
            case None => Run(t).Active?
            case Some(e) => Run(t) == Failed(e)
  {
    hide Offence, Agrees, Do;
    var n := |t| - 1;
    RunAgrees(t[..n]);
    CallMeans(Run(t[..n]), HistoryOf(t[..n]), t[n].0);
  }

  /** Over every run: the writer is live exactly when no call so far fails, and otherwise
      holds the error of the first that does. */
  lemma {:induction false} RunMeans(t: Trace)
    requires ValidTrace(t)
    ensures Run(t).Active? <==> forall k | 0 <= k < |t| :: Fails(t, k) == None
    ensures forall e :: Run(t) == Failed(e) <==> exists k: nat :: FirstFailure(t, k, e)
  {
    hide Fails;
    if t == [] {
    } else {
      var n := |t| - 1;
      RunMeans(t[..n]);
      forall k | 0 <= k < n ensures Fails(t[..n], k) == Fails(t, k) { FailsBefore(t, n, k); }
      if Run(t[..n]).Active? {
        StepMeans(t);
        forall e ensures Run(t) == Failed(e) <==> exists k: nat :: FirstFailure(t, k, e) {
          if Run(t) == Failed(e) { assert FirstFailure(t, n, e); }
        }
      } else {
        var e := Run(t[..n]).err;
        var k: nat :| FirstFailure(t[..n], k, e);
        assert FirstFailure(t, k, e);
        assert Run(t) == Failed(e);
        forall k': nat, e' | FirstFailure(t, k', e') ensures k' == k && e' == e {}
      }
    }
  }

  /** Bytes of all blobs. */
  function BlobBytes(st: State): nat
    requires st.Active?
  {
    |Container.Blobs(st.done)|
  }

  /** What finishing returns: the first error, else INVAL for a section left open, else
      RANGE for over 4 GiB of blobs, else a container. */
  lemma FinishMeans(t: Trace, mac: (Bytes, Bytes) -> Bytes)
    requires ValidTrace(t)
    ensures match Finish(Run(t), mac)
            case Error(e) =>
              || (exists k: nat :: FirstFailure(t, k, e))
              || (e == Inval && Run(t).Active? && HistoryOf(t).open.Some?)
              || (e == Range && Run(t).Active? && HistoryOf(t).open.None? && BlobBytes(Run(t)) > 4_294_967_295)
            case Ok(_) =>
              && (forall k | 0 <= k < |t| :: Fails(t, k) == None) && HistoryOf(t).open.None?
              && BlobBytes(Run(t)) <= 4_294_967_295
  {
    hide Fails, FirstFailure, Container.Body;
    RunMeans(t);
    RunAgrees(t);
  }
}
