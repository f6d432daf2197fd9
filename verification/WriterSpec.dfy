/** The incremental encoder as a state machine over its calls (src/writer/writer.c). */
module WriterSpec {
  import opened Core
  import opened Records
  import Codecs
  import Container
  import Tlv

  const MAX_SECTIONS := 64
  const MAX_BATCH := 0x3FFF // 0xFFFF / 4 points

  /** The section being filled. */
  datatype Open = Open(ty: u16, codec: byte, tlv: Bytes)

  /** Once an error is latched nothing else matters. */
  datatype State =
    | Failed(err: Err)
    | Active(done: seq<Container.Packed>, open: Option<Open>, key: Option<Bytes>)

  datatype Call =
    | Begin(ty: u16, codec: byte)
    | AddRecord(rec: Record)
    | AddRaw(tag: byte, payload: Bytes)
    | AddBatch(batchTag: byte, vals: seq<u32>)
    | End
    | SetKey(key: Bytes)

  /** Widths that the C signatures impose on the arguments. */
  predicate ValidCall(c: Call) {
    match c
    case AddRecord(rec) => Representable(rec)
    case AddRaw(_, payload) => |payload| <= 0xFFFF
    case _ => true
  }

  const INITIAL := Active([], None, None)

  // ---- one call ----

  /** The item a call appends, or why it appends none. */
  function ItemOf(c: Call): (r: Result<Tlv.Item>)
    requires ValidCall(c) && (c.AddRecord? || c.AddRaw? || c.AddBatch?)
    ensures r.Ok? ==> |r.value.val| <= 0xFFFF
  {
    match c
    case AddRecord(rec) =>
      var p :- Payload(rec);
      if |p| > 0xFFFF then Error(Range) else Ok(Tlv.Item(TagOf(rec), p))
    case AddRaw(tag, payload) => Ok(Tlv.Item(tag, payload))
    case AddBatch(tag, vals) =>
      if |vals| > MAX_BATCH then Error(Range)
      else if vals == [] then Error(Oom) // an empty staging buffer cannot be allocated
      else Ok(Tlv.Item(tag, SampleBytes(vals)))
  }

  function Begun(st: State, ty: u16, codec: byte): State
    requires st.Active?
  {
    if st.open.Some? then Failed(Inval)
    else if |st.done| >= MAX_SECTIONS then Failed(Range)
    else st.(open := Some(Open(ty, codec, [])))
  }

  /** The batch checks come before the open-section check, the record checks after it. */
  function Added(st: State, c: Call): State
    requires st.Active? && ValidCall(c) && (c.AddRecord? || c.AddRaw? || c.AddBatch?)
  {
    var item := ItemOf(c);
    if c.AddBatch? && item.Error? then Failed(item.err)
    else if st.open.None? then Failed(Inval)
    else if item.Error? then Failed(item.err)
    else
      var o := st.open.value;
      st.(open := Some(o.(tlv := o.tlv + Tlv.ItemBytes(item.value))))
  }

  function Ended(st: State): State
    requires st.Active?
  {
    if st.open.None? then Failed(Inval)
    else
      var o := st.open.value;
      if o.tlv == [] || |o.tlv| > SECTION_MAX_RAW then Failed(Range)
      else match Codecs.Get(o.codec)
        case None => Failed(BadRecord)
        case Some(c) =>
          match Codecs.Unlimited(c, o.tlv)
          case Error(e) => Failed(e)
          case Ok(blob) =>
            if |blob| > 0xFFFF_FFFF then Failed(Range)
            else Active(st.done + [Container.Packed(o.ty, o.codec, |o.tlv|, blob)], None, st.key)
  }

  /** A call in which every allocation succeeds. */
  function Do(st: State, c: Call): State
    requires st.Active? && ValidCall(c)
  {
    match c
    case Begin(ty, codec) => Begun(st, ty, codec)
    case End => Ended(st)
    case SetKey(key) => st.(key := Some(key))
    case _ => Added(st, c)
  }

  /** `lapse` is the error of an allocation that failed during the call, if one did. */
  function Step(st: State, c: Call, lapse: Option<Err>): State
    requires ValidCall(c)
  {
    if st.Failed? then st
    else if lapse.Some? then Failed(lapse.value)
    else Do(st, c)
  }

  /** The state machine's last step. The MAC is a parameter. */
  function Finish(st: State, mac: (Bytes, Bytes) -> Bytes): Result<Bytes> {
    match st
    case Failed(e) => Error(e)
    case Active(done, open, key) =>
      if open.Some? then Error(Inval)
      else if |Container.Blobs(done)| > 0xFFFF_FFFF || |done| > 0xFFFF then Error(Range)
      else
        var body := Container.Body(done, if key.Some? then 1 else 0);
        Ok(body + match key { case None => [] case Some(k) => mac(k, body) })
  }

  // ---- runs ----

  type Trace = seq<(Call, Option<Err>)>

  predicate ValidTrace(t: Trace) { forall i | 0 <= i < |t| :: ValidCall(t[i].0) }

  /** State after a whole run. */
  function Run(t: Trace): State
    requires ValidTrace(t)
  {
    if t == [] then INITIAL else Step(Run(t[..|t| - 1]), t[|t| - 1].0, t[|t| - 1].1)
  }

  /** A latched error is never cleared and is what finishing reports. */
  lemma {:induction false} ErrorLatches(t: Trace, more: Trace, mac: (Bytes, Bytes) -> Bytes)
    requires ValidTrace(t) && ValidTrace(t + more) && Run(t).Failed?
    ensures Run(t + more) == Run(t)
    ensures Finish(Run(t + more), mac) == Error(Run(t).err)
    decreases |more|
  {
    if more == [] {
      assert t + more == t;
    } else {
      var init := more[..|more| - 1];
      assert (t + more)[..|t + more| - 1] == t + init;
      assert forall i | 0 <= i < |t + init| :: (t + init)[i] == (t + more)[i];
      ErrorLatches(t, init, mac);
    }
  }

  // ---- what a run wrote ----

  /** A section as the caller sees it: the items added between begin and end. */
  datatype Logged = Logged(ty: u16, codec: byte, items: seq<Tlv.Item>)

  datatype History = History(closed: seq<Logged>, open: Option<Logged>)

  /** What a call adds to the history. */
  function Extend(h: History, c: Call): History
    requires ValidCall(c)
  {
    match c
    case Begin(ty, codec) => h.(open := Some(Logged(ty, codec, [])))
    case End => if h.open.Some? then History(h.closed + [h.open.value], None) else h
    case SetKey(_) => h
    case _ =>
      if h.open.Some? && ItemOf(c).Ok? then
        h.(open := Some(h.open.value.(items := h.open.value.items + [ItemOf(c).value])))
      else h
  }

  /** Sections and items named by the calls alone, whatever the writer did with them. */
  function HistoryOf(t: Trace): History
    requires ValidTrace(t)
  {
    if t == [] then History([], None) else Extend(HistoryOf(t[..|t| - 1]), t[|t| - 1].0)
  }

  function ItemsBytes(items: seq<Tlv.Item>): Bytes
    requires forall i | 0 <= i < |items| :: |items[i].val| <= 0xFFFF
  {
    if items == [] then [] else Tlv.ItemBytes(items[0]) + ItemsBytes(items[1..])
  }

  predicate Small(items: seq<Tlv.Item>) { forall i | 0 <= i < |items| :: |items[i].val| <= 0xFFFF }

  lemma {:induction false} ItemsSnoc(items: seq<Tlv.Item>, i: Tlv.Item)
    requires Small(items) && |i.val| <= 0xFFFF
    ensures Small(items + [i]) && ItemsBytes(items + [i]) == ItemsBytes(items) + Tlv.ItemBytes(i)
  {
    if items == [] {
      assert items + [i] == [i] && [i][1..] == [];
      assert ItemsBytes([i]) == Tlv.ItemBytes(i) + ItemsBytes([]);
    } else {
      ItemsSnoc(items[1..], i);
      assert (items + [i])[1..] == items[1..] + [i];
    }
  }

  /** A packed section holds a blob that decodes to the bytes of its items. */
  ghost predicate Packs(p: Container.Packed, l: Logged) {
    && Small(l.items)
    && p.ty == l.ty && p.codec == l.codec
    && 0 < p.rawLen <= SECTION_MAX_RAW && p.rawLen == |ItemsBytes(l.items)|
    && Codecs.Get(p.codec).Some?
    && Codecs.Decode(Codecs.Get(p.codec).value, p.blob, p.rawLen) == Ok(ItemsBytes(l.items))
  }

  ghost predicate Holds(o: Open, l: Logged) {
    Small(l.items) && o.ty == l.ty && o.codec == l.codec && o.tlv == ItemsBytes(l.items)
  }

  /** The writer's state agrees with the history of its calls. */
  ghost predicate Agrees(st: State, h: History) {
    st.Active? ==>
      && |st.done| == |h.closed| <= MAX_SECTIONS
      && (forall i | 0 <= i < |st.done| :: Packs(st.done[i], h.closed[i]))
      && (st.open.Some? <==> h.open.Some?)
      && (st.open.Some? ==> Holds(st.open.value, h.open.value) && |st.done| < MAX_SECTIONS)
  }

  /** Closing a section: the codec's output decodes to the section's stream. */
  lemma EndPacks(st: State, h: History)
    requires st.Active? && Agrees(st, h) && Ended(st).Active?
    ensures h.open.Some? && Agrees(Ended(st), History(h.closed + [h.open.value], None))
  {
    hide Codecs.Encode, Codecs.Decode;
    var o, l := st.open.value, h.open.value;
    var c := Codecs.Get(o.codec).value;
    Codecs.RoundTrip(c, o.tlv, Codecs.WorstCase(c, |o.tlv|), |o.tlv|);
    var st' := Ended(st);
    assert Packs(st'.done[|st.done|], l);
  }

  lemma AddHolds(st: State, h: History, c: Call)
    requires st.Active? && Agrees(st, h) && ValidCall(c) && (c.AddRecord? || c.AddRaw? || c.AddBatch?)
    requires Added(st, c).Active?
    ensures h.open.Some? && ItemOf(c).Ok?
    ensures Agrees(Added(st, c), h.(open := Some(h.open.value.(items := h.open.value.items + [ItemOf(c).value]))))
  {
    hide ItemOf;
    ItemsSnoc(h.open.value.items, ItemOf(c).value);
  }

  /** Every run keeps the writer's state in step with its calls. */
  lemma {:induction false} RunAgrees(t: Trace)
    requires ValidTrace(t)
    ensures Agrees(Run(t), HistoryOf(t))
  {
    hide Agrees, Added, Ended, ItemOf;
    if t == [] {
      StartAgrees();
    } else {
      var init, c, lapse := t[..|t| - 1], t[|t| - 1].0, t[|t| - 1].1;
      RunAgrees(init);
      StepAgrees(Run(init), HistoryOf(init), c, lapse);
    }
  }

  lemma StartAgrees()
    ensures Agrees(INITIAL, History([], None))
  {
  }

  lemma StepAgrees(st: State, h: History, c: Call, lapse: Option<Err>)
    requires ValidCall(c) && Agrees(st, h)
    ensures Agrees(Step(st, c, lapse), Extend(h, c))
  {
    hide ItemOf;
    if st.Active? && lapse.None? && Do(st, c).Active? {
      match c
      case Begin(_, _) =>
      case SetKey(_) =>
      case End => EndPacks(st, h);
      case _ => AddHolds(st, h, c);
    }
  }
}
