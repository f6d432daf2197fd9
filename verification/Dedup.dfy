/** Dropping repeated records (src/report/dedup.c). */
module Dedup {
  import opened Core
  import opened Records
  import opened Walk
  import opened Diff
  import opened Replay
  import opened Tools
  import opened WriterSpec
  import Writer
  import Container
  import Success
  import Tlv
  import opened Pipeline

  /** What marking compares: redaction is ignored. */
  predicate Same(a: Record, b: Record) { Equal(a, b, true) }

  function RecordsOf(items: seq<WalkEvent>): (r: seq<Record>)
    ensures |r| == |items| && forall i | 0 <= i < |r| :: r[i] == items[i].rec
  {
    seq(|items|, i requires 0 <= i < |items| => items[i].rec)
  }

  /** Whether a kept record before position `n` equals `r`. */
  predicate Repeats(rs: seq<Record>, keep: seq<bool>, n: nat, r: Record)
    requires n <= |rs| && n <= |keep|
  {
    exists j :: 0 <= j < n && keep[j] && Same(rs[j], r)
  }

  /** Flags after marking: each record is compared with the earlier kept ones only. */
  function Mark(rs: seq<Record>): (keep: seq<bool>)
    ensures |keep| == |rs|
  {
    if rs == [] then []
    else
      var n := |rs| - 1;
      var before := Mark(rs[..n]);
      before + [!Repeats(rs[..n], before, n, rs[n])]
  }

  lemma {:induction false} MarkPrefix(rs: seq<Record>, n: nat)
    requires n <= |rs|
    ensures Mark(rs[..n]) == Mark(rs)[..n]
    decreases |rs|
  {
    hide Repeats;
    if n < |rs| {
      var m := |rs| - 1;
      MarkPrefix(rs[..m], n);
      assert rs[..m][..n] == rs[..n];
    } else {
      assert rs[..n] == rs;
    }
  }

  lemma MarkAt(rs: seq<Record>, i: nat)
    requires i < |rs|
    ensures Mark(rs)[i] <==> !Repeats(rs, Mark(rs), i, rs[i])
  {
    hide Same;
    MarkPrefix(rs, i + 1);
    MarkPrefix(rs, i);
    var upto := rs[..i + 1];
    assert upto[..i] == rs[..i];
    assert Mark(rs)[i] == Mark(upto)[i];
    if Repeats(rs, Mark(rs), i, rs[i]) {
      var j :| 0 <= j < i && Mark(rs)[j] && Same(rs[j], rs[i]);
      assert Mark(rs)[..i][j] && rs[..i][j] == rs[j];
    }
    if Repeats(rs[..i], Mark(rs)[..i], i, rs[i]) {
      var j :| 0 <= j < i && Mark(rs)[..i][j] && Same(rs[..i][j], rs[i]);
      assert Mark(rs)[j] && rs[..i][j] == rs[j];
    }
  }

  /** A chain of equal records leads down to a kept one. */
  lemma {:induction false} KeptWitness(rs: seq<Record>, j: nat, i: nat) returns (k: nat)
    requires j < i < |rs| && Same(rs[j], rs[i])
    ensures k <= j && Mark(rs)[k] && Same(rs[k], rs[i])
    decreases j
  {
    hide Equal;
    if Mark(rs)[j] {
      k := j;
    } else {
      MarkAt(rs, j);
      var m :| 0 <= m < j && Mark(rs)[m] && Same(rs[m], rs[j]);
      EqualTransitive(rs[m], rs[j], rs[i], true);
      k := m;
    }
  }

  /** A record is dropped exactly when it equals some earlier record, kept or not. */
  lemma DroppedIffRepeated(rs: seq<Record>, i: nat)
    requires i < |rs|
    ensures !Mark(rs)[i] <==> exists j :: 0 <= j < i && Same(rs[j], rs[i])
  {
    hide Same;
    MarkAt(rs, i);
    if exists j :: 0 <= j < i && Same(rs[j], rs[i]) {
      var j :| 0 <= j < i && Same(rs[j], rs[i]);
      var k := KeptWitness(rs, j, i);
    }
  }

  // ---- against the documented duplicates ----

  /** Some earlier record is identical, redaction ignored. */
  predicate Duplicate(rs: seq<Record>, i: nat)
    requires i < |rs|
  {
    exists j :: 0 <= j < i && Identical(rs[j], rs[i], true)
  }

  /** Not a duplicate, but matched by an earlier record that differs from it. */
  predicate Lost(rs: seq<Record>, i: nat)
    requires i < |rs|
  {
    !Duplicate(rs, i) && exists j :: 0 <= j < i && Coarser(rs[j], rs[i], true)
  }

  /** A duplicate that no earlier record matches. */
  predicate Retained(rs: seq<Record>, i: nat)
    requires i < |rs|
  {
    && Duplicate(rs, i)
    && forall j | 0 <= j < i :: !Coarser(rs[j], rs[i], true) && (Identical(rs[j], rs[i], true) ==> Finer(rs[j], rs[i], true))
  }

  /** Dropped without being a duplicate, and kept although a duplicate. */
  lemma DropsMean(rs: seq<Record>, i: nat)
    requires i < |rs|
    ensures !Mark(rs)[i] && !Duplicate(rs, i) <==> Lost(rs, i)
    ensures Mark(rs)[i] && Duplicate(rs, i) <==> Retained(rs, i)
  {
    hide Equal, Identical, Coarser, Finer, Mark;
    DroppedIffRepeated(rs, i);
    forall j | 0 <= j < i
      ensures Same(rs[j], rs[i]) <==>
                (Identical(rs[j], rs[i], true) && !Finer(rs[j], rs[i], true)) || Coarser(rs[j], rs[i], true)
      ensures Coarser(rs[j], rs[i], true) ==> !Identical(rs[j], rs[i], true)
    {
      EqualMeans(rs[j], rs[i], true);
    }
  }

  /** Flags as documented. */
  ghost function DocumentedMark(rs: seq<Record>): (keep: seq<bool>)
    ensures |keep| == |rs| && forall i | 0 <= i < |rs| :: keep[i] == !Duplicate(rs, i)
  {
    seq(|rs|, i requires 0 <= i < |rs| => !Duplicate(rs, i))
  }

  lemma MarkIff(rs: seq<Record>)
    ensures Mark(rs) == DocumentedMark(rs) <==> forall i | 0 <= i < |rs| :: !Lost(rs, i) && !Retained(rs, i)
  {
    hide Lost, Retained, Duplicate, Mark;
    forall i | 0 <= i < |rs|
      ensures Mark(rs)[i] == DocumentedMark(rs)[i] <==> !Lost(rs, i) && !Retained(rs, i)
    {
      DropsMean(rs, i);
    }
  }

  /** Nothing is marked redacted: so of every record that comes off the wire. */
  predicate Unredacted(r: Record) { (r.Diag? ==> !r.diagRedacted) && (r.Keyref? ==> !r.textRedacted) }

  ghost predicate AllUnredacted(rs: seq<Record>) { forall i | 0 <= i < |rs| :: Unredacted(rs[i]) }

  lemma PlainIdentity(a: Record, b: Record)
    requires Unredacted(a) && Unredacted(b)
    ensures Identical(a, b, true) <==> a == b
    ensures Finer(a, b, true) <==> a == b && HasNaN(b)
    ensures Coarser(a, b, true) ==> !HasNaN(b)
  {
    if a.Sensor? && b.Sensor? && ZerosDiffer(a.samples, b.samples) {
      forall i | 0 <= i < |b.samples| ensures !IsNaN(b.samples[i]) {
        if a.samples[i] != b.samples[i] { ZeroIsNumber(b.samples[i]); }
      }
    }
  }

  /** Without redaction marks, duplicates survive exactly when they hold a NaN. */
  lemma RetainedIffNaN(rs: seq<Record>, i: nat)
    requires i < |rs| && AllUnredacted(rs)
    ensures Retained(rs, i) <==> Duplicate(rs, i) && HasNaN(rs[i])
  {
    hide Identical, Finer, Coarser, HasNaN, Unredacted;
    forall j | 0 <= j < i
      ensures Identical(rs[j], rs[i], true) <==> rs[j] == rs[i]
      ensures Finer(rs[j], rs[i], true) <==> rs[j] == rs[i] && HasNaN(rs[i])
      ensures Coarser(rs[j], rs[i], true) ==> !HasNaN(rs[i])
    {
      PlainIdentity(rs[j], rs[i]);
    }
  }

  /** `j` is where the record at `i` first occurs, and nothing before that coarsely
      matches it. */
  ghost predicate FirstIsFresh(rs: seq<Record>, i: nat, j: nat)
    requires i < |rs|
  {
    j <= i && rs[j] == rs[i] && forall m | 0 <= m < j :: rs[m] != rs[i] && !Coarser(rs[m], rs[i], true)
  }

  lemma FirstOccurrence(rs: seq<Record>, i: nat, k: nat) returns (j: nat)
    requires k <= i < |rs| && forall m | 0 <= m < k :: rs[m] != rs[i]
    ensures k <= j <= i && rs[j] == rs[i] && forall m | 0 <= m < j :: rs[m] != rs[i]
    decreases i - k
  {
    if rs[k] == rs[i] { j := k; } else { j := FirstOccurrence(rs, i, k + 1); }
  }

  /** The output still has an identical copy of a record exactly when nothing before
      its first occurrence coarsely matches it. */
  lemma CopySurvivesIff(rs: seq<Record>, i: nat)
    requires i < |rs| && AllUnredacted(rs)
    ensures (exists k :: 0 <= k < |rs| && Mark(rs)[k] && rs[k] == rs[i]) <==> exists j :: FirstIsFresh(rs, i, j)
  {
    hide Identical, Finer, Coarser, HasNaN, Unredacted, Mark, Same;
    var j := FirstOccurrence(rs, i, 0);
    forall m | 0 <= m < j ensures Same(rs[m], rs[i]) <==> Coarser(rs[m], rs[i], true) { NewRecord(rs[m], rs[i]); }
    DroppedIffRepeated(rs, j);
    if forall m | 0 <= m < j :: !Coarser(rs[m], rs[i], true) {
      assert FirstIsFresh(rs, i, j) && Mark(rs)[j];
    } else {
      var m :| 0 <= m < j && Coarser(rs[m], rs[i], true);
      forall k | 0 <= k < |rs| && rs[k] == rs[i] ensures !Mark(rs)[k] {
        assert k >= j && Same(rs[m], rs[k]);
        DroppedIffRepeated(rs, k);
      }
    }
  }

  lemma NewRecord(a: Record, b: Record)
    requires Unredacted(a) && Unredacted(b) && a != b
    ensures Same(a, b) <==> Coarser(a, b, true)
  {
    hide Equal, Identical, Finer, Coarser, HasNaN, Unredacted;
    EqualMeans(a, b, true);
    PlainIdentity(a, b);
  }

  /** Two keys in one slot: the second is dropped, and no copy of it is left. Two
      equal NaN readings: the second stays. */
  lemma DropExamples()
    ensures var rs := [Keyref(1, [97], false), Keyref(1, [98], false)];
            Mark(rs) == [true, false] && Lost(rs, 1) && !Duplicate(rs, 1) && rs[0] != rs[1]
    ensures var rs := [Sensor(1, [0x7FC0_0000]), Sensor(1, [0x7FC0_0000])];
            Mark(rs) == [true, true] && Retained(rs, 1) && Duplicate(rs, 1)
  {
    EqualExamples();
    TwoRecords(Keyref(1, [97], false), Keyref(1, [98], false));
    TwoRecords(Sensor(1, [0x7FC0_0000]), Sensor(1, [0x7FC0_0000]));
  }

  lemma TwoRecords(a: Record, b: Record)
    ensures Mark([a, b]) == [true, !Same(a, b)]
    ensures Duplicate([a, b], 1) <==> Identical(a, b, true)
    ensures Lost([a, b], 1) <==> Same(a, b) && !Identical(a, b, true)
    ensures Retained([a, b], 1) <==> !Same(a, b) && Identical(a, b, true)
  {
    hide Equal, Identical, Mark, Lost, Retained;
    var rs := [a, b];
    DroppedIffRepeated(rs, 0);
    DroppedIffRepeated(rs, 1);
    DropsMean(rs, 1);
    assert rs[0] == a && rs[1] == b;
  }

  // ---- what is left ----

  function KeptRecords(rs: seq<Record>, keep: seq<bool>): seq<Record>
    requires |rs| == |keep|
  {
    if rs == [] then []
    else
      var n := |rs| - 1;
      KeptRecords(rs[..n], keep[..n]) + if keep[n] then [rs[n]] else []
  }

  ghost predicate AllDifferent(rs: seq<Record>) {
    forall i, j | 0 <= i < j < |rs| :: !Same(rs[i], rs[j])
  }

  lemma {:induction false} KeptSource(rs: seq<Record>, keep: seq<bool>, k: nat) returns (j: nat)
    requires |rs| == |keep| && k < |KeptRecords(rs, keep)|
    ensures j < |rs| && keep[j] && KeptRecords(rs, keep)[k] == rs[j]
  {
    var n := |rs| - 1;
    var init := KeptRecords(rs[..n], keep[..n]);
    if k < |init| {
      j := KeptSource(rs[..n], keep[..n], k);
    } else {
      j := n;
    }
  }

  /** The kept records are pairwise different. */
  lemma {:induction false} KeptAllDifferent(rs: seq<Record>)
    ensures AllDifferent(KeptRecords(rs, Mark(rs)))
  {
    hide Same;
    if rs != [] {
      var n := |rs| - 1;
      MarkPrefix(rs, n);
      KeptAllDifferent(rs[..n]);
      var init := KeptRecords(rs[..n], Mark(rs)[..n]);
      if Mark(rs)[n] {
        MarkAt(rs, n);
        forall i | 0 <= i < |init| ensures !Same(init[i], rs[n]) {
          var j := KeptSource(rs[..n], Mark(rs)[..n], i);
          assert Mark(rs)[j] && rs[..n][j] == rs[j];
        }
      }
    }
  }

  /** Marking records that are pairwise different drops none of them. */
  lemma NothingToDrop(rs: seq<Record>)
    ensures Mark(rs) == All(|rs|) <==> AllDifferent(rs)
  {
    hide Same;
    if AllDifferent(rs) {
      forall i | 0 <= i < |rs| ensures Mark(rs)[i] { DroppedIffRepeated(rs, i); }
    } else {
      var i, j :| 0 <= i < j < |rs| && Same(rs[i], rs[j]);
      DroppedIffRepeated(rs, j);
      assert !Mark(rs)[j];
    }
  }

  lemma SecondPassKeepsAll(rs: seq<Record>)
    ensures var once := KeptRecords(rs, Mark(rs)); KeptRecords(once, Mark(once)) == once
  {
    var once := KeptRecords(rs, Mark(rs));
    KeptAllDifferent(rs);
    NothingToDrop(once);
    KeepsAll(once);
  }

  lemma {:induction false} KeepsAll(rs: seq<Record>)
    ensures KeptRecords(rs, All(|rs|)) == rs
  {
    if rs != [] {
      var n := |rs| - 1;
      assert All(n + 1)[..n] == All(n);
      KeepsAll(rs[..n]);
    }
  }

  // ---- the tool ----

  function Deduplicate(data: Bytes, mac: (Bytes, Bytes) -> Bytes): Result<Bytes> {
    var seen :- Walk.Walk(data, 0);
    WalkReplayable(data);
    Rewrite(seen.events, Mark(RecordsOf(seen.events)), None, None, mac)
  }

  lemma DeduplicateFaithful(data: Bytes, mac: (Bytes, Bytes) -> Bytes)
    requires IsMac(mac) && Deduplicate(data, mac).Ok?
    ensures var es := Walk.Walk(data, 0).value.events;
            Carries(Deduplicate(data, mac).value, Kept(es, Mark(RecordsOf(es))))
  {
    hide Carries, Walk.Walk, Rewrite, Replayable;
    var es := Walk.Walk(data, 0).value.events;
    WalkReplayable(data);
    RewriteFaithful(es, Mark(RecordsOf(es)), None, None, mac);
    UnchangedItems(es);
  }

  // ---- the tool against the documented one ----

  lemma BlobUnredacted(s: Bytes)
    ensures ParseDiag(s).Ok? ==> Unredacted(ParseDiag(s).value)
    ensures ParseKeyref(s).Ok? ==> Unredacted(ParseKeyref(s).value)
  {
    hide FromLe16;
  }

  lemma ParsedUnredacted(i: Tlv.Item)
    requires |i.val| <= 0xFFFF
    ensures Tlv.Read(i).Ok? ==> Unredacted(Tlv.Read(i).value)
  {
    hide ParseDiag, ParseKeyref, ParseHeartbeat, ParseGeo, ParseBattery, ParseNet, ParseFirmware, ParseSensor, ParseEvent,
         ParseLog, ParseConfig, WellFormed, Payload;
    ParsedIsWellFormed(i.tag, i.val);
    BlobUnredacted(i.val);
  }

  lemma {:induction false} ItemsUnredacted(raw: Bytes)
    ensures forall x | x in Tlv.Items(raw) && x.Ok? :: Unredacted(x.value)
    decreases |raw|
  {
    hide Tlv.Read, Tlv.TakeItem, Unredacted;
    match Tlv.TakeItem(raw)
    case Error(_) =>
    case Ok((i, rest)) =>
      ParsedUnredacted(i);
      ItemsUnredacted(rest);
  }

  lemma {:induction false} VisitUnredacted(items: seq<Result<Record>>, ty: u16, codec: byte, si: nat, inSec: nat, index: nat)
    requires forall x | x in items && x.Ok? :: Unredacted(x.value)
    ensures forall e | e in Visit(items, ty, codec, si, inSec, index).events :: Unredacted(e.rec)
    decreases |items|
  {
    hide Unredacted;
    if items != [] {
      assert items[0] in items;
      VisitUnredacted(items[1..], ty, codec, si, inSec + 1, if items[0].Ok? then index + 1 else index);
    }
  }

  lemma {:induction false} SectionsUnredacted(ss: seq<Container.Section>, si: nat, index: nat, limit: nat)
    ensures forall e | e in Sections(ss, si, index, limit).events :: Unredacted(e.rec)
    decreases |ss|
  {
    hide Unredacted, Visit, Tlv.Items, Raw;
    if ss != [] {
      var first := SectionSeen(ss[0], si, index, limit);
      if Raw(ss[0], limit).Ok? {
        var raw := Raw(ss[0], limit).value;
        ItemsUnredacted(raw);
        VisitUnredacted(Tlv.Items(raw), ss[0].ty, ss[0].codec, si, 0, index);
      }
      SectionsUnredacted(ss[1..], si + 1, index + |first.events|, limit);
    }
  }

  lemma WalkUnredacted(data: Bytes)
    requires Walk.Walk(data, 0).Ok?
    ensures AllUnredacted(RecordsOf(Walk.Walk(data, 0).value.events))
  {
    hide Unredacted, Container.Parse, Sections;
    SectionsUnredacted(Container.Parse(data).value.sections, 0, 0, DEFAULT_MAX_DECODE);
    var es := Walk.Walk(data, 0).value.events;
    forall i | 0 <= i < |es| ensures Unredacted(RecordsOf(es)[i]) { assert es[i] in es; }
  }

  /** Different flags keep different items, when no item occurs twice. */
  lemma {:induction false} KeptInjective(items: seq<WalkEvent>, a: seq<bool>, b: seq<bool>)
    requires |items| == |a| == |b| && forall i, j | 0 <= i < j < |items| :: items[i] != items[j]
    ensures Kept(items, a) == Kept(items, b) <==> a == b
  {
    if items != [] {
      var n := |items| - 1;
      var ka, kb := Kept(items[..n], a[..n]), Kept(items[..n], b[..n]);
      KeptInjective(items[..n], a[..n], b[..n]);
      assert a == a[..n] + [a[n]] && b == b[..n] + [b[n]];
      assert items[n] !in ka && items[n] !in kb;
      if a[n] && b[n] {
        assert (ka + [items[n]])[..|ka|] == ka && (kb + [items[n]])[..|kb|] == kb;
      } else if a[n] {
        assert items[n] in Kept(items, a) && items[n] !in Kept(items, b);
      } else if b[n] {
        assert items[n] in Kept(items, b) && items[n] !in Kept(items, a);
      } else {
        assert ka + [] == ka && kb + [] == kb;
      }
    }
  }

  lemma WalkDistinct(data: Bytes)
    requires Walk.Walk(data, 0).Ok?
    ensures var es := Walk.Walk(data, 0).value.events; forall i, j | 0 <= i < j < |es| :: es[i] != es[j]
  {
    hide Walk.Walk;
    WalkOrdered(data, 0);
  }

  /** On every container: what deduplication writes is what it documents exactly when
      no record is lost to a coarser match and no duplicate holds a NaN. */
  lemma DeduplicateIff(data: Bytes, mac: (Bytes, Bytes) -> Bytes)
    requires IsMac(mac) && Deduplicate(data, mac).Ok?
    ensures var es := Walk.Walk(data, 0).value.events; var rs := RecordsOf(es);
            && Carries(Deduplicate(data, mac).value, Kept(es, Mark(rs)))
            && (Kept(es, Mark(rs)) == Kept(es, DocumentedMark(rs)) <==>
                  forall i | 0 <= i < |rs| :: !Lost(rs, i) && !(Duplicate(rs, i) && HasNaN(rs[i])))
  {
    hide Carries, Walk.Walk, Rewrite, Mark, Kept, Lost, Retained, Duplicate, HasNaN, AllUnredacted, Replayable, DocumentedMark;
    DeduplicateFaithful(data, mac);
    var es := Walk.Walk(data, 0).value.events;
    var rs := RecordsOf(es);
    WalkUnredacted(data);
    WalkDistinct(data);
    KeptInjective(es, Mark(rs), DocumentedMark(rs));
    MarkIff(rs);
    forall i | 0 <= i < |rs| ensures Retained(rs, i) <==> Duplicate(rs, i) && HasNaN(rs[i]) { RetainedIffNaN(rs, i); }
  }

  /** Deduplication succeeds exactly when its input can be walked and what it keeps can
      be written. */
  lemma DeduplicateSucceedsIff(data: Bytes, mac: (Bytes, Bytes) -> Bytes)
    ensures Deduplicate(data, mac).Ok? <==>
              && Walk.Walk(data, 0).Ok?
              && var es := Walk.Walk(data, 0).value.events; var items := Kept(es, Mark(RecordsOf(es)));
              AllFit(items) && Success.Writable(items)
  {
    hide Walk.Walk, Rewrite, Success.Writable, Light, Grouped, WellFormed, Mark;
    if Walk.Walk(data, 0).Ok? {
      var es := Walk.Walk(data, 0).value.events;
      WalkReplayable(data);
      Success.RewriteIff(es, Mark(RecordsOf(es)), None, None, mac);
      UnchangedItems(es);
    }
  }

  lemma {:induction false} KeptAgree(items: seq<WalkEvent>, keep: seq<bool>)
    requires |items| == |keep|
    ensures RecordsOf(Kept(items, keep)) == KeptRecords(RecordsOf(items), keep)
  {
    if items != [] {
      var n := |items| - 1;
      KeptAgree(items[..n], keep[..n]);
      assert RecordsOf(items)[..n] == RecordsOf(items[..n]);
    }
  }

  lemma CanonKeepsDifferent(items: seq<WalkEvent>, out: seq<WalkEvent>)
    requires Faithful(items, out) && AllDifferent(RecordsOf(items))
    ensures AllDifferent(RecordsOf(out))
  {
    hide Equal, Canon;
    forall i, j | 0 <= i < j < |out| ensures !Same(out[i].rec, out[j].rec) {
      CanonInvisible(items[i].rec, items[j].rec);
      assert !Same(RecordsOf(items)[i], RecordsOf(items)[j]);
    }
  }

  /** Deduplicating a container twice: the second pass drops nothing. */
  lemma Idempotent(data: Bytes, mac: (Bytes, Bytes) -> Bytes)
    requires IsMac(mac) && Deduplicate(data, mac).Ok?
    ensures var w := Walk.Walk(Deduplicate(data, mac).value, 0);
            w.Ok? && Mark(RecordsOf(w.value.events)) == All(|w.value.events|)
  {
    hide Walk.Walk, Rewrite, Mark, Kept, Faithful, Container.Parse;
    var es := Walk.Walk(data, 0).value.events;
    DeduplicateFaithful(data, mac);
    var kept := Kept(es, Mark(RecordsOf(es)));
    KeptAgree(es, Mark(RecordsOf(es)));
    KeptAllDifferent(RecordsOf(es));
    var out := Walk.Walk(Deduplicate(data, mac).value, 0).value.events;
    CanonKeepsDifferent(kept, out);
    NothingToDrop(RecordsOf(out));
  }

  /** The file comparison finds no difference between a container and its repacking
      exactly when no sensor sample is a NaN. */
  lemma RepackDiffs(data: Bytes, codec: byte, mac: (Bytes, Bytes) -> Bytes)
    requires IsMac(mac) && Repack(data, codec, mac).Ok?
    ensures var a := RecordsOf(Walk.Walk(data, 0).value.events);
            var w := Walk.Walk(Repack(data, codec, mac).value, 0);
            && w.Ok?
            && (Diffs(a, RecordsOf(w.value.events), true) == 0 <==> forall i | 0 <= i < |a| :: Comparable(a[i]))
  {
    hide Walk.Walk, Rewrite, Equal, Comparable, Canon, Container.Parse;
    RepackFaithful(data, codec, mac);
    var es := Walk.Walk(data, 0).value.events;
    var items, out := Recoded(es, Some(codec)), Walk.Walk(Repack(data, codec, mac).value, 0).value.events;
    var a, b := RecordsOf(es), RecordsOf(out);
    NoDiffs(a, b, true);
    assert forall i | 0 <= i < |a| :: b[i] == Canon(a[i]) by {
      forall i | 0 <= i < |a| ensures b[i] == Canon(a[i]) { assert out[i].rec == Canon(items[i].rec); }
    }
    forall i | 0 <= i < |a| ensures Equal(a[i], b[i], true) <==> Comparable(a[i]) { CanonEqual(a[i]); }
  }

  // ---- the marking loops ----

  function Dropped(keep: seq<bool>): nat {
    if keep == [] then 0 else Dropped(keep[..|keep| - 1]) + if keep[|keep| - 1] then 0 else 1
  }

  /** The inner loop: is item `i` equal to an earlier item still marked? */
  method FindEarlier(items: array<WalkEvent>, keep: array<bool>, i: nat) returns (found: bool)
    requires i < items.Length == keep.Length
    ensures found <==> Repeats(RecordsOf(items[..i]), keep[..i], i, items[i].rec)
  {
    hide Equal;
    found := false;
    for j := 0 to i
      invariant forall m | 0 <= m < j :: !(keep[m] && Same(items[m].rec, items[i].rec))
    {
      if !keep[j] {
        continue;
      }
      if TagOf(items[j].rec) != TagOf(items[i].rec) {
        TagsDiffer(items[j].rec, items[i].rec);
        continue;
      }
      if Same(items[j].rec, items[i].rec) {
        assert RecordsOf(items[..i])[j] == items[j].rec && keep[..i][j];
        return true;
      }
    }
  }

  lemma TagsDiffer(a: Record, b: Record)
    requires TagOf(a) != TagOf(b)
    ensures !Same(a, b)
  {
  }

  lemma MarkStep(rs: seq<Record>, i: nat)
    requires i < |rs|
    ensures Mark(rs[..i + 1]) == Mark(rs[..i]) + [!Repeats(rs[..i], Mark(rs[..i]), i, rs[i])]
  {
    hide Repeats;
    assert rs[..i + 1][..i] == rs[..i];
  }

  lemma DroppedStep(keep: seq<bool>, b: bool)
    ensures Dropped(keep + [b]) == Dropped(keep) + if b then 0 else 1
  {
    assert (keep + [b])[..|keep|] == keep;
  }

  lemma NothingMarked()
    ensures Mark([]) == [] && Dropped([]) == 0
  {
  }

  /** `dtl_dedup_mark`, on flags that are all set. */
  method MarkAll(items: array<WalkEvent>, keep: array<bool>) returns (dropped: nat)
    requires items.Length == keep.Length && keep[..] == All(keep.Length)
    modifies keep
    ensures keep[..] == Mark(RecordsOf(items[..])) && dropped == Dropped(keep[..])
  {
    hide Repeats, Mark, Dropped;
    dropped := 0;
    ghost var rs := RecordsOf(items[..]);
    NothingMarked();
    assert rs[..0] == [] && keep[..0] == [];
    for i := 0 to items.Length
      invariant keep[..i] == Mark(rs[..i]) && dropped == Dropped(keep[..i])
      invariant forall m | i <= m < keep.Length :: keep[m]
    {
      assert rs[..i] == RecordsOf(items[..i]) && rs[i] == items[i].rec;
      MarkStep(rs, i);
      ghost var before := keep[..i];
      if keep[i] {
        var found := FindEarlier(items, keep, i);
        if found {
          keep[i] := false;
          dropped := dropped + 1;
        }
      }
      DroppedStep(before, keep[i]);
      assert keep[..i + 1] == before + [keep[i]];
    }
    assert rs[..items.Length] == rs && keep[..items.Length] == keep[..];
  }

  lemma {:induction false} KeptPrefix(items: seq<WalkEvent>, keep: seq<bool>, i: nat)
    requires i <= |items| == |keep|
    ensures Kept(items[..i], keep[..i]) <= Kept(items, keep)
    decreases |items|
  {
    if i < |items| {
      var n := |items| - 1;
      KeptPrefix(items[..n], keep[..n], i);
      assert items[..n][..i] == items[..i] && keep[..n][..i] == keep[..i];
    } else {
      assert items[..i] == items && keep[..i] == keep;
    }
  }

  lemma KeptStep(items: seq<WalkEvent>, keep: seq<bool>, i: nat)
    requires i < |items| == |keep|
    ensures Kept(items[..i + 1], keep[..i + 1]) == Kept(items[..i], keep[..i]) + if keep[i] then [items[i]] else []
  {
    assert items[..i + 1][..i] == items[..i] && keep[..i + 1][..i] == keep[..i];
  }

  lemma KeptFit(items: seq<WalkEvent>, keep: seq<bool>)
    requires |items| == |keep| && AllFit(items)
    ensures AllFit(Kept(items, keep))
  {
    hide WellFormed;
    var k := Kept(items, keep);
    forall j | 0 <= j < |k| ensures WellFormed(k[j].rec) { assert k[j] in items; }
  }

  /** The replay loop that passes over records whose flag is clear. */
  method ReplayKept(items: seq<WalkEvent>, keep: seq<bool>, mac: (Bytes, Bytes) -> Bytes)
    returns (r: Result<Bytes>, ghost lapsed: bool)
    requires |items| == |keep| && AllFit(items) && IsMac(mac)
    ensures AllFit(Kept(items, keep))
    ensures lapsed ==> r.Error?
    ensures !lapsed ==> r == Output(Kept(items, keep), None, mac)
  {
    hide WellFormed, Representable, Ended, Added, Finish, ReplayItem, Kept, AllFit, Replayed;
    KeptFit(items, keep);
    var w := new Writer.Encoder();
    var sectionOpen: bool, curSection: nat := false, 0;
    ghost var done: seq<WalkEvent> := [];
    StartsEmpty(items, keep);
    for i := 0 to |items|
      invariant w.Valid() && fresh(w) && fresh(w.tlv)
      invariant done == Kept(items[..i], keep[..i]) && AllFit(done) && Replayed(done) == Ok(w.View())
      invariant sectionOpen <==> done != []
      invariant done != [] ==> curSection == done[|done| - 1].sectionIndex
    {
      KeptStep(items, keep, i);
      if !keep[i] {
        continue;
      }
      FitsNext(items, i, done);
      var rc, bad := ReplayOne(w, items[i], sectionOpen, curSection);
      done := done + [items[i]];
      if rc.Some? {
        if !bad { KeptFailsEarly(items, keep, i + 1, done, rc.value); }
        return Error(rc.value), bad;
      }
      sectionOpen, curSection := true, items[i].sectionIndex;
    }
    assert items[..|items|] == items && keep[..|items|] == keep;
    if sectionOpen {
      w.EndSection();
      if w.err.Some? {
        return Error(w.err.value), w.lapse.Some?;
      }
    }
    r := w.FinishLog(mac);
    return r, w.lapse.Some?;
  }

  lemma KeptFailsEarly(items: seq<WalkEvent>, keep: seq<bool>, i: nat, done: seq<WalkEvent>, e: Err)
    requires i <= |items| == |keep| && AllFit(items) && AllFit(done) && AllFit(Kept(items, keep))
    requires done == Kept(items[..i], keep[..i]) && Replayed(done) == Error(e)
    ensures Replayed(Kept(items, keep)) == Error(e)
  {
    hide WellFormed, Replayed, Kept;
    KeptPrefix(items, keep, i);
    var all := Kept(items, keep);
    assert all[..|done|] == done;
    FailsEarly(all, |done|, e);
  }

  lemma StartsEmpty(items: seq<WalkEvent>, keep: seq<bool>)
    ensures Kept([], []) == [] && AllFit([]) && Replayed([]) == Ok(INITIAL)
    ensures |items| == |keep| ==> items[..0] == [] && keep[..0] == []
  {
  }

  /** The next turn of the loop on `done`. */
  lemma FitsNext(items: seq<WalkEvent>, i: nat, done: seq<WalkEvent>)
    requires i < |items| && AllFit(items) && AllFit(done)
    ensures WellFormed(items[i].rec) && Representable(items[i].rec) && AllFit(done + [items[i]])
    ensures var next := done + [items[i]];
            Replayed(next) == match Replayed(done)
                              case Error(e) => Error(e)
                              case Ok(st) =>
                                ReplayItem(st, done != [],
                                           done != [] && done[|done| - 1].sectionIndex == items[i].sectionIndex, items[i])
  {
    hide WellFormed, Representable, ReplayItem;
    FitIsRepresentable(items[i].rec);
    var next := done + [items[i]];
    assert next[..|next| - 1] == done && next[|next| - 1] == items[i];
  }

  /** `dtl_dedup_file` between reading and writing the file. */
  method DedupMemory(data: Bytes, mac: (Bytes, Bytes) -> Bytes)
    returns (r: Result<Bytes>, dropped: nat, ghost lapsed: bool)
    requires IsMac(mac)
    ensures lapsed ==> r.Error?
    ensures !lapsed ==> r == Deduplicate(data, mac)
    ensures r.Ok? ==> dropped == Dropped(Mark(RecordsOf(Walk.Walk(data, 0).value.events)))
  {
    hide Walk.Walk, Output, Light, Grouped, Mark, Dropped, AllFit, Kept;
    dropped := 0;
    var seen := WalkMemory(data, 0);
    if seen.Error? {
      return Error(seen.err), 0, false;
    }
    var es := seen.value.events;
    WalkReplayable(data);
    KeepAll(es);
    UnchangedItems(es);
    var absorbed, ok := Absorb(es, All(|es|), None);
    if !ok {
      return Error(Oom), 0, true;
    }
    var items := new WalkEvent[|absorbed|](i requires 0 <= i < |absorbed| => absorbed[i]);
    var keep := new bool[|absorbed|](_ => true);
    assert keep[..] == All(|es|) && items[..] == es;
    dropped := MarkAll(items, keep);
    SelectedReplayable(es, keep[..], None);
    r, lapsed := ReplayKept(items[..], keep[..], mac);
  }
}
