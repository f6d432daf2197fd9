/** Containers that the writer makes and the walk does not decode: one section over the
    walker's default limit (src/writer/writer.c:295-300, src/report/walk.c:76-79). */
module Heavy {
  import opened Core
  import opened Records
  import opened Walk
  import opened WriterSpec
  import opened Replay
  import opened Tools
  import opened Pipeline
  import opened ByTag
  import opened Dedup
  import opened SplitMerge
  import opened SplitRoundTrip
  import opened Success
  import opened JsonRecords
  import opened JsonTool
  import Codecs
  import Container
  import Tlv

  /** An EVENT whose payload is as large as a TLV can be. */
  function Big(): Record { Event(0, seq(65531, _ => 0)) }

  function Bigs(n: nat): seq<Record> { seq(n, _ => Big()) }

  const MANY := 257

  lemma BigSize()
    ensures WellFormed(Big()) && Representable(Big()) && |Tlv.RecordBytes(Big())| == 65538 && TagOf(Big()) == 0x12
    ensures Canon(Big()) == Big() && Textual(Big()) && TextForm(Big()) == Big()
  {
  }

  /** One planned section of `n` such records. */
  ghost predicate OnePlan(ps: seq<Planned>, n: nat) {
    |ps| == 1 && ps[0].codec == Codecs.STORE && |ps[0].raw| == 65538 * n
  }

  lemma BigsStep(n: nat)
    ensures Bigs(n + 1)[..n] == Bigs(n) && Bigs(n + 1) == Bigs(n) + [Big()]
  {
  }

  lemma {:induction false} BigsWeigh(n: nat)
    ensures AllWell(Bigs(n)) && Total(Bigs(n)) == 65538 * n && OfTag(Bigs(n), 0x12) == Bigs(n)
  {
    hide WellFormed, TagOf, Tlv.RecordBytes, Representable, Textual, Canon, TextForm;
    BigSize();
    if n > 0 {
      BigsWeigh(n - 1);
      BigsStep(n - 1);
      assert forall x | x in Bigs(n) :: x == Big();
    }
  }

  /** Items of one source section. */
  function Items(n: nat, si: nat): (es: seq<WalkEvent>)
    ensures |es| == n && forall i | 0 <= i < n :: es[i] == WalkEvent(1, Codecs.STORE, si, 0, 0, Big())
  {
    seq(n, _ => WalkEvent(1, Codecs.STORE, si, 0, 0, Big()))
  }

  lemma ItemsFit(n: nat, si: nat)
    ensures AllFit(Items(n, si)) && Grouped(Items(n, si))
  {
    hide WellFormed, Big;
    assert WellFormed(Big()) by { BigSize(); }
  }

  lemma {:induction false} ItemsWeigh(n: nat, si: nat, sj: nat)
    ensures AllFit(Items(n, si)) && Weight(Items(n, si), sj) == if sj == si then 65538 * n else 0
  {
    hide WellFormed, Big, Tlv.RecordBytes;
    ItemsFit(n, si);
    assert |Tlv.RecordBytes(Big())| == 65538 by { BigSize(); }
    if n > 0 {
      ItemsWeigh(n - 1, si, sj);
      assert Items(n, si)[..n - 1] == Items(n - 1, si);
    }
  }

  lemma {:induction false} ItemsPlan(n: nat, si: nat)
    requires n > 0
    ensures AllFit(Items(n, si)) && OnePlan(Plan(Items(n, si)), n)
  {
    hide WellFormed, Big, Tlv.RecordBytes;
    ItemsFit(n, si);
    ItemsFit(n - 1, si);
    assert WellFormed(Big()) && |Tlv.RecordBytes(Big())| == 65538 by { BigSize(); }
    assert Items(n, si)[..n - 1] == Items(n - 1, si);
    if n == 1 {
      assert Plan(Items(0, si)) == [];
    } else {
      ItemsPlan(n - 1, si);
    }
  }

  lemma StoreWritable(ps: seq<Planned>, n: nat)
    requires OnePlan(ps, n) && 0 < n <= 1000
    ensures Stores(ps)
  {
  }

  lemma ItemsWritable(n: nat, si: nat, mac: (Bytes, Bytes) -> Bytes)
    requires 0 < n <= 1000
    ensures AllFit(Items(n, si)) && Output(Items(n, si), None, mac).Ok?
  {
    hide WellFormed, Big, Plan, Output, Packable, Container.Blobs;
    ItemsPlan(n, si);
    StoreWritable(Plan(Items(n, si)), n);
    StoreBlobs(Plan(Items(n, si)));
    OutputIff(Items(n, si), None, mac);
  }

  /** A writer run of 257 such records in one STORE section: every call succeeds and
      finishing does, but the walk abandons the section. */
  lemma HeavyRun(mac: (Bytes, Bytes) -> Bytes)
    requires IsMac(mac)
    ensures var t := Smooth(Calls(Items(MANY, 0)) + [End]);
            && ValidTrace(t) && Finish(Run(t), mac).Ok?
            && var w := Walk.Walk(Finish(Run(t), mac).value, 0);
            w.Ok? && Abandons(w.value) && w.value.events == []
  {
    hide WellFormed, Big, Output, Calls, Finish, Run, Walk.Walk, Abandons, Weight, Grouped, Smooth;
    var items := Items(MANY, 0);
    ItemsWritable(MANY, 0, mac);
    ItemsFit(MANY, 0);
    assert !Light(items, DEFAULT_MAX_DECODE) by {
      ItemsWeigh(MANY, 0, 0);
      assert Weight(items, 0) > DEFAULT_MAX_DECODE;
    }
    OutputIsRun(items, None, mac);
    assert Closing(items, None) == [End];
    OutputAbandonsIff(items, None, mac);
    OverweightLost(items, None, mac, 0);
  }

  // ---- split and import make such sections from legal ones ----

  /** The same records in two sections that can both be walked. */
  function Halves(): seq<WalkEvent> { Items(128, 0) + Items(129, 1) }

  lemma HalvesFit()
    ensures AllFit(Halves()) && Grouped(Halves()) && Light(Halves(), DEFAULT_MAX_DECODE)
  {
    hide WellFormed, Big, Weight;
    ItemsFit(128, 0);
    ItemsFit(129, 1);
    forall si: nat ensures AllFit(Halves()) && Weight(Halves(), si) <= DEFAULT_MAX_DECODE {
      ItemsWeigh(128, 0, si);
      ItemsWeigh(129, 1, si);
      WeightConcat(Items(128, 0), Items(129, 1), si);
    }
    assert AllFit(Halves()) by { WeightConcat(Items(128, 0), Items(129, 1), 0); }
  }

  lemma PlanItem(a: seq<WalkEvent>, it: WalkEvent)
    requires AllFit(a) && WellFormed(it.rec)
    ensures AllFit(a + [it])
    ensures Plan(a + [it]) == PlanStep(Plan(a), a != [] && a[|a| - 1].sectionIndex == it.sectionIndex, it)
  {
    hide WellFormed, PlanStep;
    var c := a + [it];
    assert c[..|c| - 1] == a && c[|c| - 1] == it;
  }

  lemma NewSection(ps: seq<Planned>, it: WalkEvent)
    requires WellFormed(it.rec)
    ensures PlanStep(ps, false, it) == ps + PlanStep([], false, it) && |PlanStep([], false, it)| == 1
  {
    hide WellFormed, Tlv.RecordBytes;
  }

  lemma {:induction false} PlanConcat(a: seq<WalkEvent>, n: nat, si: nat)
    requires n > 0 && AllFit(a) && (a != [] ==> a[|a| - 1].sectionIndex != si)
    ensures AllFit(Items(n, si)) && AllFit(a + Items(n, si))
    ensures |Plan(Items(n, si))| == 1 && Plan(a + Items(n, si)) == Plan(a) + Plan(Items(n, si))
  {
    hide WellFormed, Big, Plan, PlanStep;
    ItemsFit(n, si);
    ItemsFit(n - 1, si);
    var b0, it := Items(n - 1, si), Items(n, si)[n - 1];
    assert WellFormed(it.rec) by { BigSize(); }
    var c := a + b0;
    assert Items(n, si) == b0 + [it] && a + Items(n, si) == c + [it];
    PlanItem(b0, it);
    PlanItem(c, it);
    if n == 1 {
      assert c == a && b0 == [];
      NoBlobs();
      NewSection(Plan(a), it);
    } else {
      assert c[|c| - 1] == b0[n - 2];
      PlanConcat(a, n - 1, si);
      StepAppends(Plan(a), Plan(b0), it);
    }
  }

  lemma HalvesWritable(mac: (Bytes, Bytes) -> Bytes)
    ensures AllFit(Halves()) && Output(Halves(), None, mac).Ok?
  {
    hide WellFormed, Big, Plan, Output, Packable, Container.Blobs, Grouped, Light;
    HalvesFit();
    ItemsFit(128, 0);
    ItemsPlan(128, 0);
    ItemsPlan(129, 1);
    PlanConcat(Items(128, 0), 129, 1);
    var ps := Plan(Halves());
    StoreWritable(Plan(Items(128, 0)), 128);
    StoreWritable(Plan(Items(129, 1)), 129);
    assert ps == [Plan(Items(128, 0))[0], Plan(Items(129, 1))[0]];
    assert Stores(ps);
    StoreBlobs(ps);
    OutputIff(Halves(), None, mac);
  }

  /** A container of two sections that the walk reads in full: 257 records of one tag. */
  lemma HalvesWalk(mac: (Bytes, Bytes) -> Bytes)
    requires IsMac(mac)
    ensures AllFit(Halves()) && Output(Halves(), None, mac).Ok?
    ensures var w := Walk.Walk(Output(Halves(), None, mac).value, 0);
            w.Ok? && w.value.faults == [] && RecordsOf(w.value.events) == Bigs(MANY)
  {
    hide WellFormed, Big, Output, Walk.Walk, Carries, Light, Grouped, Canon;
    HalvesWritable(mac);
    HalvesFit();
    ReplayFaithful(Halves(), None, mac);
    CarriesMeans(Output(Halves(), None, mac).value, Halves());
    assert Canon(Big()) == Big() by { BigSize(); }
    var es := Walk.Walk(Output(Halves(), None, mac).value, 0).value.events;
    forall i | 0 <= i < |es| ensures RecordsOf(es)[i] == Bigs(MANY)[i] { assert es[i].rec == Canon(Halves()[i].rec); }
  }

  lemma EventsPlan(n: nat)
    requires n > 0
    ensures AllWell(Bigs(n)) && AllFit(Events(Bigs(n))) && OnePlan(Plan(Events(Bigs(n))), n)
    decreases n
  {
    hide WellFormed, Big, Tlv.RecordBytes;
    assert WellFormed(Big()) && |Tlv.RecordBytes(Big())| == 65538 by { BigSize(); }
    assert AllWell(Bigs(n)) && AllWell(Bigs(n - 1));
    EventsFit(Bigs(n));
    EventsFit(Bigs(n - 1));
    assert Events(Bigs(n))[..n - 1] == Events(Bigs(n - 1)) by { BigsStep(n - 1); }
    if n == 1 {
      assert Plan(Events(Bigs(0))) == [];
    } else {
      EventsPlan(n - 1);
    }
  }

  /** That container splits into one file, which cannot be walked: merging it does not
      give back what merging the container gives. */
  lemma HeavySplit(mac: (Bytes, Bytes) -> Bytes)
    requires IsMac(mac)
    ensures AllFit(Halves()) && Output(Halves(), None, mac).Ok? && AllWell(Bigs(MANY)) && SplitOut(Bigs(MANY), 0x12, mac).Ok?
    ensures var data, file := Output(Halves(), None, mac).value, SplitOut(Bigs(MANY), 0x12, mac).value;
            IsSplit(data, [0x12], [file], mac) && Intended([file], mac) != Intended([data], mac)
  {
    hide WellFormed, Big, Output, Walk.Walk, Plan, Packable, Total, OfTag, Intended, Container.Blobs, TagOf;
    HalvesWalk(mac);
    BigsWeigh(MANY);
    EventsPlan(MANY);
    StoreWritable(Plan(Events(Bigs(MANY))), MANY);
    StoreBlobs(Plan(Events(Bigs(MANY))));
    OutputIff(Events(Bigs(MANY)), None, mac);
    var data, file := Output(Halves(), None, mac).value, SplitOut(Bigs(MANY), 0x12, mac).value;
    assert forall x | x in Bigs(MANY) :: TagOf(x) == 0x12 by { assert TagOf(Big()) == 0x12 by { BigSize(); } }
    assert IsSplit(data, [0x12], [file], mac);
    assert !EachTagFits(Bigs(MANY)) by { assert Total(OfTag(Bigs(MANY), 0x12)) > DEFAULT_MAX_DECODE; }
    SplitThenMerge(data, [0x12], [file], mac);
  }

  lemma ImportedPlan(n: nat)
    ensures Imported(Bigs(n)) == Items(n, 0)
  {
  }

  /** Exporting and importing it gives a container whose one section cannot be walked. */
  lemma HeavyImport(float: u32 -> Bytes, strtof: Bytes -> Option<u32>, mac: (Bytes, Bytes) -> Bytes)
    requires IsMac(mac)
    ensures Import(Export(Bigs(MANY), float), strtof, mac).Ok?
    ensures var w := Walk.Walk(Import(Export(Bigs(MANY), float), strtof, mac).value, 0); w.Ok? && w.value.events == []
  {
    hide WellFormed, Big, Output, Walk.Walk, Import, Export, Total, TextForm, Textual, OfTag;
    BigsWeigh(MANY);
    assert Textual(Big()) && TextForm(Big()) == Big() by { BigSize(); }
    assert TextForms(Bigs(MANY)) == Bigs(MANY);
    ImportIsOutput(Bigs(MANY), float, strtof, mac);
    ImportedPlan(MANY);
    ItemsWritable(MANY, 0, mac);
    HeavyImportLost(Bigs(MANY), mac);
  }
}
