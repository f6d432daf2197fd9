/** The decode pipeline that every reporting tool shares (src/report/walk.c). */
module Walk {
  import opened Core
  import opened Buffer
  import opened Records
  import Container
  import Codecs
  import Tlv

  const DEFAULT_MAX_DECODE := 16 * 1024 * 1024

  /** What the record callback is handed. */
  datatype WalkEvent = WalkEvent(sectionType: u16, codec: byte, sectionIndex: nat, recordInSec: nat, recordIndex: nat,
                         rec: Record)

  /** What the error callback is handed. */
  datatype Fault = Fault(sectionIndex: nat, recordInSec: nat, rc: Err, fatal: bool)

  /** Both kinds of callback, each in order. How the two interleave is told by their
      section index and ordinal within the section, which they share; two walks that
      are equal here agree in it. */
  datatype Seen = Seen(events: seq<WalkEvent>, faults: seq<Fault>)

  function Join(a: Seen, b: Seen): Seen { Seen(a.events + b.events, a.faults + b.faults) }

  const NOTHING := Seen([], [])

  // ---- one section ----

  /** The decompressed stream of a section, or the error for which it is abandoned. */
  function Raw(s: Container.Section, maxDecode: nat): Result<Bytes> {
    match Codecs.Get(s.codec)
    case None => Error(BadRecord)
    case Some(c) => if s.rawLen > maxDecode then Error(Range) else Codecs.Decode(c, s.blob, s.rawLen)
  }

  function Open(s: Container.Section, maxDecode: nat): Result<seq<Result<Record>>> {
    var raw :- Raw(s, maxDecode);
    Ok(Tlv.Items(raw))
  }

  /** Callbacks for the items of a section: a payload error is reported, takes an
      ordinal within the section and no global one, and the walk goes on. */
  function Visit(items: seq<Result<Record>>, ty: u16, codec: byte, si: nat, inSec: nat, index: nat): Seen {
    if items == [] then NOTHING
    else match items[0]
      case Ok(rec) =>
        Join(Seen([WalkEvent(ty, codec, si, inSec, index, rec)], []), Visit(items[1..], ty, codec, si, inSec + 1, index + 1))
      case Error(e) =>
        Join(Seen([], [Fault(si, inSec, e, false)]), Visit(items[1..], ty, codec, si, inSec + 1, index))
  }

  function SectionSeen(s: Container.Section, si: nat, index: nat, maxDecode: nat): Seen {
    match Open(s, maxDecode)
    case Error(e) => Seen([], [Fault(si, 0, e, true)])
    case Ok(items) => Visit(items, s.ty, s.codec, si, 0, index)
  }

  // ---- the whole container ----

  function Sections(ss: seq<Container.Section>, si: nat, index: nat, maxDecode: nat): Seen {
    if ss == [] then NOTHING
    else
      var first := SectionSeen(ss[0], si, index, maxDecode);
      Join(first, Sections(ss[1..], si + 1, index + |first.events|, maxDecode))
  }

  /** `dtl_walk_memory` with callbacks that always continue. */
  function Walk(data: Bytes, maxDecode: nat): Result<Seen> {
    var c :- Container.Parse(data);
    Ok(Sections(c.sections, 0, 0, if maxDecode == 0 then DEFAULT_MAX_DECODE else maxDecode))
  }

  // ---- the documented walk ----

  /** Callbacks the header promises for a stream: the section ends at its first
      payload error, and a stream that stops inside an item is reported. The two
      header comments leave open whether a payload error counts as abandoning the
      stream; `fatal` is what its report says. */
  function DocumentedVisit(items: seq<Result<Record>>, whole: bool, ty: u16, codec: byte, si: nat, inSec: nat, index: nat,
                           fatal: bool): Seen
  {
    if items == [] then (if whole then NOTHING else Seen([], [Fault(si, inSec, Truncated, true)]))
    else match items[0]
      case Ok(rec) =>
        Join(Seen([WalkEvent(ty, codec, si, inSec, index, rec)], []),
             DocumentedVisit(items[1..], whole, ty, codec, si, inSec + 1, index + 1, fatal))
      case Error(e) => Seen([], [Fault(si, inSec, e, fatal)])
  }

  function DocumentedSection(s: Container.Section, si: nat, index: nat, maxDecode: nat, fatal: bool): Seen {
    match Raw(s, maxDecode)
    case Error(e) => Seen([], [Fault(si, 0, e, true)])
    case Ok(raw) => DocumentedVisit(Tlv.Items(raw), Tlv.Count(raw).1, s.ty, s.codec, si, 0, index, fatal)
  }

  function DocumentedSections(ss: seq<Container.Section>, si: nat, index: nat, maxDecode: nat, fatal: bool): Seen {
    if ss == [] then NOTHING
    else
      var first := DocumentedSection(ss[0], si, index, maxDecode, fatal);
      Join(first, DocumentedSections(ss[1..], si + 1, index + |first.events|, maxDecode, fatal))
  }

  function DocumentedWalk(data: Bytes, maxDecode: nat, fatal: bool): Result<Seen> {
    var c :- Container.Parse(data);
    Ok(DocumentedSections(c.sections, 0, 0, if maxDecode == 0 then DEFAULT_MAX_DECODE else maxDecode, fatal))
  }

  /** No item follows a payload error, and the stream ends on an item boundary or at
      a payload error; a last payload error is tolerable only if not called fatal. */
  predicate Conforms(items: seq<Result<Record>>, whole: bool, fatal: bool) {
    && (forall i | 0 <= i < |items| - 1 :: items[i].Ok?)
    && if items != [] && items[|items| - 1].Error? then !fatal else whole
  }

  /** A section that is opened has such a stream. */
  predicate SectionConforms(s: Container.Section, maxDecode: nat, fatal: bool) {
    match Raw(s, maxDecode)
    case Error(_) => true
    case Ok(raw) => Conforms(Tlv.Items(raw), Tlv.Count(raw).1, fatal)
  }

  lemma JoinCancel(a: Seen, b: Seen, c: Seen)
    ensures Join(a, b) == Join(a, c) <==> b == c
  {
    if Join(a, b) == Join(a, c) {
      assert (a.events + b.events)[|a.events|..] == b.events && (a.events + c.events)[|a.events|..] == c.events;
      assert (a.faults + b.faults)[|a.faults|..] == b.faults && (a.faults + c.faults)[|a.faults|..] == c.faults;
    }
  }

  lemma {:induction false} VisitSize(items: seq<Result<Record>>, ty: u16, codec: byte, si: nat, inSec: nat, index: nat)
    ensures var v := Visit(items, ty, codec, si, inSec, index); |v.events| + |v.faults| == |items|
    decreases |items|
  {
    if items != [] {
      VisitSize(items[1..], ty, codec, si, inSec + 1, if items[0].Ok? then index + 1 else index);
    }
  }

  lemma ConformsRest(items: seq<Result<Record>>, whole: bool, fatal: bool)
    requires items != [] && items[0].Ok?
    ensures Conforms(items, whole, fatal) <==> Conforms(items[1..], whole, fatal)
  {
    var rest := items[1..];
    assert forall i | 0 <= i < |rest| :: rest[i] == items[i + 1];
    if Conforms(rest, whole, fatal) {
      forall i | 0 <= i < |items| - 1 ensures items[i].Ok? {
        if i > 0 { assert items[i] == rest[i - 1]; }
      }
    }
  }

  lemma {:induction false} VisitAgrees(items: seq<Result<Record>>, whole: bool, ty: u16, codec: byte, si: nat, inSec: nat,
                                       index: nat, fatal: bool)
    ensures DocumentedVisit(items, whole, ty, codec, si, inSec, index, fatal) == Visit(items, ty, codec, si, inSec, index)
            <==> Conforms(items, whole, fatal)
    decreases |items|
  {
    if items != [] {
      match items[0]
      case Ok(rec) =>
        hide Conforms;
        ConformsRest(items, whole, fatal);
        VisitAgrees(items[1..], whole, ty, codec, si, inSec + 1, index + 1, fatal);
        JoinCancel(Seen([WalkEvent(ty, codec, si, inSec, index, rec)], []),
                   DocumentedVisit(items[1..], whole, ty, codec, si, inSec + 1, index + 1, fatal),
                   Visit(items[1..], ty, codec, si, inSec + 1, index + 1));
      case Error(e) =>
        var rest := Visit(items[1..], ty, codec, si, inSec + 1, index);
        VisitSize(items[1..], ty, codec, si, inSec + 1, index);
        if |items| == 1 {
          var one := Seen([], [Fault(si, inSec, e, false)]);
          assert rest == NOTHING && one.events + [] == one.events && one.faults + [] == one.faults;
        }
    }
  }

  /** All callbacks are of this section, or of later ones. */
  ghost predicate Here(a: Seen, si: nat) {
    (forall k | 0 <= k < |a.events| :: a.events[k].sectionIndex == si) &&
    (forall k | 0 <= k < |a.faults| :: a.faults[k].sectionIndex == si)
  }

  ghost predicate From(a: Seen, si: nat) {
    (forall k | 0 <= k < |a.events| :: a.events[k].sectionIndex >= si) &&
    (forall k | 0 <= k < |a.faults| :: a.faults[k].sectionIndex >= si)
  }

  lemma {:induction false} VisitHere(items: seq<Result<Record>>, whole: bool, ty: u16, codec: byte, si: nat, inSec: nat,
                                     index: nat, fatal: bool)
    ensures Here(Visit(items, ty, codec, si, inSec, index), si)
    ensures Here(DocumentedVisit(items, whole, ty, codec, si, inSec, index, fatal), si)
    decreases |items|
  {
    if items != [] {
      VisitHere(items[1..], whole, ty, codec, si, inSec + 1, if items[0].Ok? then index + 1 else index, fatal);
    }
  }

  lemma SectionHere(s: Container.Section, si: nat, index: nat, maxDecode: nat, fatal: bool)
    ensures Here(SectionSeen(s, si, index, maxDecode), si) && Here(DocumentedSection(s, si, index, maxDecode, fatal), si)
    ensures DocumentedSection(s, si, index, maxDecode, fatal) == SectionSeen(s, si, index, maxDecode)
            <==> SectionConforms(s, maxDecode, fatal)
  {
    hide Raw, Visit, DocumentedVisit, Conforms, Here;
    match Raw(s, maxDecode)
    case Error(e) => FaultHere(si, e);
    case Ok(raw) =>
      VisitHere(Tlv.Items(raw), Tlv.Count(raw).1, s.ty, s.codec, si, 0, index, fatal);
      VisitAgrees(Tlv.Items(raw), Tlv.Count(raw).1, s.ty, s.codec, si, 0, index, fatal);
  }

  lemma FaultHere(si: nat, e: Err)
    ensures Here(Seen([], [Fault(si, 0, e, true)]), si)
  {
  }

  /** Length of the leading part that satisfies `p`. */
  ghost function Leading<T(!new)>(s: seq<T>, p: T -> bool): (n: nat)
    ensures n <= |s|
  {
    if s != [] && p(s[0]) then 1 + Leading(s[1..], p) else 0
  }

  lemma {:induction false} LeadingIs<T(!new)>(a: seq<T>, b: seq<T>, p: T -> bool)
    requires (forall x | x in a :: p(x)) && (b != [] ==> !p(b[0]))
    ensures Leading(a + b, p) == |a|
  {
    if a == [] {
      assert a + b == b;
    } else {
      assert (a + b)[1..] == a[1..] + b;
      LeadingIs(a[1..], b, p);
    }
  }

  /** Callbacks of one section can be told from those of later sections. */
  lemma JoinSeparates(a: Seen, b: Seen, c: Seen, d: Seen, si: nat)
    requires Here(a, si) && Here(c, si) && From(b, si + 1) && From(d, si + 1)
    ensures Join(a, b) == Join(c, d) <==> a == c && b == d
  {
    var p, q := (e: WalkEvent) => e.sectionIndex == si, (f: Fault) => f.sectionIndex == si;
    LeadingIs(a.events, b.events, p);
    LeadingIs(c.events, d.events, p);
    LeadingIs(a.faults, b.faults, q);
    LeadingIs(c.faults, d.faults, q);
    if Join(a, b) == Join(c, d) {
      assert (a.events + b.events)[..|a.events|] == a.events && (c.events + d.events)[..|c.events|] == c.events;
      assert (a.faults + b.faults)[..|a.faults|] == a.faults && (c.faults + d.faults)[..|c.faults|] == c.faults;
      assert a == c;
      JoinCancel(a, b, d);
    }
  }

  lemma JoinFrom(a: Seen, b: Seen, si: nat)
    requires Here(a, si) && From(b, si + 1)
    ensures From(Join(a, b), si)
  {
  }

  lemma {:induction false} SectionsAgree(ss: seq<Container.Section>, si: nat, index: nat, maxDecode: nat, fatal: bool)
    ensures From(Sections(ss, si, index, maxDecode), si) && From(DocumentedSections(ss, si, index, maxDecode, fatal), si)
    ensures DocumentedSections(ss, si, index, maxDecode, fatal) == Sections(ss, si, index, maxDecode)
            <==> forall i | 0 <= i < |ss| :: SectionConforms(ss[i], maxDecode, fatal)
    decreases |ss|
  {
    hide SectionSeen, DocumentedSection, SectionConforms, Here, From;
    if ss == [] {
      NothingFrom(si);
    } else {
      var a, c := DocumentedSection(ss[0], si, index, maxDecode, fatal), SectionSeen(ss[0], si, index, maxDecode);
      var b := DocumentedSections(ss[1..], si + 1, index + |a.events|, maxDecode, fatal);
      var d := Sections(ss[1..], si + 1, index + |c.events|, maxDecode);
      SectionHere(ss[0], si, index, maxDecode, fatal);
      SectionsAgree(ss[1..], si + 1, index + |a.events|, maxDecode, fatal);
      SectionsAgree(ss[1..], si + 1, index + |c.events|, maxDecode, fatal);
      JoinSeparates(a, b, c, d, si);
      JoinFrom(a, b, si);
      JoinFrom(c, d, si);
      assert ss == [ss[0]] + ss[1..];
      assert forall i | 0 <= i < |ss[1..]| :: ss[1..][i] == ss[i + 1];
      assert forall i | 1 <= i < |ss| :: ss[i] == ss[1..][i - 1];
    }
  }

  lemma NothingFrom(si: nat)
    ensures From(NOTHING, si)
  {
  }

  /** On every input: the walk makes exactly the documented callbacks if and only if
      every section it opens conforms. */
  lemma DocumentedWalkIff(data: Bytes, maxDecode: nat, fatal: bool)
    ensures var limit := if maxDecode == 0 then DEFAULT_MAX_DECODE else maxDecode;
            DocumentedWalk(data, maxDecode, fatal) == Walk(data, maxDecode)
            <==> (Container.Parse(data).Ok? ==>
                    forall i | 0 <= i < |Container.Parse(data).value.sections| ::
                      SectionConforms(Container.Parse(data).value.sections[i], limit, fatal))
  {
    hide Container.Parse, SectionConforms, Sections, DocumentedSections;
    if Container.Parse(data).Ok? {
      SectionsAgree(Container.Parse(data).value.sections, 0, 0,
                    if maxDecode == 0 then DEFAULT_MAX_DECODE else maxDecode, fatal);
    }
  }

  // ---- two containers on which they differ ----

  /** A container with one STORE section. */
  function Stored(raw: Bytes): Bytes
    requires 0 < |raw| <= 0xFFFF
  {
    Container.Body([Container.Packed(1, Codecs.STORE, |raw|, raw)], 0)
  }

  lemma StoredParses(raw: Bytes)
    requires 0 < |raw| <= 0xFFFF
    ensures var ps := [Container.Packed(1, Codecs.STORE, |raw|, raw)];
            Container.Parse(Stored(raw)) == Ok(Container.Parsed(0, Container.Sections(ps), None))
  {
    hide Container.Parse, Container.Body;
    var ps := [Container.Packed(1, Codecs.STORE, |raw|, raw)];
    assert ps[1..] == [] && Container.Blobs(ps) == raw + Container.Blobs([]) == raw;
    Container.LayoutBack(ps, None);
    assert Container.Body(ps, 0) + [] == Container.Body(ps, 0);
  }

  lemma StoredWalk(raw: Bytes, fatal: bool)
    requires 0 < |raw| <= 0xFFFF
    ensures Walk(Stored(raw), 0) == Ok(Visit(Tlv.Items(raw), 1, 0, 0, 0, 0))
    ensures DocumentedWalk(Stored(raw), 0, fatal)
         == Ok(DocumentedVisit(Tlv.Items(raw), Tlv.Count(raw).1, 1, 0, 0, 0, 0, fatal))
  {
    hide Container.Parse, Stored, Visit, DocumentedVisit, Tlv.Items;
    StoredParses(raw);
    var ps := [Container.Packed(1, Codecs.STORE, |raw|, raw)];
    var ss := Container.Sections(ps);
    assert ss[0] == Container.Section(1, 0, |raw|, raw) && ss[1..] == [];
    assert Raw(ss[0], DEFAULT_MAX_DECODE) == Ok(raw);
    var v := Visit(Tlv.Items(raw), 1, 0, 0, 0, 0);
    var w := DocumentedVisit(Tlv.Items(raw), Tlv.Count(raw).1, 1, 0, 0, 0, 0, fatal);
    assert Sections(ss, 0, 0, DEFAULT_MAX_DECODE) == Join(v, NOTHING);
    assert DocumentedSections(ss, 0, 0, DEFAULT_MAX_DECODE, fatal) == Join(w, NOTHING);
    assert v.events + [] == v.events && v.faults + [] == v.faults;
    assert w.events + [] == w.events && w.faults + [] == w.faults;
  }

  /** A stream that stops after a tag byte: the header promises a report, the walk
      makes none. */
  lemma FragmentExample(fatal: bool)
    ensures Walk(Stored([0x10]), 0) == Ok(NOTHING)
    ensures DocumentedWalk(Stored([0x10]), 0, fatal) == Ok(Seen([], [Fault(0, 0, Truncated, true)]))
  {
    hide Walk, DocumentedWalk, Stored;
    StoredWalk([0x10], fatal);
    assert Tlv.TakeItem([0x10]).Error?;
  }

  /** An item of an unknown type before a good one: the header ends the section, the
      walk goes on to the second item. */
  lemma PayloadErrorExample(fatal: bool)
    ensures var raw: Bytes := [0, 0, 0, 0x12, 4, 0, 7, 0, 0, 0];
            && Walk(Stored(raw), 0)
                 == Ok(Seen([WalkEvent(1, 0, 0, 1, 0, Event(7, []))], [Fault(0, 0, BadRecord, false)]))
            && DocumentedWalk(Stored(raw), 0, fatal) == Ok(Seen([], [Fault(0, 0, BadRecord, fatal)]))
  {
    hide Walk, DocumentedWalk, Stored;
    var raw: Bytes := [0, 0, 0, 0x12, 4, 0, 7, 0, 0, 0];
    StoredWalk(raw, fatal);
    BadThenGood();
    VisitTwo(BadRecord, Event(7, []));
  }

  lemma VisitTwo(e: Err, r: Record)
    ensures Visit([Error(e), Ok(r)], 1, 0, 0, 0, 0) == Seen([WalkEvent(1, 0, 0, 1, 0, r)], [Fault(0, 0, e, false)])
  {
    var items: seq<Result<Record>> := [Error(e), Ok(r)];
    assert items[1..] == [Ok(r)] && items[1..][1..] == [];
    assert Visit(items[1..], 1, 0, 0, 1, 0) == Join(Seen([WalkEvent(1, 0, 0, 1, 0, r)], []), NOTHING);
  }

  lemma BadThenGood()
    ensures Tlv.Items([0, 0, 0, 0x12, 4, 0, 7, 0, 0, 0]) == [Error(BadRecord), Ok(Event(7, []))]
  {
    var i, j := Tlv.Item(0, []), Tlv.Item(0x12, [7, 0, 0, 0]);
    var tail: Bytes := [0x12, 4, 0, 7, 0, 0, 0];
    assert Tlv.ItemBytes(i) + tail == [0, 0, 0, 0x12, 4, 0, 7, 0, 0, 0] && Tlv.ItemBytes(j) + [] == tail;
    hide Tlv.TakeItem, Tlv.ItemBytes, Tlv.Read;
    Tlv.ItemBack(i, tail);
    Tlv.ItemBack(j, []);
    ReadGood();
    NoItems();
  }

  lemma ReadGood()
    ensures Tlv.Read(Tlv.Item(0x12, [7, 0, 0, 0])) == Ok(Event(7, []))
    ensures Tlv.Read(Tlv.Item(0, [])) == Error(BadRecord)
  {
    assert [7, 0, 0, 0][2..] == [0, 0] && [0, 0][2..] == [];
  }

  lemma NoItems()
    ensures Tlv.Items([]) == []
  {
  }

  // ---- invariants of every walk ----

  /** Records are numbered 0, 1, 2, ...; section indices never decrease and each
      section index stands for one type and codec. */
  ghost predicate Ordered(es: seq<WalkEvent>, si: nat, index: nat) {
    && (forall k | 0 <= k < |es| :: es[k].recordIndex == index + k && es[k].sectionIndex >= si)
    && (forall j, k | 0 <= j <= k < |es| :: es[j].sectionIndex <= es[k].sectionIndex)
    && (forall j, k | 0 <= j <= k < |es| && es[j].sectionIndex == es[k].sectionIndex ::
          es[j].sectionType == es[k].sectionType && es[j].codec == es[k].codec)
  }

  ghost predicate OneSection(es: seq<WalkEvent>, ty: u16, codec: byte, si: nat, index: nat) {
    forall k | 0 <= k < |es| ::
      es[k].recordIndex == index + k && es[k].sectionIndex == si && es[k].sectionType == ty && es[k].codec == codec
  }

  lemma {:induction false} VisitOne(items: seq<Result<Record>>, ty: u16, codec: byte, si: nat, inSec: nat, index: nat)
    ensures OneSection(Visit(items, ty, codec, si, inSec, index).events, ty, codec, si, index)
    decreases |items|
  {
    if items != [] {
      match items[0]
      case Ok(_) => VisitOne(items[1..], ty, codec, si, inSec + 1, index + 1);
      case Error(_) => VisitOne(items[1..], ty, codec, si, inSec + 1, index);
    }
  }

  lemma JoinOrdered(a: seq<WalkEvent>, b: seq<WalkEvent>, ty: u16, codec: byte, si: nat, index: nat)
    requires OneSection(a, ty, codec, si, index) && Ordered(b, si + 1, index + |a|)
    ensures Ordered(a + b, si, index)
  {
    var c := a + b;
    forall k | 0 <= k < |c| ensures c[k].recordIndex == index + k && c[k].sectionIndex >= si {
      if k >= |a| { assert c[k] == b[k - |a|]; }
    }
    forall j, k | 0 <= j <= k < |c|
      ensures c[j].sectionIndex <= c[k].sectionIndex
      ensures c[j].sectionIndex == c[k].sectionIndex ==>
                c[j].sectionType == c[k].sectionType && c[j].codec == c[k].codec
    {
      if j >= |a| {
        assert c[j] == b[j - |a|] && c[k] == b[k - |a|];
      } else if k >= |a| {
        assert c[j] == a[j] && c[k] == b[k - |a|];
      }
    }
  }

  lemma SectionOne(s: Container.Section, si: nat, index: nat, maxDecode: nat)
    ensures OneSection(SectionSeen(s, si, index, maxDecode).events, s.ty, s.codec, si, index)
  {
    match Open(s, maxDecode)
    case Error(_) =>
    case Ok(items) => VisitOne(items, s.ty, s.codec, si, 0, index);
  }

  lemma {:induction false} SectionsOrdered(ss: seq<Container.Section>, si: nat, index: nat, maxDecode: nat)
    ensures Ordered(Sections(ss, si, index, maxDecode).events, si, index)
    decreases |ss|
  {
    hide SectionSeen;
    if ss != [] {
      var first := SectionSeen(ss[0], si, index, maxDecode);
      SectionOne(ss[0], si, index, maxDecode);
      SectionsOrdered(ss[1..], si + 1, index + |first.events|, maxDecode);
      JoinOrdered(first.events, Sections(ss[1..], si + 1, index + |first.events|, maxDecode).events,
                  ss[0].ty, ss[0].codec, si, index);
    }
  }

  /** Every walk that succeeds numbers and groups its records consistently. */
  lemma WalkOrdered(data: Bytes, maxDecode: nat)
    requires Walk(data, maxDecode).Ok?
    ensures Ordered(Walk(data, maxDecode).value.events, 0, 0)
  {
    SectionsOrdered(Container.Parse(data).value.sections, 0, 0,
                    if maxDecode == 0 then DEFAULT_MAX_DECODE else maxDecode);
  }

  // ---- the loops ----

  lemma JoinAssoc(a: Seen, b: Seen, c: Seen)
    ensures Join(a, Join(b, c)) == Join(Join(a, b), c)
    ensures Join(NOTHING, a) == a
  {
    Assoc(a.events, b.events, c.events);
    Assoc(a.faults, b.faults, c.faults);
    assert [] + a.events == a.events && [] + a.faults == a.faults;
  }

  /** The inner loop: one section stream, TRUNCATED meaning no more records. */
  method WalkStream(raw: Bytes, ty: u16, codec: byte, si: nat, index: nat) returns (seen: Seen)
    ensures seen == Visit(Tlv.Items(raw), ty, codec, si, 0, index)
  {
    var stream := new Cursor(raw);
    var inSec: nat, recordIndex: nat := 0, index;
    ghost var goal := Visit(Tlv.Items(raw), ty, codec, si, 0, index);
    seen := NOTHING;
    JoinAssoc(goal, NOTHING, NOTHING);
    while true
      invariant stream.Valid()
      invariant goal == Join(seen, Visit(Tlv.Items(stream.Rest()), ty, codec, si, inSec, recordIndex))
      decreases |stream.data| - stream.pos
    {
      ghost var items := Tlv.Items(stream.Rest());
      var item := Tlv.Next(stream);
      if item.Error? {
        assert items == [] && seen.events + [] == seen.events && seen.faults + [] == seen.faults;
        break;
      }
      assert items == [Tlv.Read(item.value)] + Tlv.Items(stream.Rest());
      var rec := Tlv.ParseRecord(item.value);
      match rec {
        case Error(e) =>
          ghost var one := Seen([], [Fault(si, inSec, e, false)]);
          JoinAssoc(seen, one, Visit(items[1..], ty, codec, si, inSec + 1, recordIndex));
          seen := Seen(seen.events, seen.faults + [Fault(si, inSec, e, false)]);
          assert seen.events + [] == seen.events;
        case Ok(r) =>
          ghost var one := Seen([WalkEvent(ty, codec, si, inSec, recordIndex, r)], []);
          JoinAssoc(seen, one, Visit(items[1..], ty, codec, si, inSec + 1, recordIndex + 1));
          seen := Seen(seen.events + [WalkEvent(ty, codec, si, inSec, recordIndex, r)], seen.faults);
          assert seen.faults + [] == seen.faults;
          recordIndex := recordIndex + 1;
      }
      inSec := inSec + 1;
    }
  }

  /** One turn of the section loop. */
  method WalkSection(s: Container.Section, si: nat, index: nat, maxDecode: nat) returns (seen: Seen)
    ensures seen == SectionSeen(s, si, index, maxDecode)
  {
    var c := Codecs.Get(s.codec);
    if c.None? {
      return Seen([], [Fault(si, 0, BadRecord, true)]);
    }
    if s.rawLen > maxDecode {
      return Seen([], [Fault(si, 0, Range, true)]);
    }
    var raw := new byte[s.rawLen](_ => 0);
    var got := Codecs.DecodeInto(c.value, s.blob, raw);
    if got.Error? {
      return Seen([], [Fault(si, 0, got.err, true)]);
    }
    seen := WalkStream(raw[..got.value], s.ty, s.codec, si, index);
  }

  method WalkMemory(data: Bytes, maxDecode: nat) returns (r: Result<Seen>)
    ensures r == Walk(data, maxDecode)
  {
    hide SectionSeen, Container.Parse;
    var cont := Container.ParseContainer(data);
    if cont.Error? {
      return Error(cont.err);
    }
    var limit := if maxDecode == 0 then DEFAULT_MAX_DECODE else maxDecode;
    var ss := cont.value.sections;
    var seen := NOTHING;
    ghost var goal := Sections(ss, 0, 0, limit);
    assert ss[0..] == ss;
    JoinAssoc(goal, NOTHING, NOTHING);
    for si := 0 to |ss|
      invariant goal == Join(seen, Sections(ss[si..], si, |seen.events|, limit))
    {
      var one := WalkSection(ss[si], si, |seen.events|, limit);
      assert ss[si..][1..] == ss[si + 1..];
      JoinAssoc(seen, one, Sections(ss[si + 1..], si + 1, |seen.events| + |one.events|, limit));
      seen := Join(seen, one);
    }
    assert seen.events + [] == seen.events && seen.faults + [] == seen.faults;
    return Ok(seen);
  }
}
