/** JSON export of a record stream and import of a JSON document
    (src/report/export.c, src/report/jimport.c). */
module JsonTool {
  import opened Core
  import opened Records
  import opened Lex
  import opened JsonText
  import opened Json
  import opened JsonRecords
  import opened Walk
  import opened WriterSpec
  import opened Replay
  import opened Tools
  import opened Pipeline
  import opened ByTag
  import Codecs
  import Container
  import Eval
  import opened Dedup
  import Writer

  // ---- documents ----

  const NEWLINE: byte := 10
  const INDENT: Bytes := [10, 32, 32]

  function Lines(js: seq<Json>): Bytes {
    if js == [] then []
    else if |js| == 1 then INDENT + Show(js[0])
    else INDENT + Show(js[0]) + ([COMMA] + Lines(js[1..]))
  }

  const CLOSING: Bytes := [10, 93, 10]

  /** What `dtl_export_file` writes for these objects. */
  function Document(js: seq<Json>): Bytes { [OPEN_BRACKET] + (Lines(js) + CLOSING) }

  /** The items of an array that only white space follows. */
  function Whole(r: Read<Json>): Option<seq<Json>> {
    if r.None? || !r.value.0.Array? || SkipSpace(r.value.1) != [] then None else Some(r.value.0.items)
  }

  /** One array of values and nothing else. */
  function ParseDocument(data: Bytes): Option<seq<Json>> {
    var s := SkipSpace(data);
    if s == [] || s[0] != OPEN_BRACKET then None else Whole(Brackets(s[1..], 0))
  }

  lemma ItemsSkip(a: Bytes, b: Bytes, depth: nat)
    requires SkipSpace(a) == SkipSpace(b)
    ensures Items(a, depth) == Items(b, depth)
  {
    hide Brackets, Braces;
    assert ReadValue(a, depth) == ReadValue(b, depth);
  }

  lemma IndentSkip(s: Bytes)
    ensures SkipSpace(INDENT + s) == SkipSpace(s)
  {
    assert (INDENT + s)[1..] == [32, 32] + s;
    assert ([32, 32] + s)[1..] == [32] + s && ([32] + s)[1..] == s;
    assert SkipSpace([32] + s) == SkipSpace(s);
    assert SkipSpace([32, 32] + s) == SkipSpace([32] + s);
  }

  lemma ClosingSkip()
    ensures SkipSpace(CLOSING) == [CLOSE_BRACKET, NEWLINE] && SkipSpace([NEWLINE]) == []
  {
    assert CLOSING[1..] == [CLOSE_BRACKET, NEWLINE];
    assert [NEWLINE][1..] == [];
  }

  lemma {:induction false} LinesBack(js: seq<Json>)
    requires js != [] && forall j | j in js :: Writable(j, 0) && j.Object?
    ensures Items(Lines(js) + CLOSING, 0) == Some((js, [NEWLINE]))
    decreases |js|
  {
    hide Show, Writable, ReadValue, SkipSpace;
    var tail := if |js| == 1 then CLOSING else [COMMA] + (Lines(js[1..]) + CLOSING);
    var s := Show(js[0]) + tail;
    assert Lines(js) + CLOSING == INDENT + s;
    IndentSkip(s);
    ItemsSkip(INDENT + s, s, 0);
    ValueBack(js[0], tail, 0);
    if |js| > 1 {
      LinesBack(js[1..]);
      NoSpace(tail);
      assert tail[1..] == Lines(js[1..]) + CLOSING;
      assert js == [js[0]] + js[1..];
    } else {
      ClosingSkip();
      assert js == [js[0]] && [CLOSE_BRACKET, NEWLINE][1..] == [NEWLINE];
    }
  }

  lemma SkipTwice(s: Bytes)
    ensures SkipSpace(SkipSpace(s)) == SkipSpace(s)
  {
  }

  /** A written document is read back. */
  lemma DocumentBack(js: seq<Json>)
    requires forall j | j in js :: Writable(j, 0) && j.Object?
    ensures ParseDocument(Document(js)) == Some(js)
  {
    hide Items, Writable;
    var text := Lines(js) + CLOSING;
    var doc := Document(js);
    NoSpace(doc);
    assert doc[1..] == text;
    ClosingSkip();
    if js == [] {
      assert text == CLOSING && [CLOSE_BRACKET, NEWLINE][1..] == [NEWLINE];
    } else {
      LinesBack(js);
      LinesStart(js);
      SkipTwice(text);
      ItemsSkip(SkipSpace(text), text, 0);
    }
  }

  lemma ObjectStart(j: Json)
    requires j.Object?
    ensures Show(j) != [] && Show(j)[0] == OPEN_BRACE
  {
    hide ShowMembers;
  }

  lemma LinesStart(js: seq<Json>)
    requires js != [] && js[0].Object?
    ensures var s := SkipSpace(Lines(js) + CLOSING); s != [] && s[0] == OPEN_BRACE
  {
    hide Show, SkipSpace;
    var more := (if |js| == 1 then [] else [COMMA] + Lines(js[1..])) + CLOSING;
    var s := Show(js[0]) + more;
    ObjectStart(js[0]);
    assert Lines(js) + CLOSING == INDENT + s;
    assert s[0] == Show(js[0])[0];
    IndentSkip(s);
    NoSpace(s);
  }

  // ---- records ----

  lemma TailWritable(r: Record, float: u32 -> Bytes)
    requires !r.Sensor?
    ensures forall j | j in Tail(r, float) :: Writable(j, 1)
  {
    hide Dec, DecI, NumberText, Hex, ShowVersion;
    match r {
      case Heartbeat(a, b) => DecIsPlain(a, 0); DecIsPlain(b, 0);
      case Event(a, _) => DecIsPlain(a, 0);
      case Diag(a, _, _) => DecIsPlain(a, 0);
      case Geo(a, b, c) => DecIsPlain(0, a); DecIsPlain(0, b); DecIsPlain(0, c);
      case Battery(a, b, c) => DecIsPlain(a, b); DecIsPlain(c, 0);
      case Net(a, b, c, d, e) =>
        DecIsPlain(a, 0); DecIsPlain(b, 0); DecIsPlain(c, 0); DecIsPlain(d, 0); DecIsPlain(e, 0);
      case Log(a, _) => DecIsPlain(a, 0);
      case Config(_) =>
      case Keyref(a, _, _) => DecIsPlain(a, 0);
      case Firmware(_, _, _, _) =>
      case Unknown(_) =>
    }
  }

  lemma ObjectWritable(r: Record, index: nat, float: u32 -> Bytes)
    requires !r.Sensor?
    ensures Writable(ObjectOf(r, index, float), 0) && ObjectOf(r, index, float).Object?
  {
    hide Dec, DecI, NumberText, Tail, NamesOf;
    TailWritable(r, float);
    DecIsPlain(index, 0);
    DecIsPlain(TagOf(r), 0);
    var vs := ValuesOf(r, index, float);
    forall v | v in vs ensures Writable(v, 1) {}
    var ms := Labelled(NamesOf(r), vs);
    forall m | m in ms ensures Writable(m.1, 1) {
      var i :| 0 <= i < |ms| && ms[i] == m;
      assert m.1 == vs[i];
    }
  }

  function Objects(rs: seq<Record>, float: u32 -> Bytes): (js: seq<Json>)
    ensures |js| == |rs| && forall k | 0 <= k < |js| :: js[k] == ObjectOf(rs[k], k, float)
  {
    seq(|rs|, k requires 0 <= k < |rs| => ObjectOf(rs[k], k, float))
  }

  /** The exported text of a record stream. */
  function Export(rs: seq<Record>, float: u32 -> Bytes): Bytes { Document(Objects(rs, float)) }

  function ImportObjects(js: seq<Json>, strtof: Bytes -> Option<u32>): (r: Result<seq<Record>>)
    ensures r.Ok? ==> |r.value| == |js|
  {
    if js == [] then Ok([])
    else
      var n := |js| - 1;
      var before :- ImportObjects(js[..n], strtof);
      var rec :- ImportRecord(js[n], strtof);
      Ok(before + [rec])
  }

  /** The records of a JSON document. */
  function ImportText(data: Bytes, strtof: Bytes -> Option<u32>): Result<seq<Record>> {
    match ParseDocument(data)
    case None => Error(BadRecord)
    case Some(js) => ImportObjects(js, strtof)
  }

  /** Records whose text form is in the scope of the round trip. */
  predicate Textual(r: Record) { Representable(r) && !r.Sensor? && !r.Unknown? }

  function TextForms(rs: seq<Record>): (s: seq<Record>)
    ensures |s| == |rs| && forall i | 0 <= i < |s| :: s[i] == TextForm(rs[i])
  {
    seq(|rs|, i requires 0 <= i < |rs| => TextForm(rs[i]))
  }

  lemma {:induction false} ObjectsBack(js: seq<Json>, rs: seq<Record>, float: u32 -> Bytes, strtof: Bytes -> Option<u32>)
    requires |js| == |rs| && forall k | 0 <= k < |rs| :: js[k] == ObjectOf(rs[k], k, float) && Textual(rs[k])
    ensures ImportObjects(js, strtof) == Ok(TextForms(rs))
  {
    hide Textual, ObjectOf, ImportRecord, TextForm;
    if js != [] {
      var n := |js| - 1;
      ObjectsBack(js[..n], rs[..n], float, strtof);
      assert ImportRecord(js[n], strtof) == Ok(TextForm(rs[n])) by {
        assert Textual(rs[n]);
        TextualBack(rs[n], n, float, strtof);
      }
      assert TextForms(rs) == TextForms(rs[..n]) + [TextForm(rs[n])];
    }
  }

  lemma TextualBack(r: Record, k: nat, float: u32 -> Bytes, strtof: Bytes -> Option<u32>)
    requires Textual(r)
    ensures ImportRecord(ObjectOf(r, k, float), strtof) == Ok(TextForm(r))
  {
    ImportBack(r, k, float, strtof);
  }

  /** Export followed by import: every record in order, in its text form, so the
      records themselves exactly when all of them are safe as text. */
  lemma TextRoundTrip(rs: seq<Record>, float: u32 -> Bytes, strtof: Bytes -> Option<u32>)
    requires forall k | 0 <= k < |rs| :: Textual(rs[k])
    ensures ImportText(Export(rs, float), strtof) == Ok(TextForms(rs))
    ensures ImportText(Export(rs, float), strtof) == Ok(rs) <==> forall k | 0 <= k < |rs| :: TextSafe(rs[k])
  {
    hide Textual, Document, ParseDocument, ObjectOf, ImportObjects, TextForm, TextSafe, Writable;
    var js := Objects(rs, float);
    forall j | j in js ensures Writable(j, 0) && j.Object? {
      var k :| 0 <= k < |js| && js[k] == j;
      NotSensor(rs[k]);
      ObjectWritable(rs[k], k, float);
    }
    DocumentBack(js);
    ObjectsBack(js, rs, float, strtof);
    forall k | 0 <= k < |rs| ensures TextForm(rs[k]) == rs[k] <==> TextSafe(rs[k]) { TextFormSame(rs[k]); }
    if forall k | 0 <= k < |rs| :: TextSafe(rs[k]) {
      assert TextForms(rs) == rs;
    }
    if TextForms(rs) == rs {
      forall k | 0 <= k < |rs| ensures TextSafe(rs[k]) { assert TextForms(rs)[k] == rs[k]; }
    }
  }

  lemma NotSensor(r: Record)
    requires Textual(r)
    ensures !r.Sensor?
  {
  }

  // ---- into a container ----

  const IMPORT_TYPE: u16 := 1

  /** The writer after these objects: one STORE section, opened by the first. */
  function ImportState(js: seq<Json>, strtof: Bytes -> Option<u32>): (r: Result<State>)
    ensures r.Ok? ==> r.value.Active?
  {
    if js == [] then Ok(INITIAL)
    else
      var n := |js| - 1;
      var st :- ImportState(js[..n], strtof);
      ImportOne(st, js[n], n > 0, strtof)
  }

  /** One turn of the import loop. */
  function ImportOne(st: State, j: Json, isOpen: bool, strtof: Bytes -> Option<u32>): (r: Result<State>)
    requires st.Active?
    ensures r.Ok? ==> r.value.Active?
  {
    var rec :- ImportRecord(j, strtof);
    var st1 := if isOpen then st else Do(st, Begin(IMPORT_TYPE, Codecs.STORE));
    if st1.Failed? then Error(Oom) else Need(Do(st1, AddRecord(rec)))
  }

  /** `dtl_import_json_memory` */
  function Import(data: Bytes, strtof: Bytes -> Option<u32>, mac: (Bytes, Bytes) -> Bytes): Result<Bytes> {
    match ParseDocument(data)
    case None => Error(BadRecord)
    case Some(js) =>
      var st :- ImportState(js, strtof);
      var st1 :- if js != [] then Need(Do(st, Call.End)) else Ok(st);
      Finish(st1, mac)
  }

  function Imported(rs: seq<Record>): (es: seq<WalkEvent>)
    ensures |es| == |rs| && forall k | 0 <= k < |es| :: es[k] == WalkEvent(IMPORT_TYPE, Codecs.STORE, 0, 0, 0, rs[k])
  {
    seq(|rs|, k requires 0 <= k < |rs| => WalkEvent(IMPORT_TYPE, Codecs.STORE, 0, 0, 0, rs[k]))
  }

  lemma ImportedFit(rs: seq<Record>)
    requires AllWell(rs)
    ensures AllFit(Imported(rs))
  {
    hide WellFormed;
    forall k | 0 <= k < |rs| ensures WellFormed(Imported(rs)[k].rec) { assert rs[k] in rs; }
  }

  lemma {:induction false} ImportIsReplay(js: seq<Json>, rs: seq<Record>, strtof: Bytes -> Option<u32>)
    requires AllWell(rs) && ImportObjects(js, strtof) == Ok(rs)
    ensures AllFit(Imported(rs)) && ImportState(js, strtof) == Replayed(Imported(rs))
    decreases |js|
  {
    hide WellFormed, ImportRecord, Do, Need;
    ImportedFit(rs);
    if js != [] {
      var n := |js| - 1;
      assert rs[..n] == ImportObjects(js[..n], strtof).value;
      ImportIsReplay(js[..n], rs[..n], strtof);
      var es := Imported(rs);
      assert es[..n] == Imported(rs[..n]) && es[n].rec == rs[n];
    }
  }

  lemma {:induction false} ImportedWeight(rs: seq<Record>, si: nat)
    requires AllWell(rs)
    ensures AllFit(Imported(rs)) && Weight(Imported(rs), si) == if si == 0 then Total(rs) else 0
  {
    hide WellFormed;
    ImportedFit(rs);
    if rs != [] {
      var n := |rs| - 1;
      assert rs[n] in rs;
      ImportedWeight(rs[..n], si);
      assert Imported(rs)[..n] == Imported(rs[..n]);
    }
  }

  lemma ImportedLight(rs: seq<Record>)
    requires AllWell(rs)
    ensures AllFit(Imported(rs)) && Grouped(Imported(rs))
    ensures Light(Imported(rs), DEFAULT_MAX_DECODE) <==> Total(rs) <= DEFAULT_MAX_DECODE
  {
    hide WellFormed, Weight, Total;
    ImportedFit(rs);
    forall si: nat ensures Weight(Imported(rs), si) == if si == 0 then Total(rs) else 0 { ImportedWeight(rs, si); }
    if Light(Imported(rs), DEFAULT_MAX_DECODE) { assert Weight(Imported(rs), 0) <= DEFAULT_MAX_DECODE; }
  }

  lemma TextFormWell(r: Record)
    requires WellFormed(r)
    ensures WellFormed(TextForm(r))
  {
    match r
    case Log(_, msg) => assert |CStr(msg)| <= |msg|;
    case Keyref(_, text, redacted) => assert |CStr(Shown(redacted, text))| <= |text|;
    case Config(pairs) => CanonPairBytes(pairs);
    case _ =>
  }

  lemma TextFormsWell(rs: seq<Record>)
    requires AllWell(rs)
    ensures AllWell(TextForms(rs))
  {
    hide WellFormed, TextForm;
    forall x | x in TextForms(rs) ensures WellFormed(x) {
      var k :| 0 <= k < |rs| && TextForms(rs)[k] == x;
      assert rs[k] in rs;
      TextFormWell(rs[k]);
    }
  }

  /** Export, import and walk, for any records but SENSOR: their text forms come back,
      in order, in one section, exactly when that section fits what a walk decodes. */
  lemma ContainerRoundTrip(rs: seq<Record>, float: u32 -> Bytes, strtof: Bytes -> Option<u32>, mac: (Bytes, Bytes) -> Bytes)
    requires AllWell(rs) && IsMac(mac) && forall k | 0 <= k < |rs| :: Textual(rs[k])
    requires Import(Export(rs, float), strtof, mac).Ok?
    ensures Carries(Import(Export(rs, float), strtof, mac).value, Imported(TextForms(rs)))
            <==> Total(TextForms(rs)) <= DEFAULT_MAX_DECODE
  {
    hide WellFormed, Textual, TextForm, Carries, Export, ParseDocument, Total, Weight, Finish, Do, ImportObjects, ImportState,
         Replayed, Grouped, Light;
    TextRoundTrip(rs, float, strtof);
    TextFormsWell(rs);
    var js := ParseDocument(Export(rs, float)).value;
    ImportIsReplay(js, TextForms(rs), strtof);
    ImportedLight(TextForms(rs));
    assert |js| == |rs|;
    ReplayFaithfulIff(Imported(TextForms(rs)), None, mac);
  }

  /** For records off the wire the text form is its own wire form. */
  lemma TextCanon(r: Record)
    requires Unredacted(r)
    ensures Canon(TextForm(r)) == r <==> TextSafe(r)
  {
    TextFormSame(r);
    if r.Config? {
      CanonPairsSame(r.pairs);
      CanonTwice(r.pairs);
    }
  }

  lemma {:induction false} CanonTwice(pairs: seq<(Bytes, Bytes)>)
    ensures CanonPairs(CanonPairs(pairs)) == CanonPairs(pairs)
  {
    if pairs != [] {
      CanonTwice(pairs[1..]);
      CStrTwice(pairs[0].0);
      CStrTwice(pairs[0].1);
      assert CanonPairs(pairs)[1..] == CanonPairs(pairs[1..]);
    }
  }

  /** A successful import is the replay of the text forms. */
  lemma ImportIsOutput(rs: seq<Record>, float: u32 -> Bytes, strtof: Bytes -> Option<u32>, mac: (Bytes, Bytes) -> Bytes)
    requires AllWell(rs) && forall k | 0 <= k < |rs| :: Textual(rs[k])
    ensures AllFit(Imported(TextForms(rs))) && Import(Export(rs, float), strtof, mac) == Output(Imported(TextForms(rs)), None, mac)
  {
    hide WellFormed, Textual, TextForm, Export, ParseDocument, Total, Finish, Do, ImportObjects, ImportState, Replayed;
    TextRoundTrip(rs, float, strtof);
    TextFormsWell(rs);
    var js := ParseDocument(Export(rs, float)).value;
    ImportIsReplay(js, TextForms(rs), strtof);
    assert |js| == |rs|;
  }

  /** An import too large for one section to be walked is lost as a whole. */
  lemma HeavyImportLost(rs: seq<Record>, mac: (Bytes, Bytes) -> Bytes)
    requires AllWell(rs) && AllFit(Imported(rs)) && IsMac(mac) && Output(Imported(rs), None, mac).Ok?
    requires Total(rs) > DEFAULT_MAX_DECODE
    ensures rs != []
    ensures var w := Walk.Walk(Output(Imported(rs), None, mac).value, 0); w.Ok? && w.value.events == []
  {
    hide WellFormed, Output, Walk.Walk, Light, Grouped;
    ImportedLight(rs);
    OverweightLost(Imported(rs), None, mac, 0);
  }

  /** Walk a container without SENSOR records, export what is seen, import the text and
      walk the result: the same records exactly when none has a NUL in a string and
      together they fit one section that can be walked. */
  lemma WalkExportImportWalk(data: Bytes, float: u32 -> Bytes, strtof: Bytes -> Option<u32>, mac: (Bytes, Bytes) -> Bytes)
    requires Walk.Walk(data, 0).Ok? && IsMac(mac)
    requires var rs := RecordsOf(Walk.Walk(data, 0).value.events);
             (forall k | 0 <= k < |rs| :: !rs[k].Sensor?) && Import(Export(rs, float), strtof, mac).Ok?
    ensures var rs := RecordsOf(Walk.Walk(data, 0).value.events);
            var w := Walk.Walk(Import(Export(rs, float), strtof, mac).value, 0);
            && w.Ok?
            && (Total(TextForms(rs)) <= DEFAULT_MAX_DECODE ==> w.value.faults == [] && |w.value.events| == |rs|)
            && (Total(TextForms(rs)) > DEFAULT_MAX_DECODE ==> w.value.events == [] && rs != [])
            && (RecordsOf(w.value.events) == rs <==>
                  Total(TextForms(rs)) <= DEFAULT_MAX_DECODE && forall k | 0 <= k < |rs| :: TextSafe(rs[k]))
  {
    hide WellFormed, Walk.Walk, Import, Export, Total, TextForm, TextSafe, Canon, Unredacted, Container.Parse, Weight, Output,
         Textual;
    var rs := RecordsOf(Walk.Walk(data, 0).value.events);
    WalkReplayable(data);
    WalkUnredacted(data);
    forall k | 0 <= k < |rs| ensures Textual(rs[k]) && WellFormed(rs[k]) { WellTextual(rs[k]); }
    ImportIsOutput(rs, float, strtof, mac);
    TextFormsWell(rs);
    if Total(TextForms(rs)) <= DEFAULT_MAX_DECODE {
      ContainerRoundTrip(rs, float, strtof, mac);
      CarriesMeans(Import(Export(rs, float), strtof, mac).value, Imported(TextForms(rs)));
      var out := RecordsOf(Walk.Walk(Import(Export(rs, float), strtof, mac).value, 0).value.events);
      forall k | 0 <= k < |rs| ensures out[k] == rs[k] <==> TextSafe(rs[k]) {
        assert out[k] == Canon(TextForms(rs)[k]);
        TextCanon(rs[k]);
      }
    } else {
      HeavyImportLost(TextForms(rs), mac);
    }
  }

  lemma WellTextual(r: Record)
    requires WellFormed(r) && !r.Sensor?
    ensures Textual(r)
  {
  }
}

/** Which texts are documents for the importer. */
module JsonDocument {
  import opened Core
  import opened Lex
  import opened Records
  import opened QueryText
  import opened Json
  import opened JsonGrammar
  import JsonTool

  /** Blanks, one array and blanks; the array itself does not count as nested. */
  ghost predicate IsDocument(data: Bytes, js: seq<Json>, gap: Bytes, d: Doc, tail: Bytes) {
    && Blanks(gap) && Blanks(tail) && data == gap + (Text(d) + tail)
    && match d
       case EmptyArrayD(inner) => Blanks(inner) && js == []
       case ArrayD(items) => items != [] && js == ItemTrees(items) && forall x | x in items :: GoodSlot(x, 0)
       case _ => false
  }

  lemma ArrayRead(d: Doc, js: seq<Json>, gap: Bytes, tail: Bytes)
    requires IsDocument(gap + (Text(d) + tail), js, gap, d, tail)
    ensures Text(d) != [] && Text(d)[0] == OPEN_BRACKET
    ensures Brackets((Text(d) + tail)[1..], 0) == Some((Array(js), tail))
  {
    hide Items, SkipSpace, Blanks, ItemTrees, ItemsText;
    var s := Text(d) + tail;
    match d
    case EmptyArrayD(inner) =>
      var close := [CLOSE_BRACKET] + tail;
      assert s[1..] == inner + close && close[1..] == tail;
      SkipsGap(inner, close);
    case ArrayD(items) =>
      var text := ItemsText(items) + ([CLOSE_BRACKET] + tail);
      assert s[1..] == text;
      ItemsRead(items, tail, 0);
      BracketsOf(text, 0);
  }

  lemma DocumentRead(data: Bytes, js: seq<Json>, gap: Bytes, d: Doc, tail: Bytes)
    requires IsDocument(data, js, gap, d, tail)
    ensures JsonTool.ParseDocument(data) == Some(js)
  {
    hide Brackets, Text, SkipSpace;
    ArrayRead(d, js, gap, tail);
    var s := Text(d) + tail;
    assert s[0] == OPEN_BRACKET;
    SkipsGap(gap, s);
    SkipsGap(tail, []);
    assert tail + [] == tail;
  }

  lemma ArrayOf(text: Bytes) returns (d: Doc)
    requires Brackets(text, 0).Some?
    ensures var (j, rest) := Brackets(text, 0).value;
            && j.Array? && Text(d) + rest == [OPEN_BRACKET] + text
            && match d
               case EmptyArrayD(inner) => Blanks(inner) && j.items == []
               case ArrayD(items) => items != [] && j.items == ItemTrees(items) && forall x | x in items :: GoodSlot(x, 0)
               case _ => false
  {
    hide Items, ItemsText, ItemTrees;
    var s := SkipSpace(text);
    var rest := Brackets(text, 0).value.1;
    if s != [] && s[0] == CLOSE_BRACKET {
      var gap := GapOf(text);
      d := EmptyArrayD(gap);
      assert s == [CLOSE_BRACKET] + rest;
      assert Text(d) + rest == [OPEN_BRACKET] + (gap + ([CLOSE_BRACKET] + rest));
    } else {
      BracketsOf2(text, 0);
      var items := ItemsOf(text, 0);
      d := ArrayD(items);
      assert Text(d) + rest == [OPEN_BRACKET] + (ItemsText(items) + ([CLOSE_BRACKET] + rest));
    }
  }

  lemma {:induction false} OnlyBlanks(s: Bytes)
    requires SkipSpace(s) == []
    ensures Blanks(s)
  {
    if s != [] { OnlyBlanks(s[1..]); }
  }

  lemma DocumentOf(data: Bytes) returns (gap: Bytes, d: Doc, tail: Bytes)
    requires JsonTool.ParseDocument(data).Some?
    ensures IsDocument(data, JsonTool.ParseDocument(data).value, gap, d, tail)
  {
    hide Brackets, Text, SkipSpace;
    var s := SkipSpace(data);
    gap := GapOf(data);
    d := ArrayOf(s[1..]);
    tail := Brackets(s[1..], 0).value.1;
    OnlyBlanks(tail);
    assert s == [OPEN_BRACKET] + s[1..];
  }

  /** The importer takes a text for an array of these values exactly when it is a
      derivation of one between blanks, and refuses every other text. */
  lemma DocumentIff(data: Bytes, js: seq<Json>, strtof: Bytes -> Option<u32>, mac: (Bytes, Bytes) -> Bytes)
    ensures JsonTool.ParseDocument(data) == Some(js) <==> exists gap, d, tail :: IsDocument(data, js, gap, d, tail)
    ensures JsonTool.ParseDocument(data) == None ==> JsonTool.Import(data, strtof, mac) == Error(BadRecord)
  {
    hide JsonTool.ParseDocument, IsDocument;
    if JsonTool.ParseDocument(data) == Some(js) {
      var gap, d, tail := DocumentOf(data);
    }
    if exists gap, d, tail :: IsDocument(data, js, gap, d, tail) {
      var gap, d, tail :| IsDocument(data, js, gap, d, tail);
      DocumentRead(data, js, gap, d, tail);
    }
  }
}
