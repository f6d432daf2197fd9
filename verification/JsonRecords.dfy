/** Records as JSON objects: what the exporter writes and what the importer makes of
    it (src/report/export.c, src/report/jimport.c). */
module JsonRecords {
  import opened Core
  import opened Records
  import opened JsonText
  import opened Json
  import Eval

  // ---- export ----

  function TypeName(tag: byte): string { if KnownTag(tag) then Eval.TYPE_NAMES[tag - 0x10] else "UNKNOWN" }

  const BASE := ["index", "tag", "type"]

  /** Field names of a record object, in the order they are written. */
  function NamesOf(r: Record): seq<string> {
    match r
    case Heartbeat(_, _) => ["index", "tag", "type", "uptime_s", "seq"]
    case Sensor(_, _) => ["index", "tag", "type", "sensor_id", "samples"]
    case Event(_, _) => ["index", "tag", "type", "code", "payload_hex"]
    case Diag(_, _, _) => ["index", "tag", "type", "subsystem", "redacted", "blob_hex"]
    case Geo(_, _, _) => ["index", "tag", "type", "lat_e7", "lon_e7", "alt_mm"]
    case Battery(_, _, _) => ["index", "tag", "type", "pct", "temp_c_e1", "cycles"]
    case Net(_, _, _, _, _) => ["index", "tag", "type", "iface_id", "rx_bytes", "tx_bytes", "rx_pkts", "tx_pkts"]
    case Log(_, _) => ["index", "tag", "type", "severity", "msg"]
    case Config(_) => ["index", "tag", "type", "pairs"]
    case Keyref(_, _, _) => ["index", "tag", "type", "slot_id", "redacted", "label"]
    case Firmware(_, _, _, _) => ["index", "tag", "type", "version", "hash_hex"]
    case Unknown(_) => BASE
  }

  function Shown(redacted: bool, s: Bytes): Bytes { if redacted then [] else s }

  function PairObject(pairs: seq<(Bytes, Bytes)>): (ms: seq<(Bytes, Json)>)
    ensures |ms| == |pairs|
    ensures forall i | 0 <= i < |ms| :: ms[i] == (CStr(pairs[i].0), String(CStr(pairs[i].1)))
  {
    seq(|pairs|, i requires 0 <= i < |pairs| => (CStr(pairs[i].0), String(CStr(pairs[i].1))))
  }

  function Samples(samples: seq<u32>, float: u32 -> Bytes): (js: seq<Json>)
    ensures |js| == |samples| && forall i | 0 <= i < |js| :: js[i] == Number(float(samples[i]))
  {
    seq(|samples|, i requires 0 <= i < |samples| => Number(float(samples[i])))
  }

  /** The type-specific values; `float` prints a sample. */
  function Tail(r: Record, float: u32 -> Bytes): seq<Json> {
    match r
    case Heartbeat(uptime, seqNo) => [Number(Dec(uptime)), Number(Dec(seqNo))]
    case Sensor(id, samples) =>
      [Number(Dec(id)), Array(Samples(samples, float))]
    case Event(code, payload) => [Number(Dec(code)), String(Hex(payload))]
    case Diag(subsystem, blob, redacted) =>
      [Number(Dec(subsystem)), Bool(redacted), String(Hex(Shown(redacted, blob)))]
    case Geo(lat, lon, alt) => [Number(DecI(lat)), Number(DecI(lon)), Number(DecI(alt))]
    case Battery(pct, temp, cycles) => [Number(Dec(pct)), Number(DecI(temp)), Number(Dec(cycles))]
    case Net(iface, rxB, txB, rxP, txP) =>
      [Number(Dec(iface)), Number(Dec(rxB)), Number(Dec(txB)), Number(Dec(rxP)), Number(Dec(txP))]
    case Log(severity, msg) => [Number(Dec(severity)), String(msg)]
    case Config(pairs) => [Object(PairObject(pairs))]
    case Keyref(slot, text, redacted) => [Number(Dec(slot)), Bool(redacted), String(Shown(redacted, text))]
    case Firmware(major, minor, patch, hash) => [String(ShowVersion(major, minor, patch)), String(Hex(hash))]
    case Unknown(_) => []
  }

  function ValuesOf(r: Record, index: nat, float: u32 -> Bytes): (vs: seq<Json>)
    ensures |vs| == |NamesOf(r)|
  {
    [Number(Dec(index)), Number(Dec(TagOf(r))), String(Ascii(TypeName(TagOf(r))))] + Tail(r, float)
  }

  function Labelled(ns: seq<string>, vs: seq<Json>): (ms: seq<(Bytes, Json)>)
    requires |ns| == |vs|
    ensures |ms| == |ns| && forall i | 0 <= i < |ms| :: ms[i] == (Ascii(ns[i]), vs[i])
  {
    seq(|ns|, i requires 0 <= i < |ns| => (Ascii(ns[i]), vs[i]))
  }

  /** The object that `dtl_export_json_record` writes. */
  function ObjectOf(r: Record, index: nat, float: u32 -> Bytes): Json {
    Object(Labelled(NamesOf(r), ValuesOf(r, index, float)))
  }

  // ---- import ----

  /** `dtl_json_get`: keys are compared as C strings, the first match counts. */
  function Find(ms: seq<(Bytes, Json)>, key: Bytes): Option<Json> {
    if ms == [] then None else if CStr(ms[0].0) == key then Some(ms[0].1) else Find(ms[1..], key)
  }

  function Get(j: Json, key: string): Option<Json> { if j.Object? then Find(j.members, Ascii(key)) else None }

  function GetU32(j: Json, key: string): Result<u32> {
    match Get(j, key)
    case Some(Number(t)) => if ToU32(t).Some? then Ok(ToU32(t).value) else Error(BadRecord)
    case _ => Error(BadRecord)
  }

  function GetI32(j: Json, key: string): Result<i32> {
    match Get(j, key)
    case Some(Number(t)) => if ToI32(t).Some? then Ok(ToI32(t).value) else Error(BadRecord)
    case _ => Error(BadRecord)
  }

  function GetBool(j: Json, key: string): Result<bool> {
    match Get(j, key)
    case Some(Bool(b)) => Ok(b)
    case _ => Error(BadRecord)
  }

  /** A string member, as the C string it becomes. */
  function GetStr(j: Json, key: string): Option<Bytes> {
    match Get(j, key)
    case Some(String(s)) => Some(CStr(s))
    case _ => None
  }

  function NeedStr(s: Option<Bytes>): Result<Bytes> { if s.Some? then Ok(s.value) else Error(BadRecord) }

  /** `dtl_json_hex` into `cap` bytes. */
  function HexInto(hex: Bytes, cap: nat): (r: Result<Bytes>)
    ensures r.Ok? ==> |r.value| <= cap
  {
    if |hex| % 2 != 0 || |hex| / 2 > cap then Error(BadRecord)
    else
      UnhexLength(hex);
      match Unhex(hex) case None => Error(BadRecord) case Some(b) => Ok(b)
  }

  lemma {:induction false} UnhexLength(s: Bytes)
    ensures Unhex(s).Some? ==> |s| == 2 * |Unhex(s).value|
  {
    if |s| >= 2 { UnhexLength(s[2..]); }
  }

  /** At most `most`, else a schema error. */
  function Within(v: int, most: nat): Result<nat> { if 0 <= v <= most then Ok(v) else Error(BadRecord) }

  /** The pairs of a CONFIG object go to an array of `room` entries. */
  function ReadPairs(ms: seq<(Bytes, Json)>, room: nat): (r: Result<seq<(Bytes, Bytes)>>)
    ensures r.Ok? ==> |r.value| == |ms| <= room
  {
    if ms == [] then Ok([])
    else if !ms[0].1.String? then Error(BadRecord)
    else if room == 0 then Error(OutOfBounds)
    else
      var more :- ReadPairs(ms[1..], room - 1);
      Ok([(CStr(ms[0].0), CStr(ms[0].1.s))] + more)
  }

  /** The array is sized by the low byte of the pair count. */
  function PairRoom(n: nat): nat { if n % 256 == 0 then 1 else n % 256 }

  function ImportConfig(j: Json): (r: Result<Record>)
    ensures r.Ok? ==> Representable(r.value)
  {
    match Get(j, "pairs")
    case Some(Object(ms)) =>
      if |ms| > 0xFFFF then Error(BadRecord)
      else
        var pairs :- ReadPairs(ms, PairRoom(|ms|));
        Ok(Config(pairs))
    case _ => Error(BadRecord)
  }

  /** Samples, through a reader of floating-point text. */
  function ReadSamples(items: seq<Json>, room: nat, strtof: Bytes -> Option<u32>): (r: Result<seq<u32>>)
    ensures r.Ok? ==> |r.value| == |items| <= room
  {
    if items == [] then Ok([])
    else if !items[0].Number? then Error(BadRecord)
    else if room == 0 then Error(OutOfBounds)
    else match strtof(items[0].text)
      case None => Error(BadRecord)
      case Some(x) =>
        var more :- ReadSamples(items[1..], room - 1, strtof);
        Ok([x] + more)
  }

  function ImportSensor(j: Json, strtof: Bytes -> Option<u32>): (r: Result<Record>)
    ensures r.Ok? ==> Representable(r.value)
  {
    var id :- GetU32(j, "sensor_id");
    var id :- Within(id, 0xFFFF);
    match Get(j, "samples")
    case Some(Array(items)) =>
      if |items| > 0xFFFF then Error(BadRecord)
      else
        var samples :- ReadSamples(items, PairRoom(|items|), strtof);
        Ok(Sensor(id, samples))
    case _ => Error(BadRecord)
  }

  function ImportEvent(j: Json): (r: Result<Record>)
    ensures r.Ok? ==> Representable(r.value)
  {
    var code :- GetU32(j, "code");
    var code :- Within(code, 0xFFFF);
    var hex :- NeedStr(GetStr(j, "payload_hex"));
    var payload :- HexInto(hex, |hex| / 2);
    if |payload| > 0xFFFF then Error(BadRecord) else Ok(Event(code, payload))
  }

  function ImportDiag(j: Json): (r: Result<Record>)
    ensures r.Ok? ==> Representable(r.value)
  {
    var sub :- GetU32(j, "subsystem");
    var redacted :- GetBool(j, "redacted");
    var sub :- Within(sub, 0xFFFF);
    var hex :- NeedStr(if redacted then Some([]) else GetStr(j, "blob_hex"));
    var blob :- HexInto(hex, |hex| / 2);
    if |blob| > 0xFFFF then Error(BadRecord) else Ok(Diag(sub, blob, redacted))
  }

  function ImportHeartbeat(j: Json): (r: Result<Record>)
    ensures r.Ok? ==> Representable(r.value)
  {
    var uptime :- GetU32(j, "uptime_s");
    var seqNo :- GetU32(j, "seq");
    Ok(Heartbeat(uptime, seqNo))
  }

  function ImportGeo(j: Json): (r: Result<Record>)
    ensures r.Ok? ==> Representable(r.value)
  {
    var lat :- GetI32(j, "lat_e7");
    var lon :- GetI32(j, "lon_e7");
    var alt :- GetI32(j, "alt_mm");
    Ok(Geo(lat, lon, alt))
  }

  function ImportBattery(j: Json): (r: Result<Record>)
    ensures r.Ok? ==> Representable(r.value)
  {
    var pct :- GetU32(j, "pct");
    var temp :- GetI32(j, "temp_c_e1");
    var cycles :- GetU32(j, "cycles");
    var pct :- Within(pct, 0xFF);
    if temp < -0x8000 || temp > 0x7FFF then Error(BadRecord) else Ok(Battery(pct, temp, cycles))
  }

  function ImportNet(j: Json): (r: Result<Record>)
    ensures r.Ok? ==> Representable(r.value)
  {
    var iface :- GetU32(j, "iface_id");
    var rxB :- GetU32(j, "rx_bytes");
    var txB :- GetU32(j, "tx_bytes");
    var rxP :- GetU32(j, "rx_pkts");
    var txP :- GetU32(j, "tx_pkts");
    var iface :- Within(iface, 0xFF);
    Ok(Net(iface, rxB, txB, rxP, txP))
  }

  function ImportLog(j: Json): (r: Result<Record>)
    ensures r.Ok? ==> Representable(r.value)
  {
    var severity :- GetU32(j, "severity");
    var severity :- Within(severity, 0xFF);
    var msg :- NeedStr(GetStr(j, "msg"));
    if |msg| > 0xFFFF then Error(BadRecord) else Ok(Log(severity, msg))
  }

  function ImportKeyref(j: Json): (r: Result<Record>)
    ensures r.Ok? ==> Representable(r.value)
  {
    var slot :- GetU32(j, "slot_id");
    var redacted :- GetBool(j, "redacted");
    var slot :- Within(slot, 0xFF);
    var s := GetStr(j, "label");
    var text := if s.None? || redacted then [] else s.value;
    if |text| > 0xFF then Error(BadRecord) else Ok(Keyref(slot, text, redacted))
  }

  function ImportFirmware(j: Json): (r: Result<Record>)
    ensures r.Ok? ==> Representable(r.value)
  {
    var ver :- NeedStr(GetStr(j, "version"));
    var hex :- NeedStr(GetStr(j, "hash_hex"));
    match ScanVersion(ver)
    case None => Error(BadRecord)
    case Some((mj, mi, pa)) =>
      if mj > 0xFFFF || mi > 0xFFFF || pa > 0xFFFF then Error(BadRecord)
      else
        var hash :- HexInto(hex, 8);
        if |hash| != 8 then Error(BadRecord) else Ok(Firmware(mj, mi, pa, hash))
  }

  /** `dtl_jimport_record`: the tag decides, the type name is ignored. */
  function ImportRecord(j: Json, strtof: Bytes -> Option<u32>): (r: Result<Record>)
    ensures r.Ok? ==> Representable(r.value)
  {
    var tag :- GetU32(j, "tag");
    if tag > 0xFF then Error(BadRecord)
    else if tag == 0x10 then ImportHeartbeat(j)
    else if tag == 0x11 then ImportSensor(j, strtof)
    else if tag == 0x12 then ImportEvent(j)
    else if tag == 0x13 then ImportDiag(j)
    else if tag == 0x14 then ImportGeo(j)
    else if tag == 0x15 then ImportBattery(j)
    else if tag == 0x16 then ImportNet(j)
    else if tag == 0x17 then ImportLog(j)
    else if tag == 0x18 then ImportConfig(j)
    else if tag == 0x19 then ImportKeyref(j)
    else if tag == 0x1A then ImportFirmware(j)
    else Error(BadRecord)
  }

  // ---- looking up what was written ----

  /** Printable, and without quotes or backslashes. */
  predicate IsAscii(k: string) {
    forall i | 0 <= i < |k| :: 32 as char <= k[i] < 127 as char && k[i] != 34 as char && k[i] != 92 as char
  }

  /** Enough of a name to tell the fields of one record apart. */
  function Signature(k: string): int
    requires |k| >= 2
  {
    |k| * 0x1_0000_0000 + (k[0] as int) * 0x1_0000 + k[1] as int
  }

  ghost predicate FieldNames(ns: seq<string>) {
    && (forall i | 0 <= i < |ns| :: |ns[i]| >= 2 && IsAscii(ns[i]))
    && (forall i, j | 0 <= i < j < |ns| :: Signature(ns[i]) != Signature(ns[j]))
  }

  lemma SignatureOfBytes(a: string, b: string)
    requires |a| >= 2 && |b| >= 2 && IsAscii(a) && IsAscii(b)
    ensures Ascii(a) == Ascii(b) ==> Signature(a) == Signature(b)
  {
    if Ascii(a) == Ascii(b) {
      assert |a| == |b| && a[0] as int == Ascii(a)[0] == b[0] as int && a[1] as int == Ascii(a)[1] == b[1] as int;
    }
  }

  lemma AsciiIsCStr(a: string)
    requires IsAscii(a)
    ensures CStr(Ascii(a)) == Ascii(a)
  {
    assert forall i | 0 <= i < |a| :: Ascii(a)[i] != 0;
  }

  lemma {:induction false} FindAt(ms: seq<(Bytes, Json)>, key: Bytes, i: nat)
    requires i < |ms| && CStr(ms[i].0) == key && forall k | 0 <= k < i :: CStr(ms[k].0) != key
    ensures Find(ms, key) == Some(ms[i].1)
  {
    hide CStr;
    if i > 0 { FindAt(ms[1..], key, i - 1); }
  }

  lemma LabelledFind(ns: seq<string>, vs: seq<Json>, i: nat)
    requires FieldNames(ns) && |ns| == |vs| && i < |ns|
    ensures Get(Object(Labelled(ns, vs)), ns[i]) == Some(vs[i])
  {
    hide Signature, IsAscii, CStr, Find;
    var ms := Labelled(ns, vs);
    AsciiIsCStr(ns[i]);
    forall k | 0 <= k < i ensures CStr(ms[k].0) != Ascii(ns[i]) {
      AsciiIsCStr(ns[k]);
      SignatureOfBytes(ns[k], ns[i]);
    }
    FindAt(ms, Ascii(ns[i]), i);
  }

  predicate Named(k: string, sig: int) { |k| >= 2 && IsAscii(k) && Signature(k) == sig }

  lemma BaseNames()
    ensures Named("index", 0x5_0069_006E) && Named("tag", 0x3_0074_0061) && Named("type", 0x4_0074_0079)
  {
  }

  lemma HeartbeatKeys()
    ensures Named("uptime_s", 0x8_0075_0070) && Named("seq", 0x3_0073_0065)
  {
  }

  lemma SensorKeys()
    ensures Named("sensor_id", 0x9_0073_0065) && Named("samples", 0x7_0073_0061)
  {
  }

  lemma EventKeys()
    ensures Named("code", 0x4_0063_006F) && Named("payload_hex", 0xB_0070_0061)
  {
  }

  lemma LogKeys()
    ensures Named("severity", 0x8_0073_0065) && Named("msg", 0x3_006D_0073)
  {
  }

  lemma ConfigKeys()
    ensures Named("pairs", 0x5_0070_0061)
  {
  }

  lemma FirmwareKeys()
    ensures Named("version", 0x7_0076_0065) && Named("hash_hex", 0x8_0068_0061)
  {
  }

  lemma DiagKeys()
    ensures Named("subsystem", 0x9_0073_0075) && Named("redacted", 0x8_0072_0065) && Named("blob_hex", 0x8_0062_006C)
  {
  }

  lemma GeoKeys()
    ensures Named("lat_e7", 0x6_006C_0061) && Named("lon_e7", 0x6_006C_006F) && Named("alt_mm", 0x6_0061_006C)
  {
  }

  lemma BatteryKeys()
    ensures Named("pct", 0x3_0070_0063) && Named("temp_c_e1", 0x9_0074_0065) && Named("cycles", 0x6_0063_0079)
  {
  }

  lemma KeyrefKeys()
    ensures Named("slot_id", 0x7_0073_006C) && Named("redacted", 0x8_0072_0065) && Named("label", 0x5_006C_0061)
  {
  }

  lemma NetKeys()
    ensures Named("iface_id", 0x8_0069_0066) && Named("rx_bytes", 0x8_0072_0078) && Named("tx_bytes", 0x8_0074_0078) && Named("rx_pkts", 0x7_0072_0078) && Named("tx_pkts", 0x7_0074_0078)
  {
  }

  lemma HeartbeatNames(r: Record)
    requires r.Heartbeat?
    ensures FieldNames(NamesOf(r))
  {
    hide IsAscii, Signature;
    BaseNames();
    HeartbeatKeys();
  }

  lemma EventNames(r: Record)
    requires r.Event?
    ensures FieldNames(NamesOf(r))
  {
    hide IsAscii, Signature;
    BaseNames();
    EventKeys();
  }

  lemma LogNames(r: Record)
    requires r.Log?
    ensures FieldNames(NamesOf(r))
  {
    hide IsAscii, Signature;
    BaseNames();
    LogKeys();
  }

  lemma ConfigNames(r: Record)
    requires r.Config?
    ensures FieldNames(NamesOf(r))
  {
    hide IsAscii, Signature;
    BaseNames();
    ConfigKeys();
  }

  lemma FirmwareNames(r: Record)
    requires r.Firmware?
    ensures FieldNames(NamesOf(r))
  {
    hide IsAscii, Signature;
    BaseNames();
    FirmwareKeys();
  }

  lemma DiagNames(r: Record)
    requires r.Diag?
    ensures FieldNames(NamesOf(r))
  {
    hide IsAscii, Signature;
    BaseNames();
    DiagKeys();
  }

  lemma GeoNames(r: Record)
    requires r.Geo?
    ensures FieldNames(NamesOf(r))
  {
    hide IsAscii, Signature;
    BaseNames();
    GeoKeys();
  }

  lemma BatteryNames(r: Record)
    requires r.Battery?
    ensures FieldNames(NamesOf(r))
  {
    hide IsAscii, Signature;
    BaseNames();
    BatteryKeys();
  }

  lemma KeyrefNames(r: Record)
    requires r.Keyref?
    ensures FieldNames(NamesOf(r))
  {
    hide IsAscii, Signature;
    BaseNames();
    KeyrefKeys();
  }

  lemma NetNames(r: Record)
    requires r.Net?
    ensures FieldNames(NamesOf(r))
  {
    hide IsAscii, Signature;
    BaseNames();
    NetKeys();
  }

  lemma SensorNames(r: Record)
    requires r.Sensor?
    ensures FieldNames(NamesOf(r))
  {
    hide IsAscii, Signature;
    BaseNames();
    SensorKeys();
  }

  lemma FieldBack(r: Record, index: nat, float: u32 -> Bytes, i: nat)
    requires !r.Unknown? && i < |NamesOf(r)|
    ensures Get(ObjectOf(r, index, float), NamesOf(r)[i]) == Some(ValuesOf(r, index, float)[i])
  {
    hide FieldNames, Get;
    match r {
      case Heartbeat(_, _) => HeartbeatNames(r);
      case Sensor(_, _) => SensorNames(r);
      case Event(_, _) => EventNames(r);
      case Log(_, _) => LogNames(r);
      case Config(_) => ConfigNames(r);
      case Firmware(_, _, _, _) => FirmwareNames(r);
      case Diag(_, _, _) => DiagNames(r);
      case Geo(_, _, _) => GeoNames(r);
      case Battery(_, _, _) => BatteryNames(r);
      case Keyref(_, _, _) => KeyrefNames(r);
      case Net(_, _, _, _, _) => NetNames(r);
    }
    LabelledFind(NamesOf(r), ValuesOf(r, index, float), i);
  }

  /** The object has this value under the name. */
  ghost predicate Has(j: Json, name: string, v: Json) { Get(j, name) == Some(v) }

  /** Which field of a record is exported under which name. */
  ghost predicate Exports(j: Json, r: Record, float: u32 -> Bytes) {
    match r
    case Heartbeat(uptime, seqNo) =>
      && Has(j, "type", String(Ascii("HEARTBEAT"))) && Has(j, "tag", Number(Dec(16)))
      && Has(j, "uptime_s", Number(Dec(uptime))) && Has(j, "seq", Number(Dec(seqNo)))
    case Sensor(id, samples) =>
      && Has(j, "type", String(Ascii("SENSOR"))) && Has(j, "tag", Number(Dec(17)))
      && Has(j, "sensor_id", Number(Dec(id))) && Has(j, "samples", Array(Samples(samples, float)))
    case Event(code, payload) =>
      && Has(j, "type", String(Ascii("EVENT"))) && Has(j, "tag", Number(Dec(18)))
      && Has(j, "code", Number(Dec(code))) && Has(j, "payload_hex", String(Hex(payload)))
    case Diag(subsystem, blob, redacted) =>
      && Has(j, "type", String(Ascii("DIAG"))) && Has(j, "tag", Number(Dec(19)))
      && Has(j, "subsystem", Number(Dec(subsystem))) && Has(j, "redacted", Bool(redacted))
      && Has(j, "blob_hex", String(if redacted then [] else Hex(blob)))
    case Geo(lat, lon, alt) =>
      && Has(j, "type", String(Ascii("GEO"))) && Has(j, "tag", Number(Dec(20)))
      && Has(j, "lat_e7", Number(DecI(lat))) && Has(j, "lon_e7", Number(DecI(lon))) && Has(j, "alt_mm", Number(DecI(alt)))
    case Battery(pct, temp, cycles) =>
      && Has(j, "type", String(Ascii("BATTERY"))) && Has(j, "tag", Number(Dec(21)))
      && Has(j, "pct", Number(Dec(pct))) && Has(j, "temp_c_e1", Number(DecI(temp))) && Has(j, "cycles", Number(Dec(cycles)))
    case Net(iface, rxB, txB, rxP, txP) =>
      && Has(j, "type", String(Ascii("NET"))) && Has(j, "tag", Number(Dec(22))) && Has(j, "iface_id", Number(Dec(iface)))
      && Has(j, "rx_bytes", Number(Dec(rxB))) && Has(j, "tx_bytes", Number(Dec(txB)))
      && Has(j, "rx_pkts", Number(Dec(rxP))) && Has(j, "tx_pkts", Number(Dec(txP)))
    case Log(severity, msg) =>
      && Has(j, "type", String(Ascii("LOG"))) && Has(j, "tag", Number(Dec(23)))
      && Has(j, "severity", Number(Dec(severity))) && Has(j, "msg", String(msg))
    case Config(pairs) =>
      && Has(j, "type", String(Ascii("CONFIG"))) && Has(j, "tag", Number(Dec(24))) && Has(j, "pairs", Object(PairObject(pairs)))
    case Keyref(slot, text, redacted) =>
      && Has(j, "type", String(Ascii("KEYREF"))) && Has(j, "tag", Number(Dec(25)))
      && Has(j, "slot_id", Number(Dec(slot))) && Has(j, "redacted", Bool(redacted))
      && Has(j, "label", String(if redacted then [] else text))
    case Firmware(major, minor, patch, hash) =>
      && Has(j, "type", String(Ascii("FIRMWARE"))) && Has(j, "tag", Number(Dec(26)))
      && Has(j, "version", String(Dec(major) + ([46] + (Dec(minor) + ([46] + Dec(patch)))))) && Has(j, "hash_hex", String(Hex(hash)))
    case Unknown(_) => true
  }

  lemma ShortMembers(r: Record, index: nat, float: u32 -> Bytes)
    requires !r.Unknown? && |NamesOf(r)| <= 5
    ensures Exports(ObjectOf(r, index, float), r, float)
  {
    hide Get, ObjectOf, Dec, DecI, Hex, Ascii, Samples, PairObject;
    FieldBack(r, index, float, 1);
    FieldBack(r, index, float, 2);
    FieldBack(r, index, float, 3);
    if |NamesOf(r)| > 4 { FieldBack(r, index, float, 4); }
  }

  lemma LongMembers(r: Record, index: nat, float: u32 -> Bytes)
    requires !r.Unknown? && |NamesOf(r)| > 5
    ensures Exports(ObjectOf(r, index, float), r, float)
  {
    hide Get, ObjectOf, Dec, DecI, Hex, Ascii, Samples, PairObject;
    FieldBack(r, index, float, 1);
    FieldBack(r, index, float, 2);
    FieldBack(r, index, float, 3);
    FieldBack(r, index, float, 4);
    FieldBack(r, index, float, 5);
    if |NamesOf(r)| > 6 {
      FieldBack(r, index, float, 6);
      FieldBack(r, index, float, 7);
    }
    NoHexDigits();
  }

  /** Every exported object holds each field of its record under the documented name. */
  lemma MembersMean(r: Record, index: nat, float: u32 -> Bytes)
    requires !r.Unknown?
    ensures Has(ObjectOf(r, index, float), "index", Number(Dec(index))) && Exports(ObjectOf(r, index, float), r, float)
  {
    hide Get, ObjectOf, Exports, Dec, Ascii;
    FieldBack(r, index, float, 0);
    if |NamesOf(r)| <= 5 { ShortMembers(r, index, float); } else { LongMembers(r, index, float); }
  }

  lemma NoHexDigits()
    ensures Hex([]) == []
  {
  }

  // ---- reading what was written ----

  /** What survives the text form of a record: strings end at their first NUL and
      redacted payloads are gone. */
  function TextForm(r: Record): Record {
    match r
    case Log(severity, msg) => Log(severity, CStr(msg))
    case Config(pairs) => Config(CanonPairs(pairs))
    case Keyref(slot, text, redacted) => Keyref(slot, CStr(Shown(redacted, text)), redacted)
    case Diag(subsystem, blob, redacted) => Diag(subsystem, Shown(redacted, blob), redacted)
    case _ => r
  }

  /** Exactly the records that the text form preserves. */
  predicate TextSafe(r: Record) {
    match r
    case Log(_, msg) => 0 !in msg
    case Config(pairs) => NulFree(pairs)
    case Keyref(_, text, redacted) => 0 !in text && (redacted ==> text == [])
    case Diag(_, blob, redacted) => redacted ==> blob == []
    case _ => true
  }

  lemma TextFormSame(r: Record)
    ensures TextForm(r) == r <==> TextSafe(r)
  {
    if r.Config? { CanonPairsSame(r.pairs); }
  }

  lemma U32Back(r: Record, index: nat, float: u32 -> Bytes, i: nat, v: u32)
    requires !r.Sensor? && !r.Unknown? && i < |NamesOf(r)| && ValuesOf(r, index, float)[i] == Number(Dec(v))
    ensures GetU32(ObjectOf(r, index, float), NamesOf(r)[i]) == Ok(v)
  {
    hide Get, ToU32, Dec, NamesOf, ValuesOf, ObjectOf;
    FieldBack(r, index, float, i);
    DecimalRoundTrip(v, 0);
  }

  lemma I32Back(r: Record, index: nat, float: u32 -> Bytes, i: nat, v: i32)
    requires !r.Sensor? && !r.Unknown? && i < |NamesOf(r)| && ValuesOf(r, index, float)[i] == Number(DecI(v))
    ensures GetI32(ObjectOf(r, index, float), NamesOf(r)[i]) == Ok(v)
  {
    hide Get, ToI32, DecI, NamesOf, ValuesOf, ObjectOf;
    FieldBack(r, index, float, i);
    DecimalRoundTrip(0, v);
  }

  lemma StrBack(r: Record, index: nat, float: u32 -> Bytes, i: nat, s: Bytes)
    requires !r.Sensor? && !r.Unknown? && i < |NamesOf(r)| && ValuesOf(r, index, float)[i] == String(s)
    ensures GetStr(ObjectOf(r, index, float), NamesOf(r)[i]) == Some(CStr(s))
  {
    hide Get, CStr, NamesOf, ValuesOf, ObjectOf;
    FieldBack(r, index, float, i);
  }

  lemma BoolBack(r: Record, index: nat, float: u32 -> Bytes, i: nat, b: bool)
    requires !r.Sensor? && !r.Unknown? && i < |NamesOf(r)| && ValuesOf(r, index, float)[i] == Bool(b)
    ensures GetBool(ObjectOf(r, index, float), NamesOf(r)[i]) == Ok(b)
  {
    hide Get, NamesOf, ValuesOf, ObjectOf;
    FieldBack(r, index, float, i);
  }

  lemma PlainIsCStr(s: Bytes)
    requires JsonText.Plain(s)
    ensures CStr(s) == s
  {
  }

  lemma Even(n: nat)
    ensures (2 * n) % 2 == 0 && (2 * n) / 2 == n
  {
  }

  lemma HexBack(s: Bytes)
    ensures CStr(Hex(s)) == Hex(s) && HexInto(Hex(s), |s|) == Ok(s)
  {
    hide Hex, Unhex, CStr, JsonText.Plain;
    var h := Hex(s);
    HexPlain(s);
    PlainIsCStr(h);
    HexRoundTrip(s);
    Even(|s|);
    assert HexInto(h, |s|) == Ok(s);
  }

  lemma {:induction false} PairsBack(pairs: seq<(Bytes, Bytes)>, room: nat)
    requires |pairs| <= room
    ensures ReadPairs(PairObject(pairs), room) == Ok(CanonPairs(pairs))
  {
    if pairs != [] {
      var ms := PairObject(pairs);
      assert ms[1..] == PairObject(pairs[1..]);
      PairsBack(pairs[1..], room - 1);
      CStrTwice(pairs[0].0);
      CStrTwice(pairs[0].1);
    }
  }

  lemma HeartbeatBack(r: Record, index: nat, float: u32 -> Bytes, strtof: Bytes -> Option<u32>)
    requires r.Heartbeat?
    ensures ImportRecord(ObjectOf(r, index, float), strtof) == Ok(r)
  {
    hide GetU32, ObjectOf, Dec;
    U32Back(r, index, float, 1, 0x10);
    U32Back(r, index, float, 3, r.uptime);
    U32Back(r, index, float, 4, r.seqNo);
  }

  lemma EventBack(r: Record, index: nat, float: u32 -> Bytes)
    requires r.Event? && Representable(r)
    ensures ImportEvent(ObjectOf(r, index, float)) == Ok(r)
  {
    hide GetU32, GetStr, ObjectOf, Dec, Hex, HexInto, CStr;
    U32Back(r, index, float, 3, r.code);
    StrBack(r, index, float, 4, Hex(r.payload));
    HexBack(r.payload);
  }

  lemma DiagBack(r: Record, index: nat, float: u32 -> Bytes)
    requires r.Diag? && Representable(r)
    ensures ImportDiag(ObjectOf(r, index, float)) == Ok(TextForm(r))
  {
    hide GetU32, GetStr, GetBool, ObjectOf, Dec, Hex, HexInto, CStr;
    U32Back(r, index, float, 3, r.subsystem);
    BoolBack(r, index, float, 4, r.diagRedacted);
    StrBack(r, index, float, 5, Hex(Shown(r.diagRedacted, r.blob)));
    HexBack(r.blob);
    HexBack([]);
    assert Hex([]) == [];
  }

  // ---- hexadecimal members, in either case ----

  lemma HexIntoIff(hex: Bytes, cap: nat, s: Bytes)
    ensures HexInto(hex, cap) == Ok(s) <==> HexText(hex, s) && |s| <= cap
  {
    hide Unhex, HexText;
    HexIff(hex, s);
    UnhexLength(hex);
    if HexText(hex, s) { HexTextEven(hex, s); }
  }

  lemma HexTextEven(hex: Bytes, s: Bytes)
    requires HexText(hex, s)
    ensures |hex| % 2 == 0 && |hex| / 2 == |s|
  {
  }

  /** On every object with an EVENT tag: which records it can be. */
  lemma EventImportIff(j: Json, strtof: Bytes -> Option<u32>, code: u16, payload: Bytes)
    requires GetU32(j, "tag") == Ok(0x12)
    ensures ImportRecord(j, strtof) == Ok(Event(code, payload)) <==>
              && GetU32(j, "code") == Ok(code) && |payload| <= 65535
              && match GetStr(j, "payload_hex") { case None => false case Some(hex) => HexText(hex, payload) }
  {
    hide GetU32, GetStr, HexInto, HexText;
    var hex := GetStr(j, "payload_hex");
    if hex.Some? {
      HexIntoIff(hex.value, |hex.value| / 2, payload);
      if HexText(hex.value, payload) { HexTextEven(hex.value, payload); }
    }
  }

  /** The same for DIAG, where a redacted blob is not looked at. */
  lemma DiagImportIff(j: Json, strtof: Bytes -> Option<u32>, subsystem: u16, blob: Bytes, redacted: bool)
    requires GetU32(j, "tag") == Ok(0x13)
    ensures ImportRecord(j, strtof) == Ok(Diag(subsystem, blob, redacted)) <==>
              && GetU32(j, "subsystem") == Ok(subsystem) && GetBool(j, "redacted") == Ok(redacted) && |blob| <= 65535
              && if redacted then blob == []
                 else match GetStr(j, "blob_hex") { case None => false case Some(hex) => HexText(hex, blob) }
  {
    hide GetU32, GetBool, GetStr, HexInto, HexText;
    var hex := if redacted then Some([]) else GetStr(j, "blob_hex");
    if hex.Some? {
      HexIntoIff(hex.value, |hex.value| / 2, blob);
      if HexText(hex.value, blob) { HexTextEven(hex.value, blob); }
    }
    if redacted { NoHexOnly(blob); }
  }

  lemma NoHexOnly(s: Bytes)
    ensures HexText([], s) <==> s == []
  {
  }

  /** And for FIRMWARE, whose hash has eight bytes. */
  lemma FirmwareImportIff(j: Json, strtof: Bytes -> Option<u32>, major: u16, minor: u16, patch: u16, hash: Bytes)
    requires GetU32(j, "tag") == Ok(0x1A)
    ensures ImportRecord(j, strtof) == Ok(Firmware(major, minor, patch, hash)) <==>
              && (match GetStr(j, "version") { case None => false case Some(ver) => ScanVersion(ver) == Some((major, minor, patch)) })
              && |hash| == 8
              && match GetStr(j, "hash_hex") { case None => false case Some(hex) => HexText(hex, hash) }
  {
    hide GetU32, GetStr, HexInto, HexText, ScanVersion;
    var hex := GetStr(j, "hash_hex");
    if hex.Some? { HexIntoIff(hex.value, 8, hash); }
  }

  lemma {:induction false} PairsErrors(ms: seq<(Bytes, Json)>, room: nat)
    ensures match ReadPairs(ms, room) { case Ok(_) => true case Error(e) => e == BadRecord || e == OutOfBounds }
  {
    if ms != [] && room > 0 { PairsErrors(ms[1..], room - 1); }
  }

  lemma {:induction false} SamplesErrors(items: seq<Json>, room: nat, strtof: Bytes -> Option<u32>)
    ensures match ReadSamples(items, room, strtof) { case Ok(_) => true case Error(e) => e == BadRecord || e == OutOfBounds }
  {
    if items != [] && room > 0 { SamplesErrors(items[1..], room - 1, strtof); }
  }

  ghost predicate Schema<T>(r: Result<T>, arrays: bool) {
    r.Error? ==> r.err == BadRecord || (arrays && r.err == OutOfBounds)
  }

  lemma ArrayErrors(j: Json, strtof: Bytes -> Option<u32>)
    ensures Schema(ImportSensor(j, strtof), true) && Schema(ImportConfig(j), true)
  {
    hide Get, ReadPairs, ReadSamples, GetU32;
    GetErrors(j);
    match Get(j, "pairs") {
      case Some(Object(ms)) => PairsErrors(ms, PairRoom(|ms|));
      case _ =>
    }
    match Get(j, "samples") {
      case Some(Array(items)) => SamplesErrors(items, PairRoom(|items|), strtof);
      case _ =>
    }
  }

  lemma BytesErrors(j: Json)
    ensures Schema(ImportEvent(j), false) && Schema(ImportDiag(j), false) && Schema(ImportFirmware(j), false)
  {
    hide GetU32, GetBool, GetStr, HexInto, ScanVersion;
    GetErrors(j);
    HexErrors();
  }

  lemma NumberErrors(j: Json)
    ensures Schema(ImportHeartbeat(j), false) && Schema(ImportGeo(j), false) && Schema(ImportBattery(j), false)
  {
    hide GetU32, GetI32;
    GetErrors(j);
  }

  lemma NetErrors(j: Json)
    ensures Schema(ImportNet(j), false)
  {
    hide GetU32;
    GetErrors(j);
  }

  lemma TextErrors(j: Json)
    ensures Schema(ImportLog(j), false) && Schema(ImportKeyref(j), false)
  {
    hide GetU32, GetBool, GetStr;
    GetErrors(j);
  }

  /** Whatever the object, the importer's only error is BADRECORD, and only the arrays of
      SENSOR and CONFIG can be left. */
  lemma ImportErrors(j: Json, strtof: Bytes -> Option<u32>)
    ensures Schema(ImportRecord(j, strtof), GetU32(j, "tag") == Ok(17) || GetU32(j, "tag") == Ok(24))
  {
    hide GetU32, ImportHeartbeat, ImportSensor, ImportConfig, ImportEvent, ImportDiag, ImportFirmware, ImportGeo, ImportBattery, ImportNet,
         ImportLog, ImportKeyref;
    GetErrors(j);
    ArrayErrors(j, strtof);
    BytesErrors(j);
    NumberErrors(j);
    NetErrors(j);
    TextErrors(j);
  }

  lemma GetErrors(j: Json)
    ensures forall key :: GetU32(j, key).Error? ==> GetU32(j, key).err == BadRecord
    ensures forall key :: GetI32(j, key).Error? ==> GetI32(j, key).err == BadRecord
    ensures forall key :: GetBool(j, key).Error? ==> GetBool(j, key).err == BadRecord
  {
    hide Get, ToU32, ToI32;
  }

  lemma HexErrors()
    ensures forall hex, cap :: HexInto(hex, cap).Error? ==> HexInto(hex, cap).err == BadRecord
  {
    hide Unhex;
  }

  /** The exported object of an EVENT, DIAG or FIRMWARE record with another text for its
      last member, the hexadecimal one. */
  function WithHex(r: Record, index: nat, float: u32 -> Bytes, text: Bytes): Json {
    var vs := ValuesOf(r, index, float);
    Object(Labelled(NamesOf(r), vs[|vs| - 1 := String(text)]))
  }

  /** The bytes that this member shows. */
  function HexBytes(r: Record): Bytes {
    match r
    case Event(_, payload) => payload
    case Diag(_, blob, redacted) => Shown(redacted, blob)
    case Firmware(_, _, _, hash) => hash
    case _ => []
  }

  lemma WithHexFields(r: Record, index: nat, float: u32 -> Bytes, text: Bytes, i: nat)
    requires (r.Event? || r.Diag? || r.Firmware?) && i < |NamesOf(r)|
    ensures Get(WithHex(r, index, float, text), NamesOf(r)[i])
         == Some(if i == |NamesOf(r)| - 1 then String(text) else ValuesOf(r, index, float)[i])
  {
    hide FieldNames, Get, ValuesOf, Labelled;
    match r {
      case Event(_, _) => EventNames(r);
      case Diag(_, _, _) => DiagNames(r);
      case Firmware(_, _, _, _) => FirmwareNames(r);
    }
    var vs := ValuesOf(r, index, float);
    LabelledFind(NamesOf(r), vs[|vs| - 1 := String(text)], i);
  }

  lemma WithHexSame(r: Record, index: nat, float: u32 -> Bytes, text: Bytes, i: nat)
    requires (r.Event? || r.Diag? || r.Firmware?) && i < |NamesOf(r)| - 1
    ensures var a, b := WithHex(r, index, float, text), ObjectOf(r, index, float);
            var n := NamesOf(r)[i];
            Get(a, n) == Get(b, n) && GetU32(a, n) == GetU32(b, n) && GetStr(a, n) == GetStr(b, n) && GetBool(a, n) == GetBool(b, n)
  {
    hide Get, ToU32, ObjectOf, WithHex, NamesOf, ValuesOf, CStr;
    WithHexFields(r, index, float, text, i);
    FieldBack(r, index, float, i);
  }

  lemma {:induction false} HexTextCStr(text: Bytes, s: Bytes)
    requires HexText(text, s)
    ensures CStr(text) == text
  {
    forall i | 0 <= i < |text| ensures text[i] != 0 {
      var k := i / 2;
      assert Nibble(text[2 * k], s[k] / 16) && Nibble(text[2 * k + 1], s[k] % 16);
      assert i == 2 * k || i == 2 * k + 1;
    }
  }

  lemma HexMember(r: Record, index: nat, float: u32 -> Bytes, text: Bytes)
    requires (r.Event? || r.Diag? || r.Firmware?) && HexText(text, HexBytes(r))
    ensures GetStr(WithHex(r, index, float, text), NamesOf(r)[|NamesOf(r)| - 1]) == Some(text)
  {
    hide Get, HexText, WithHex, ValuesOf, CStr;
    WithHexFields(r, index, float, text, |NamesOf(r)| - 1);
    HexTextCStr(text, HexBytes(r));
  }

  /** Whatever the case of its digits, the object imports to the record's text form. */
  lemma HexAnyCase(r: Record, index: nat, float: u32 -> Bytes, strtof: Bytes -> Option<u32>, text: Bytes)
    requires (r.Event? || r.Diag? || r.Firmware?) && Representable(r) && HexText(text, HexBytes(r))
    ensures ImportRecord(WithHex(r, index, float, text), strtof) == Ok(TextForm(r))
  {
    hide GetU32, GetStr, GetBool, Get, ObjectOf, WithHex, Dec, Hex, HexText, ImportRecord, CStr, ScanVersion, ShowVersion;
    var j := WithHex(r, index, float, text);
    WithHexSame(r, index, float, text, 1);
    U32Back(r, index, float, 1, TagOf(r));
    WithHexSame(r, index, float, text, 3);
    HexMember(r, index, float, text);
    match r {
      case Event(code, payload) =>
        U32Back(r, index, float, 3, code);
        EventImportIff(j, strtof, code, payload);
      case Diag(subsystem, blob, redacted) =>
        U32Back(r, index, float, 3, subsystem);
        WithHexSame(r, index, float, text, 4);
        BoolBack(r, index, float, 4, redacted);
        DiagImportIff(j, strtof, subsystem, Shown(redacted, blob), redacted);
      case Firmware(major, minor, patch, hash) =>
        StrBack(r, index, float, 3, ShowVersion(major, minor, patch));
        VersionPlain(major, minor, patch);
        PlainIsCStr(ShowVersion(major, minor, patch));
        VersionRoundTrip(major, minor, patch);
        FirmwareImportIff(j, strtof, major, minor, patch, hash);
    }
  }

  lemma GeoBack(r: Record, index: nat, float: u32 -> Bytes)
    requires r.Geo?
    ensures ImportGeo(ObjectOf(r, index, float)) == Ok(r)
  {
    hide GetI32, ObjectOf, DecI;
    I32Back(r, index, float, 3, r.lat);
    I32Back(r, index, float, 4, r.lon);
    I32Back(r, index, float, 5, r.alt);
  }

  lemma BatteryBack(r: Record, index: nat, float: u32 -> Bytes)
    requires r.Battery?
    ensures ImportBattery(ObjectOf(r, index, float)) == Ok(r)
  {
    hide GetU32, GetI32, ObjectOf, Dec, DecI;
    U32Back(r, index, float, 3, r.pct);
    I32Back(r, index, float, 4, r.temp);
    U32Back(r, index, float, 5, r.cycles);
  }

  lemma NetBack(r: Record, index: nat, float: u32 -> Bytes)
    requires r.Net?
    ensures ImportNet(ObjectOf(r, index, float)) == Ok(r)
  {
    hide GetU32, ObjectOf, Dec;
    U32Back(r, index, float, 3, r.iface);
    U32Back(r, index, float, 4, r.rxBytes);
    U32Back(r, index, float, 5, r.txBytes);
    U32Back(r, index, float, 6, r.rxPkts);
    U32Back(r, index, float, 7, r.txPkts);
  }

  lemma LogBack(r: Record, index: nat, float: u32 -> Bytes)
    requires r.Log? && Representable(r)
    ensures ImportLog(ObjectOf(r, index, float)) == Ok(TextForm(r))
  {
    hide GetU32, GetStr, ObjectOf, Dec, CStr;
    U32Back(r, index, float, 3, r.severity);
    StrBack(r, index, float, 4, r.msg);
    Shorter(r.msg);
  }

  lemma Shorter(s: Bytes)
    ensures |CStr(s)| <= |s|
  {
  }

  lemma ConfigBack(r: Record, index: nat, float: u32 -> Bytes)
    requires r.Config? && Representable(r)
    ensures ImportConfig(ObjectOf(r, index, float)) == Ok(TextForm(r))
  {
    hide Get, ObjectOf, ReadPairs, CanonPairs;
    FieldBack(r, index, float, 3);
    PairsBack(r.pairs, PairRoom(|r.pairs|));
  }

  lemma KeyrefBack(r: Record, index: nat, float: u32 -> Bytes)
    requires r.Keyref? && Representable(r)
    ensures ImportKeyref(ObjectOf(r, index, float)) == Ok(TextForm(r))
  {
    hide GetU32, GetStr, GetBool, ObjectOf, Dec, CStr;
    U32Back(r, index, float, 3, r.slot);
    BoolBack(r, index, float, 4, r.textRedacted);
    StrBack(r, index, float, 5, Shown(r.textRedacted, r.text));
    Shorter(r.text);
    assert CStr([]) == [];
  }

  lemma FirmwareBack(r: Record, index: nat, float: u32 -> Bytes)
    requires r.Firmware? && Representable(r)
    ensures ImportFirmware(ObjectOf(r, index, float)) == Ok(r)
  {
    hide GetStr, ObjectOf, Hex, HexInto, CStr, ScanVersion, ShowVersion;
    var ver := ShowVersion(r.major, r.minor, r.patch);
    StrBack(r, index, float, 3, ver);
    VersionPlain(r.major, r.minor, r.patch);
    PlainIsCStr(ver);
    VersionRoundTrip(r.major, r.minor, r.patch);
    StrBack(r, index, float, 4, Hex(r.hash));
    HexBack(r.hash);
  }

  /** Importing the exported object of a record gives its text form, and so the
      record itself exactly when its strings are NUL-free and nothing was redacted. */
  lemma ImportBack(r: Record, index: nat, float: u32 -> Bytes, strtof: Bytes -> Option<u32>)
    requires Representable(r) && !r.Sensor? && !r.Unknown?
    ensures ImportRecord(ObjectOf(r, index, float), strtof) == Ok(TextForm(r))
    ensures ImportRecord(ObjectOf(r, index, float), strtof) == Ok(r) <==> TextSafe(r)
  {
    TextFormSame(r);
    hide GetU32, ObjectOf, ImportEvent, ImportDiag, ImportGeo, ImportBattery, ImportNet, ImportLog, ImportConfig,
         ImportKeyref, ImportFirmware, ImportSensor, TextSafe, Dec, CStr, CanonPairs, Representable, Tail;
    TagBack(r, index, float);
    match r {
      case Heartbeat(_, _) => HeartbeatBack(r, index, float, strtof);
      case Event(_, _) => EventBack(r, index, float);
      case Diag(_, _, _) => DiagBack(r, index, float);
      case Geo(_, _, _) => GeoBack(r, index, float);
      case Battery(_, _, _) => BatteryBack(r, index, float);
      case Net(_, _, _, _, _) => NetBack(r, index, float);
      case Log(_, _) => LogBack(r, index, float);
      case Config(_) => ConfigBack(r, index, float);
      case Keyref(_, _, _) => KeyrefBack(r, index, float);
      case Firmware(_, _, _, _) => FirmwareBack(r, index, float);
    }
  }

  lemma TagBack(r: Record, index: nat, float: u32 -> Bytes)
    requires !r.Sensor? && !r.Unknown?
    ensures GetU32(ObjectOf(r, index, float), "tag") == Ok(TagOf(r))
  {
    hide GetU32, ObjectOf, Dec, Tail;
    assert NamesOf(r)[1] == "tag";
    U32Back(r, index, float, 1, TagOf(r));
  }

  // ---- more elements than the count byte tells ----

  /** The array is too small for `n` elements. */
  predicate Short(n: nat) { PairRoom(n) < n <= 0xFFFF }

  /** The array is too small exactly from 256 elements on. */
  lemma ShortIff(n: nat)
    ensures Short(n) <==> 256 <= n <= 0xFFFF
  {
  }

  lemma {:induction false} PairsOutcome(ms: seq<(Bytes, Json)>, room: nat)
    ensures ReadPairs(ms, room).Ok? <==> |ms| <= room && forall i | 0 <= i < |ms| :: ms[i].1.String?
    ensures ReadPairs(ms, room) == Error(OutOfBounds)
            <==> room < |ms| && forall i | 0 <= i <= room :: ms[i].1.String?
  {
    if ms != [] && ms[0].1.String? && room > 0 {
      var rest := ms[1..];
      PairsOutcome(rest, room - 1);
      assert forall i | 0 <= i < |rest| :: rest[i] == ms[i + 1];
      if room - 1 < |rest| && forall i | 0 <= i <= room - 1 :: rest[i].1.String? {
        forall i | 0 <= i <= room ensures ms[i].1.String? { if i > 0 { assert ms[i] == rest[i - 1]; } }
      }
      if |rest| <= room - 1 && forall i | 0 <= i < |rest| :: rest[i].1.String? {
        forall i | 0 <= i < |ms| ensures ms[i].1.String? { if i > 0 { assert ms[i] == rest[i - 1]; } }
      }
    }
  }

  /** On every object: the pairs are imported exactly when there are at most 255 and
      all values are strings; and the importer writes past its array exactly when the
      array is short and the values up to that write are strings. */
  lemma ConfigImportIff(j: Json, ms: seq<(Bytes, Json)>)
    requires Get(j, "pairs") == Some(Object(ms))
    ensures ImportConfig(j).Ok? <==> |ms| <= 255 && forall i | 0 <= i < |ms| :: ms[i].1.String?
    ensures ImportConfig(j) == Error(OutOfBounds)
            <==> Short(|ms|) && forall i | 0 <= i <= PairRoom(|ms|) :: ms[i].1.String?
  {
    hide Get, ReadPairs;
    PairsOutcome(ms, PairRoom(|ms|));
  }

  /** A sample that is stored; the store happens before the text is judged. */
  predicate Sample(x: Json, strtof: Bytes -> Option<u32>) { x.Number? && strtof(x.text).Some? }

  lemma {:induction false} SamplesOutcome(items: seq<Json>, room: nat, strtof: Bytes -> Option<u32>)
    ensures ReadSamples(items, room, strtof).Ok? <==> |items| <= room && forall i | 0 <= i < |items| :: Sample(items[i], strtof)
    ensures ReadSamples(items, room, strtof) == Error(OutOfBounds)
            <==> room < |items| && items[room].Number? && forall i | 0 <= i < room :: Sample(items[i], strtof)
  {
    if items != [] && items[0].Number? && room > 0 && strtof(items[0].text).Some? {
      var rest := items[1..];
      SamplesOutcome(rest, room - 1, strtof);
      assert forall i | 0 <= i < |rest| :: rest[i] == items[i + 1];
      assert forall i | 1 <= i < |items| :: items[i] == rest[i - 1];
    } else if items != [] {
      assert room > 0 ==> !Sample(items[0], strtof);
    }
  }

  /** The same for the samples of a SENSOR object. */
  lemma SensorImportIff(j: Json, items: seq<Json>, strtof: Bytes -> Option<u32>)
    requires Get(j, "samples") == Some(Array(items))
    ensures ImportSensor(j, strtof).Ok?
            <==> GetU32(j, "sensor_id").Ok? && GetU32(j, "sensor_id").value <= 0xFFFF
                 && |items| <= 255 && forall i | 0 <= i < |items| :: Sample(items[i], strtof)
    ensures ImportSensor(j, strtof) == Error(OutOfBounds)
            <==> GetU32(j, "sensor_id").Ok? && GetU32(j, "sensor_id").value <= 0xFFFF
                 && Short(|items|) && items[PairRoom(|items|)].Number?
                 && forall i | 0 <= i < PairRoom(|items|) :: Sample(items[i], strtof)
  {
    hide Get, GetU32, ReadSamples, Sample;
    NeverOutOfBounds(j, "sensor_id");
    SamplesOutcome(items, PairRoom(|items|), strtof);
  }

  lemma NeverOutOfBounds(j: Json, key: string)
    ensures GetU32(j, key).Error? ==> GetU32(j, key).err == BadRecord
  {
  }

  lemma FindFirst(key: string, v: Json, more: seq<(Bytes, Json)>)
    requires IsAscii(key)
    ensures Get(Object([(Ascii(key), v)] + more), key) == Some(v)
  {
    hide IsAscii, CStr;
    AsciiIsCStr(key);
    FindAt([(Ascii(key), v)] + more, Ascii(key), 0);
  }

  /** Concrete objects with 256 elements, on which the importer leaves its array; in
      the second CONFIG object a value that is not a string comes too late. */
  lemma ShortExamples(strtof: Bytes -> Option<u32>)
    requires strtof([48]).Some?
    ensures ImportConfig(Object([(Ascii("pairs"), Object(seq(256, _ => ([], String([])))))])) == Error(OutOfBounds)
    ensures ImportConfig(Object([(Ascii("pairs"), Object(seq(256, _ => ([], String([]))) + [([], Null)]))])) == Error(OutOfBounds)
    ensures ImportSensor(Object([(Ascii("samples"), Array(seq(256, _ => Number([48])))), (Ascii("sensor_id"), Number([48]))]), strtof)
         == Error(OutOfBounds)
  {
    hide Get, Find, ImportConfig, ImportSensor, IsAscii, Ascii;
    ConfigKeys();
    SensorKeys();
    var ms: seq<(Bytes, Json)> := seq(256, _ => ([], String([])));
    var late := ms + [([], Null)];
    var j, k := Object([(Ascii("pairs"), Object(ms))]), Object([(Ascii("pairs"), Object(late))]);
    FindFirst("pairs", Object(ms), []);
    FindFirst("pairs", Object(late), []);
    assert [(Ascii("pairs"), Object(ms))] + [] == [(Ascii("pairs"), Object(ms))];
    assert [(Ascii("pairs"), Object(late))] + [] == [(Ascii("pairs"), Object(late))];
    ConfigImportIff(j, ms);
    assert PairRoom(257) == 1 && late[0] == ms[0] && late[1] == ms[1];
    ConfigImportIff(k, late);
    SensorExample(strtof);
  }

  lemma SensorExample(strtof: Bytes -> Option<u32>)
    requires strtof([48]).Some? && IsAscii("samples") && IsAscii("sensor_id")
    ensures ImportSensor(Object([(Ascii("samples"), Array(seq(256, _ => Number([48])))), (Ascii("sensor_id"), Number([48]))]), strtof)
         == Error(OutOfBounds)
  {
    hide Get, Find, ImportSensor, IsAscii, CStr, Ascii, Signature;
    var items: seq<Json> := seq(256, _ => Number([48]));
    var ms := [(Ascii("samples"), Array(items)), (Ascii("sensor_id"), Number([48]))];
    FindFirst("samples", Array(items), [(Ascii("sensor_id"), Number([48]))]);
    assert [(Ascii("samples"), Array(items))] + [(Ascii("sensor_id"), Number([48]))] == ms;
    SensorKeys();
    AsciiIsCStr("samples");
    AsciiIsCStr("sensor_id");
    SignatureOfBytes("samples", "sensor_id");
    SensorId(ms);
    SensorImportIff(Object(ms), items, strtof);
  }

  lemma SensorId(ms: seq<(Bytes, Json)>)
    requires |ms| == 2 && ms[1] == (Ascii("sensor_id"), Number([48]))
    requires CStr(ms[0].0) != Ascii("sensor_id") && CStr(ms[1].0) == Ascii("sensor_id")
    ensures GetU32(Object(ms), "sensor_id") == Ok(0)
  {
    hide Find, CStr, Ascii;
    FindAt(ms, Ascii("sensor_id"), 1);
    DecimalRoundTrip(0, 0);
    assert Dec(0) == [48];
  }
}
