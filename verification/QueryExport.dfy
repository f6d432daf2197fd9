/** The filter language and the exporter name the same fields: what a query reads
    from a record is what the exported object of that record shows
    (src/query/eval.c, src/report/export.c). */
module QueryExport {
  import opened Core
  import opened Records
  import opened JsonText
  import opened Json
  import opened JsonRecords
  import opened Eval

  /** Looking a key up in a CONFIG record is looking it up in the exported object. */
  lemma {:induction false} LookupAgrees(pairs: seq<(Bytes, Bytes)>, key: Bytes)
    ensures TextOf(Find(PairObject(pairs), key)) == Lookup(pairs, key)
  {
    if pairs != [] {
      var ms := PairObject(pairs);
      assert ms[1..] == PairObject(pairs[1..]);
      LookupAgrees(pairs[1..], key);
      CStrTwice(pairs[0].0);
    }
  }

  // ---- reading query fields from an exported object, by member name ----

  function NumberOf(v: Option<Json>): Value {
    match v
    case Some(Number(t)) =>
      (match Signed(t) case None => Missing case Some((neg, m)) => IntV(if neg then -(m as int) else m))
    case _ => Missing
  }

  function TextOf(v: Option<Json>): Value {
    match v
    case Some(String(s)) => StrV(s)
    case _ => Missing
  }

  /** Length of a string member, `unit` characters for each byte. */
  function LengthOf(v: Option<Json>, unit: nat): Value
    requires unit > 0
  {
    match v
    case Some(String(s)) => IntV(|s| / unit)
    case _ => Missing
  }

  /** One of the three numbers of the version member. */
  function VersionOf(v: Option<Json>, part: nat): Value {
    match v
    case Some(String(s)) =>
      (match ScanVersion(s)
       case None => Missing
       case Some((a, b, c)) => IntV(if part == 0 then a else if part == 1 then b else c))
    case _ => Missing
  }

  /** The value of query field `n` as told by the members of an exported object. */
  function ReadField(tag: byte, j: Json, n: Bytes): Value {
    match tag
    case 0x10 =>
      if n == Ascii("seq") then NumberOf(Get(j, "seq")) else if n == Ascii("uptime") then NumberOf(Get(j, "uptime_s")) else Missing
    case 0x14 =>
      if n == Ascii("lat") then NumberOf(Get(j, "lat_e7")) else if n == Ascii("lon") then NumberOf(Get(j, "lon_e7"))
      else if n == Ascii("alt") then NumberOf(Get(j, "alt_mm")) else Missing
    case 0x15 =>
      if n == Ascii("pct") then NumberOf(Get(j, "pct")) else if n == Ascii("temp") then NumberOf(Get(j, "temp_c_e1"))
      else if n == Ascii("cycles") then NumberOf(Get(j, "cycles")) else Missing
    case 0x16 =>
      if n == Ascii("iface") then NumberOf(Get(j, "iface_id")) else if n == Ascii("rx_bytes") then NumberOf(Get(j, "rx_bytes"))
      else if n == Ascii("tx_bytes") then NumberOf(Get(j, "tx_bytes")) else if n == Ascii("rx_pkts") then NumberOf(Get(j, "rx_pkts"))
      else if n == Ascii("tx_pkts") then NumberOf(Get(j, "tx_pkts")) else Missing
    case 0x1A =>
      if n == Ascii("major") then VersionOf(Get(j, "version"), 0) else if n == Ascii("minor") then VersionOf(Get(j, "version"), 1)
      else if n == Ascii("patch") then VersionOf(Get(j, "version"), 2) else Missing
    case 0x11 =>
      if n == Ascii("id") then NumberOf(Get(j, "sensor_id"))
      else if n == Ascii("count") then (match Get(j, "samples") case Some(Array(items)) => IntV(|items|) case _ => Missing)
      else Missing
    case 0x12 =>
      if n == Ascii("code") then NumberOf(Get(j, "code")) else if n == Ascii("len") then LengthOf(Get(j, "payload_hex"), 2) else Missing
    case 0x17 =>
      if n == Ascii("severity") then NumberOf(Get(j, "severity")) else if n == Ascii("len") then LengthOf(Get(j, "msg"), 1)
      else if n == Ascii("msg") then TextOf(Get(j, "msg")) else Missing
    case 0x18 => (match Get(j, "pairs") case Some(Object(ms)) => TextOf(Find(ms, n)) case _ => Missing)
    case 0x19 =>
      if n == Ascii("slot") then NumberOf(Get(j, "slot_id")) else if n == Ascii("label") then TextOf(Get(j, "label")) else Missing
    case 0x13 =>
      if n == Ascii("subsystem") then NumberOf(Get(j, "subsystem")) else if n == Ascii("len") then LengthOf(Get(j, "blob_hex"), 2)
      else Missing
    case _ => Missing
  }

  /** The record without what redaction withholds from the export. */
  function Visible(r: Record): Record {
    match r
    case Diag(subsystem, blob, redacted) => Diag(subsystem, Shown(redacted, blob), redacted)
    case Keyref(slot, text, redacted) => Keyref(slot, Shown(redacted, text), redacted)
    case _ => r
  }

  lemma NumberBack(v: int)
    ensures NumberOf(Some(Number(DecI(v)))) == IntV(v) && (v >= 0 ==> NumberOf(Some(Number(Dec(v)))) == IntV(v))
  {
    hide Dec, Signed;
    SignedDec(if v < 0 then -v else v);
  }

  lemma WordAgrees(r: Record, index: nat, float: u32 -> Bytes, n: Bytes)
    requires r.Heartbeat? || r.Geo? || r.Battery?
    ensures ReadField(TagOf(r), ObjectOf(r, index, float), n) == FieldValue(r, n)
  {
    hide Get, ObjectOf, NumberOf, Dec, DecI, Ascii;
    FieldBack(r, index, float, 3);
    FieldBack(r, index, float, 4);
    match r
    case Heartbeat(a, b) => NumberBack(a); NumberBack(b);
    case Geo(a, b, c) => FieldBack(r, index, float, 5); NumberBack(a); NumberBack(b); NumberBack(c);
    case Battery(a, b, c) => FieldBack(r, index, float, 5); NumberBack(a); NumberBack(b); NumberBack(c);
  }

  lemma CounterAgrees(r: Record, index: nat, float: u32 -> Bytes, n: Bytes)
    requires r.Net?
    ensures ReadField(TagOf(r), ObjectOf(r, index, float), n) == FieldValue(r, n)
  {
    hide Get, ObjectOf, NumberOf, Dec, Ascii;
    FieldBack(r, index, float, 3);
    FieldBack(r, index, float, 4);
    FieldBack(r, index, float, 5);
    FieldBack(r, index, float, 6);
    FieldBack(r, index, float, 7);
    NumberBack(r.iface);
    NumberBack(r.rxBytes);
    NumberBack(r.txBytes);
    NumberBack(r.rxPkts);
    NumberBack(r.txPkts);
  }

  lemma BlobAgrees(r: Record, index: nat, float: u32 -> Bytes, n: Bytes)
    requires r.Event? || r.Diag?
    ensures ReadField(TagOf(r), ObjectOf(r, index, float), n) == FieldValue(Visible(r), n)
  {
    hide Get, ObjectOf, NumberOf, Dec, Ascii, Hex;
    FieldBack(r, index, float, 3);
    FieldBack(r, index, float, 4);
    match r
    case Event(code, _) => NumberBack(code);
    case Diag(sub, _, _) => FieldBack(r, index, float, 5); NumberBack(sub);
  }

  lemma OtherAgrees(r: Record, index: nat, float: u32 -> Bytes, n: Bytes)
    requires r.Sensor? || r.Firmware?
    ensures ReadField(TagOf(r), ObjectOf(r, index, float), n) == FieldValue(r, n)
  {
    hide Get, ObjectOf, NumberOf, Dec, Ascii, Hex, ShowVersion, ScanVersion, Samples;
    FieldBack(r, index, float, 3);
    FieldBack(r, index, float, 4);
    match r
    case Sensor(id, _) => NumberBack(id);
    case Firmware(a, b, c, _) => VersionRoundTrip(a, b, c);
  }

  lemma TextAgrees(r: Record, index: nat, float: u32 -> Bytes, n: Bytes)
    requires r.Log? || r.Config? || r.Keyref?
    ensures ReadField(TagOf(r), ObjectOf(r, index, float), n) == FieldValue(Visible(r), n)
  {
    hide Get, ObjectOf, NumberOf, Dec, Ascii, Find, Lookup;
    FieldBack(r, index, float, 3);
    match r
    case Log(severity, _) => FieldBack(r, index, float, 4); NumberBack(severity);
    case Config(pairs) => LookupAgrees(pairs, n);
    case Keyref(slot, _, _) => FieldBack(r, index, float, 5); NumberBack(slot);
  }

  /** For every record of a known type and every name: what a query reads is what the
      members of the exported object say, payloads withheld by redaction aside. */
  lemma FieldsAgree(r: Record, index: nat, float: u32 -> Bytes, n: Bytes)
    requires !r.Unknown?
    ensures ReadField(TagOf(r), ObjectOf(r, index, float), n) == FieldValue(Visible(r), n)
  {
    hide ReadField, ObjectOf, FieldValue;
    if r.Heartbeat? || r.Geo? || r.Battery? { WordAgrees(r, index, float, n); }
    else if r.Net? { CounterAgrees(r, index, float, n); }
    else if r.Log? || r.Config? || r.Keyref? { TextAgrees(r, index, float, n); }
    else if r.Event? || r.Diag? { BlobAgrees(r, index, float, n); }
    else { OtherAgrees(r, index, float, n); }
  }

  // ---- the two fields whose members are named differently ----

  lemma Apart(a: string, b: string, sa: int, sb: int)
    requires Named(a, sa) && Named(b, sb) && sa != sb
    ensures Ascii(a) != Ascii(b)
  {
    hide Ascii, IsAscii, Signature;
    SignatureOfBytes(a, b);
  }

  lemma QueryNames()
    ensures Named("major", 0x5_006D_0061) && Named("minor", 0x5_006D_0069) && Named("patch", 0x5_0070_0061)
    ensures Named("code", 0x4_0063_006F) && Named("subsystem", 0x9_0073_0075)
    ensures Named("severity", 0x8_0073_0065) && Named("len", 0x3_006C_0065)
  {
  }

  /** The member named "version" is made of the three fields a query reads. */
  lemma VersionAgrees(r: Record, index: nat, float: u32 -> Bytes)
    requires r.Firmware?
    ensures FieldValue(r, Ascii("major")).IntV? && FieldValue(r, Ascii("minor")).IntV? && FieldValue(r, Ascii("patch")).IntV?
    ensures var a, b, c := FieldValue(r, Ascii("major")).i, FieldValue(r, Ascii("minor")).i, FieldValue(r, Ascii("patch")).i;
            && 0 <= a <= 0xFFFF && 0 <= b <= 0xFFFF && 0 <= c <= 0xFFFF
            && Get(ObjectOf(r, index, float), "version") == Some(String(ShowVersion(a, b, c)))
  {
    hide Named, Dec, Ascii, Hex, ShowVersion, Get, ObjectOf;
    QueryNames();
    Apart("major", "minor", 0x5_006D_0061, 0x5_006D_0069);
    Apart("major", "patch", 0x5_006D_0061, 0x5_0070_0061);
    Apart("minor", "patch", 0x5_006D_0069, 0x5_0070_0061);
    FieldBack(r, index, float, 3);
  }

  /** The field "len" is the length of the member that holds the bytes. */
  lemma LengthsAgree(r: Record, index: nat, float: u32 -> Bytes)
    requires r.Event? || r.Log? || r.Diag?
    ensures var j := ObjectOf(r, index, float);
            FieldValue(Visible(r), Ascii("len"))
              == if r.Log? then LengthOf(Get(j, "msg"), 1)
                 else LengthOf(Get(j, if r.Event? then "payload_hex" else "blob_hex"), 2)
  {
    hide Named, Dec, Ascii, Get, ObjectOf, Hex;
    QueryNames();
    Apart("len", "code", 0x3_006C_0065, 0x4_0063_006F);
    Apart("len", "severity", 0x3_006C_0065, 0x8_0073_0065);
    Apart("len", "subsystem", 0x3_006C_0065, 0x9_0073_0075);
    FieldBack(r, index, float, |NamesOf(r)| - 1);
  }
}
