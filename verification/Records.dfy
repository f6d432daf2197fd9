/** The eleven record types: payload encoders of src/writer/writer.c and payload
    parsers of src/records. Pointers to payload memory are byte sequences held by
    value. */
module Records {
  import opened Core
  import opened Buffer

  datatype Record =
    | Heartbeat(uptime: u32, seqNo: u32)
    | Sensor(sensorId: u16, samples: seq<u32>)
    | Event(code: u16, payload: Bytes)
    | Diag(subsystem: u16, blob: Bytes, diagRedacted: bool)
    | Geo(lat: i32, lon: i32, alt: i32)
    | Battery(pct: byte, temp: i16, cycles: u32)
    | Net(iface: byte, rxBytes: u32, txBytes: u32, rxPkts: u32, txPkts: u32)
    | Log(severity: byte, msg: Bytes)
    | Config(pairs: seq<(Bytes, Bytes)>)
    | Keyref(slot: byte, text: Bytes, textRedacted: bool)
    | Firmware(major: u16, minor: u16, patch: u16, hash: Bytes)
    | Unknown(tag: byte)

  const MAX_SEVERITY := 7
  const IFACE_RESERVED := 250

  function TagOf(r: Record): byte {
    match r
    case Heartbeat(_, _) => 0x10
    case Sensor(_, _) => 0x11
    case Event(_, _) => 0x12
    case Diag(_, _, _) => 0x13
    case Geo(_, _, _) => 0x14
    case Battery(_, _, _) => 0x15
    case Net(_, _, _, _, _) => 0x16
    case Log(_, _) => 0x17
    case Config(_) => 0x18
    case Keyref(_, _, _) => 0x19
    case Firmware(_, _, _, _) => 0x1A
    case Unknown(tag) => tag
  }

  predicate KnownTag(tag: byte) { 0x10 <= tag <= 0x1A }

  /** Field widths of the C structs: every `dtl_record` satisfies this. */
  predicate Representable(r: Record) {
    match r
    case Sensor(_, samples) => |samples| <= 0xFF
    case Event(_, payload) => |payload| <= 0xFFFF
    case Diag(_, blob, _) => |blob| <= 0xFFFF
    case Log(_, msg) => |msg| <= 0xFFFF
    case Config(pairs) => |pairs| <= 0xFF
    case Keyref(_, text, _) => |text| <= 0xFF
    case Firmware(_, _, _, hash) => |hash| == 8
    case Unknown(tag) => !KnownTag(tag)
    case _ => true
  }

  // ---- encoding ----

  function SampleBytes(samples: seq<u32>): (s: Bytes)
    ensures |s| == 4 * |samples|
  {
    if samples == [] then [] else Le32(samples[0]) + SampleBytes(samples[1..])
  }

  /** Strings are measured with `strlen`; one over 255 bytes is out of range. */
  function PairBytes(pairs: seq<(Bytes, Bytes)>): Result<Bytes> {
    if pairs == [] then Ok([])
    else
      var k, v := CStr(pairs[0].0), CStr(pairs[0].1);
      if |k| > 0xFF || |v| > 0xFF then Error(Range)
      else Prepend([|k|] + k + [|v|] + v, PairBytes(pairs[1..]))
  }

  function Payload(r: Record): Result<Bytes>
    requires Representable(r)
  {
    match r
    case Heartbeat(uptime, seqNo) => Ok(Le32(uptime) + Le32(seqNo))
    case Geo(lat, lon, alt) => Ok(Le32(U32OfI32(lat)) + (Le32(U32OfI32(lon)) + Le32(U32OfI32(alt))))
    case Battery(pct, temp, cycles) => Ok([pct] + (Le16(U16OfI16(temp)) + Le32(cycles)))
    case Net(iface, a, b, c, d) => Ok([iface] + (Le32(a) + (Le32(b) + (Le32(c) + Le32(d)))))
    case Firmware(major, minor, patch, hash) => Ok(Le16(major) + (Le16(minor) + (Le16(patch) + hash)))
    case Sensor(id, samples) => Ok(Le16(id) + ([|samples|] + SampleBytes(samples)))
    case Event(code, payload) => Ok(Le16(code) + (Le16(|payload|) + payload))
    case Log(severity, msg) => Ok([severity] + (Le16(|msg|) + msg))
    case Config(pairs) => Prepend([|pairs|], PairBytes(pairs))
    case Keyref(slot, text, _) => Ok([slot] + ([|text|] + text))
    case Diag(subsystem, blob, _) => Ok(Le16(subsystem) + (Le16(|blob|) + blob))
    case Unknown(_) => Error(BadRecord)
  }

  // ---- parsing ----

  function TakeSamples(s: Bytes, n: nat): Result<seq<u32>> {
    if n == 0 then Ok([])
    else
      var (bits, rest) :- TakeU32(s);
      var more :- TakeSamples(rest, n - 1);
      Ok([bits] + more)
  }

  function TakeStr(s: Bytes): Result<(Bytes, Bytes)> {
    var (n, rest) :- TakeU8(s);
    TakeBytes(rest, n)
  }

  function TakePairs(s: Bytes, n: nat): Result<(seq<(Bytes, Bytes)>, Bytes)> {
    if n == 0 then Ok(([], s))
    else
      var (k, afterKey) :- TakeStr(s);
      var (v, afterValue) :- TakeStr(afterKey);
      var (more, rest) :- TakePairs(afterValue, n - 1);
      Ok(([(k, v)] + more, rest))
  }

  function ParseHeartbeat(s: Bytes): Result<Record> {
    if |s| != 8 then Error(BadRecord)
    else
      var (uptime, s1) :- TakeU32(s);
      var (seqNo, _) :- TakeU32(s1);
      Ok(Heartbeat(uptime, seqNo))
  }

  function ParseGeo(s: Bytes): Result<Record> {
    if |s| != 12 then Error(BadRecord)
    else
      var (lat, s1) :- TakeU32(s);
      var (lon, s2) :- TakeU32(s1);
      var (alt, _) :- TakeU32(s2);
      Ok(Geo(I32OfU32(lat), I32OfU32(lon), I32OfU32(alt)))
  }

  function ParseBattery(s: Bytes): Result<Record> {
    if |s| != 7 then Error(BadRecord)
    else
      var (pct, s1) :- TakeU8(s);
      var (temp, s2) :- TakeU16(s1);
      var (cycles, _) :- TakeU32(s2);
      Ok(Battery(pct, I16OfU16(temp), cycles))
  }

  /** The NET parser followed by the registry's range rule. */
  function ParseNet(s: Bytes): Result<Record> {
    if |s| != 17 then Error(BadRecord)
    else
      var (iface, s1) :- TakeU8(s);
      var (a, s2) :- TakeU32(s1);
      var (b, s3) :- TakeU32(s2);
      var (c, s4) :- TakeU32(s3);
      var (d, _) :- TakeU32(s4);
      if iface >= IFACE_RESERVED then Error(BadRecord) else Ok(Net(iface, a, b, c, d))
  }

  function ParseFirmware(s: Bytes): Result<Record> {
    if |s| != 14 then Error(BadRecord)
    else
      var (major, s1) :- TakeU16(s);
      var (minor, s2) :- TakeU16(s1);
      var (patch, s3) :- TakeU16(s2);
      var (hash, _) :- TakeBytes(s3, 8);
      Ok(Firmware(major, minor, patch, hash))
  }

  function ParseSensor(s: Bytes): Result<Record> {
    var (id, s1) :- TakeU16(s);
    var (count, s2) :- TakeU8(s1);
    if |s2| != 4 * count then Error(BadRecord)
    else
      var samples :- TakeSamples(s2, count);
      Ok(Sensor(id, samples))
  }

  function ParseEvent(s: Bytes): Result<Record> {
    var (code, s1) :- TakeU16(s);
    var (n, s2) :- TakeU16(s1);
    if n != |s2| then Error(BadRecord) else Ok(Event(code, s2))
  }

  function ParseLog(s: Bytes): Result<Record> {
    var (severity, s1) :- TakeU8(s);
    if severity > MAX_SEVERITY then Error(BadRecord)
    else
      var (n, s2) :- TakeU16(s1);
      if n != |s2| then Error(BadRecord) else Ok(Log(severity, s2))
  }

  function ParseConfig(s: Bytes): Result<Record> {
    var (count, s1) :- TakeU8(s);
    var (pairs, rest) :- TakePairs(s1, count);
    if rest != [] then Error(BadRecord) else Ok(Config(pairs))
  }

  function ParseKeyref(s: Bytes): Result<Record> {
    var (slot, s1) :- TakeU8(s);
    var (n, s2) :- TakeU8(s1);
    var (text, rest) :- TakeBytes(s2, n);
    if rest != [] then Error(BadRecord) else Ok(Keyref(slot, text, false))
  }

  function ParseDiag(s: Bytes): Result<Record> {
    var (subsystem, s1) :- TakeU16(s);
    var (n, s2) :- TakeU16(s1);
    if n != |s2| then Error(BadRecord) else Ok(Diag(subsystem, s2, false))
  }

  function Parse(tag: byte, s: Bytes): Result<Record> {
    if tag == 0x10 then ParseHeartbeat(s)
    else if tag == 0x14 then ParseGeo(s)
    else if tag == 0x15 then ParseBattery(s)
    else if tag == 0x16 then ParseNet(s)
    else if tag == 0x1A then ParseFirmware(s)
    else if tag == 0x11 then ParseSensor(s)
    else if tag == 0x12 then ParseEvent(s)
    else if tag == 0x17 then ParseLog(s)
    else if tag == 0x18 then ParseConfig(s)
    else if tag == 0x19 then ParseKeyref(s)
    else if tag == 0x13 then ParseDiag(s)
    else Error(BadRecord)
  }

  // ---- round trips ----

  function CanonPairs(pairs: seq<(Bytes, Bytes)>): (r: seq<(Bytes, Bytes)>)
    ensures |r| == |pairs|
  {
    if pairs == [] then [] else [(CStr(pairs[0].0), CStr(pairs[0].1))] + CanonPairs(pairs[1..])
  }

  /** What survives the wire: strings end at their first NUL and the redaction
      flags, which have no wire form, are clear. */
  function Canon(r: Record): Record {
    match r
    case Config(pairs) => Config(CanonPairs(pairs))
    case Keyref(slot, text, _) => Keyref(slot, text, false)
    case Diag(subsystem, blob, _) => Diag(subsystem, blob, false)
    case _ => r
  }

  predicate NulFree(pairs: seq<(Bytes, Bytes)>) {
    forall i | 0 <= i < |pairs| :: 0 !in pairs[i].0 && 0 !in pairs[i].1
  }

  /** Exactly the records that the wire preserves. */
  predicate Plain(r: Record) {
    match r
    case Config(pairs) => NulFree(pairs)
    case Keyref(_, _, redacted) => !redacted
    case Diag(_, _, redacted) => !redacted
    case _ => true
  }

  /** Records the parsers accept, with an encoding that fits a TLV. */
  predicate WellFormed(r: Record) {
    && Representable(r)
    && Payload(r).Ok? && |Payload(r).value| <= 0xFFFF
    && (r.Log? ==> r.severity <= MAX_SEVERITY)
    && (r.Net? ==> r.iface < IFACE_RESERVED)
  }

  lemma {:induction false} CanonPairsSame(pairs: seq<(Bytes, Bytes)>)
    ensures CanonPairs(pairs) == pairs <==> NulFree(pairs)
  {
    if pairs != [] {
      CanonPairsSame(pairs[1..]);
      assert pairs == [pairs[0]] + pairs[1..];
      assert CanonPairs(pairs)[1..] == CanonPairs(pairs[1..]);
      if NulFree(pairs[1..]) && 0 !in pairs[0].0 && 0 !in pairs[0].1 {
        assert forall i | 1 <= i < |pairs| :: pairs[i] == pairs[1..][i - 1];
      }
    }
  }

  lemma {:induction false} CanonPairBytes(pairs: seq<(Bytes, Bytes)>)
    ensures PairBytes(CanonPairs(pairs)) == PairBytes(pairs)
  {
    if pairs != [] {
      CanonPairBytes(pairs[1..]);
      CStrTwice(pairs[0].0);
      CStrTwice(pairs[0].1);
      assert CanonPairs(pairs)[1..] == CanonPairs(pairs[1..]);
    }
  }

  lemma CanonSame(r: Record)
    ensures Canon(r) == r <==> Plain(r)
  {
    if r.Config? { CanonPairsSame(r.pairs); }
  }

  lemma {:induction false} SamplesBack(samples: seq<u32>)
    ensures TakeSamples(SampleBytes(samples), |samples|) == Ok(samples)
  {
    if samples != [] {
      TakesBack(0, 0, samples[0], [], SampleBytes(samples[1..]));
      SamplesBack(samples[1..]);
      assert samples == [samples[0]] + samples[1..];
    }
  }

  lemma StrBack(k: Bytes, rest: Bytes)
    requires |k| <= 0xFF
    ensures TakeStr([|k|] + k + rest) == Ok((k, rest))
  {
    assert [|k|] + k + rest == [|k|] + (k + rest);
    TakesBack(|k|, 0, 0, [], k + rest);
    TakesBack(0, 0, 0, k, rest);
  }

  lemma PairBack(k: Bytes, v: Bytes, more: Bytes, n: nat)
    requires |k| <= 0xFF && |v| <= 0xFF
    ensures TakePairs([|k|] + k + [|v|] + v + more, n + 1)
         == match TakePairs(more, n)
            case Ok((pairs, rest)) => Ok(([(k, v)] + pairs, rest))
            case Error(e) => Error(e)
  {
    var afterKey := [|v|] + v + more;
    StrBack(k, afterKey);
    StrBack(v, more);
    assert [|k|] + k + [|v|] + v + more == [|k|] + k + afterKey;
  }

  lemma {:induction false} PairsBack(pairs: seq<(Bytes, Bytes)>, rest: Bytes)
    requires PairBytes(pairs).Ok?
    ensures TakePairs(PairBytes(pairs).value + rest, |pairs|) == Ok((CanonPairs(pairs), rest))
  {
    if pairs != [] {
      var k, v := CStr(pairs[0].0), CStr(pairs[0].1);
      var tail := PairBytes(pairs[1..]).value;
      PairsBack(pairs[1..], rest);
      PairBack(k, v, tail + rest, |pairs| - 1);
      Assoc([|k|] + k + [|v|] + v, tail, rest);
    } else {
      assert [] + rest == rest;
    }
  }

  lemma ParseWord(w: u32, rest: Bytes)
    ensures TakeU32(Le32(w) + rest) == Ok((w, rest))
  {
    TakesBack(0, 0, w, [], rest);
  }

  lemma ParseHalf(h: u16, rest: Bytes)
    ensures TakeU16(Le16(h) + rest) == Ok((h, rest))
  {
    TakesBack(0, h, 0, [], rest);
  }

  lemma ParseOne(b: byte, rest: Bytes)
    ensures TakeU8([b] + rest) == Ok((b, rest))
  {
    TakesBack(b, 0, 0, [], rest);
  }

  lemma FixedRoundTrip(r: Record)
    requires r.Heartbeat? || r.Geo? || r.Battery?
    ensures Parse(TagOf(r), Payload(r).value) == Ok(Canon(r))
  {
    match r
    case Heartbeat(uptime, seqNo) =>
      ParseWord(uptime, Le32(seqNo));
      ParseWord(seqNo, []);
      assert Le32(seqNo) + [] == Le32(seqNo);
    case Geo(lat, lon, alt) =>
      ParseWord(U32OfI32(alt), []);
      assert Le32(U32OfI32(alt)) + [] == Le32(U32OfI32(alt));
      ParseWord(U32OfI32(lon), Le32(U32OfI32(alt)));
      ParseWord(U32OfI32(lat), Le32(U32OfI32(lon)) + Le32(U32OfI32(alt)));
    case Battery(pct, temp, cycles) =>
      ParseWord(cycles, []);
      assert Le32(cycles) + [] == Le32(cycles);
      ParseHalf(U16OfI16(temp), Le32(cycles));
      ParseOne(pct, Le16(U16OfI16(temp)) + Le32(cycles));
  }

  lemma NetRoundTrip(r: Record)
    requires r.Net? && r.iface < IFACE_RESERVED
    ensures Parse(TagOf(r), Payload(r).value) == Ok(Canon(r))
  {
    var s4 := Le32(r.txPkts);
    var s3 := Le32(r.rxPkts) + s4;
    var s2 := Le32(r.txBytes) + s3;
    var s1 := Le32(r.rxBytes) + s2;
    ParseOne(r.iface, s1);
    ParseWord(r.rxBytes, s2);
    ParseWord(r.txBytes, s3);
    ParseWord(r.rxPkts, s4);
    ParseWord(r.txPkts, []);
    assert s4 + [] == s4;
  }

  lemma FirmwareRoundTrip(r: Record)
    requires r.Firmware? && Representable(r)
    ensures Parse(TagOf(r), Payload(r).value) == Ok(Canon(r))
  {
    TakesBack(0, 0, 0, r.hash, []);
    assert r.hash + [] == r.hash;
    ParseHalf(r.patch, r.hash);
    ParseHalf(r.minor, Le16(r.patch) + r.hash);
    ParseHalf(r.major, Le16(r.minor) + (Le16(r.patch) + r.hash));
  }

  lemma SensorRoundTrip(r: Record)
    requires r.Sensor? && Representable(r)
    ensures Parse(TagOf(r), Payload(r).value) == Ok(Canon(r))
  {
    SamplesBack(r.samples);
    ParseOne(|r.samples|, SampleBytes(r.samples));
    ParseHalf(r.sensorId, [|r.samples|] + SampleBytes(r.samples));
  }

  lemma BlobRoundTrip(r: Record)
    requires (r.Event? || r.Diag? || (r.Log? && r.severity <= MAX_SEVERITY)) && Representable(r)
    ensures Parse(TagOf(r), Payload(r).value) == Ok(Canon(r))
  {
    match r
    case Event(code, payload) =>
      ParseHalf(|payload|, payload);
      ParseHalf(code, Le16(|payload|) + payload);
    case Diag(subsystem, blob, _) =>
      ParseHalf(|blob|, blob);
      ParseHalf(subsystem, Le16(|blob|) + blob);
    case Log(severity, msg) =>
      ParseHalf(|msg|, msg);
      ParseOne(severity, Le16(|msg|) + msg);
  }

  lemma ConfigBack(pairs: seq<(Bytes, Bytes)>)
    requires |pairs| <= 0xFF && PairBytes(pairs).Ok?
    ensures ParseConfig([|pairs|] + PairBytes(pairs).value) == Ok(Config(CanonPairs(pairs)))
  {
    var body := PairBytes(pairs).value;
    assert body + [] == body;
    PairsBack(pairs, []);
    ParseOne(|pairs|, body);
  }

  lemma ConfigRoundTrip(r: Record)
    requires r.Config? && Representable(r) && PairBytes(r.pairs).Ok?
    ensures Parse(TagOf(r), Payload(r).value) == Ok(Canon(r))
  {
    ConfigBack(r.pairs);
  }

  lemma KeyrefRoundTrip(r: Record)
    requires r.Keyref? && Representable(r)
    ensures Parse(TagOf(r), Payload(r).value) == Ok(Canon(r))
  {
    TakesBack(0, 0, 0, r.text, []);
    assert r.text + [] == r.text;
    ParseOne(|r.text|, r.text);
    ParseOne(r.slot, [|r.text|] + r.text);
  }

  /** Payload decoding inverts payload encoding, up to what the wire can carry. */
  lemma PayloadRoundTrip(r: Record)
    requires WellFormed(r)
    ensures Parse(TagOf(r), Payload(r).value) == Ok(Canon(r))
  {
    if r.Heartbeat? || r.Geo? || r.Battery? { FixedRoundTrip(r); }
    else if r.Net? { NetRoundTrip(r); }
    else if r.Firmware? { FirmwareRoundTrip(r); }
    else if r.Sensor? { SensorRoundTrip(r); }
    else if r.Config? { ConfigRoundTrip(r); }
    else if r.Keyref? { KeyrefRoundTrip(r); }
    else { BlobRoundTrip(r); }
  }

  // ---- what a parsed record looks like ----

  lemma {:induction false} TakePairsShape(s: Bytes, n: nat)
    requires TakePairs(s, n).Ok?
    ensures var (pairs, rest) := TakePairs(s, n).value;
            && |pairs| == n && PairBytes(pairs).Ok?
            && |PairBytes(pairs).value| + |rest| <= |s|
  {
    if n > 0 {
      var (k, afterKey) := TakeStr(s).value;
      var (v, afterValue) := TakeStr(afterKey).value;
      TakePairsShape(afterValue, n - 1);
      var (pairs, _) := TakePairs(s, n).value;
      assert pairs[1..] == TakePairs(afterValue, n - 1).value.0;
      assert |CStr(k)| <= |k| && |CStr(v)| <= |v|;
    }
  }

  lemma {:induction false} TakeSamplesShape(s: Bytes, n: nat)
    requires |s| >= 4 * n
    ensures TakeSamples(s, n).Ok? && |TakeSamples(s, n).value| == n
  {
    if n > 0 { TakeSamplesShape(s[4..], n - 1); }
  }

  /** A parsed record can be written again in no more bytes than it came from. */
  ghost predicate Rewritable(r: Result<Record>, tag: byte, n: nat) {
    r.Ok? ==> TagOf(r.value) == tag && WellFormed(r.value) && |Payload(r.value).value| <= n
  }

  lemma WordsRewritable(s: Bytes)
    ensures Rewritable(ParseHeartbeat(s), 0x10, |s|) && Rewritable(ParseGeo(s), 0x14, |s|)
    ensures Rewritable(ParseNet(s), 0x16, |s|)
  {
    hide FromLe32;
  }

  lemma MixedRewritable(s: Bytes)
    ensures Rewritable(ParseBattery(s), 0x15, |s|) && Rewritable(ParseFirmware(s), 0x1A, |s|)
  {
    hide FromLe32, FromLe16;
  }

  lemma BlobsRewritable(s: Bytes)
    requires |s| <= 0xFFFF
    ensures Rewritable(ParseEvent(s), 0x12, |s|) && Rewritable(ParseDiag(s), 0x13, |s|)
  {
    hide FromLe16;
  }

  lemma TextsRewritable(s: Bytes)
    requires |s| <= 0xFFFF
    ensures Rewritable(ParseLog(s), 0x17, |s|) && Rewritable(ParseKeyref(s), 0x19, |s|)
  {
    hide FromLe16;
  }

  lemma SensorRewritable(s: Bytes)
    ensures Rewritable(ParseSensor(s), 0x11, |s|)
  {
    if |s| >= 3 && |s| - 3 == 4 * (s[2] as int) { TakeSamplesShape(s[3..], s[2]); }
  }

  lemma ConfigRewritable(s: Bytes)
    requires |s| <= 0xFFFF
    ensures Rewritable(ParseConfig(s), 0x18, |s|)
  {
    if ParseConfig(s).Ok? { TakePairsShape(s[1..], s[0]); }
  }

  /** What the parsers accept can be written again in no more bytes. */
  lemma ParsedIsWellFormed(tag: byte, s: Bytes)
    requires |s| <= 0xFFFF
    ensures Rewritable(Parse(tag, s), tag, |s|)
  {
    hide Rewritable;
    if tag in {0x10, 0x14, 0x16} { WordsRewritable(s); }
    else if tag in {0x15, 0x1A} { MixedRewritable(s); }
    else if tag == 0x11 { SensorRewritable(s); }
    else if tag == 0x18 { ConfigRewritable(s); }
    else if tag in {0x12, 0x13} { BlobsRewritable(s); }
    else if tag in {0x17, 0x19} { TextsRewritable(s); }
    else { NeverParsed(tag, s); }
  }

  lemma NeverParsed(tag: byte, s: Bytes)
    requires !KnownTag(tag)
    ensures Rewritable(Parse(tag, s), tag, |s|)
  {
  }
}
