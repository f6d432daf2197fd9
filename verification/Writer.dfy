/** The encoder object itself: fields, buffer growth, back-patched lengths
    (src/writer/writer.c), proved against the state machine. */
module Writer {
  import opened Core
  import opened Records
  import opened WriterSpec
  import Codecs
  import Container
  import Crc
  import Tlv

  const SIZE_MAX := 0xFFFF_FFFF_FFFF_FFFF

  class Encoder {
    var sections: seq<Container.Packed>
    var inSection: bool
    var curType: u16
    var curCodec: byte
    var tlv: array<byte>
    var tlvLen: nat
    var hmacKey: Option<Bytes>
    var err: Option<Err>
    /** The error of a failed allocation, when that is what was latched. */
    ghost var lapse: Option<Err>

    ghost predicate Valid()
      reads this
    {
      && tlvLen <= tlv.Length
      && |sections| <= MAX_SECTIONS && (inSection ==> |sections| < MAX_SECTIONS)
      && (lapse.Some? ==> err == lapse)
    }

    /** The bytes accumulated for the current section. */
    ghost function Accumulated(): Bytes
      reads this, tlv
      requires Valid()
    {
      tlv[..tlvLen]
    }

    /** The abstract state. */
    ghost function View(): State
      reads this, tlv
      requires Valid()
    {
      if err.Some? then Failed(err.value)
      else Active(sections, if inSection then Some(Open(curType, curCodec, Accumulated())) else None, hmacKey)
    }

    constructor ()
      ensures Valid() && View() == INITIAL && fresh(tlv)
    {
      sections, inSection, curType, curCodec := [], false, 0, 0;
      tlv, tlvLen := new byte[0], 0;
      hmacKey, err, lapse := None, None, None;
    }

    // ---- the growable accumulator ----

    /** What the accumulator primitives leave alone. */
    twostate predicate SameSection()
      reads this
    {
      && sections == old(sections) && inSection == old(inSection) && curType == old(curType)
      && curCodec == old(curCodec) && hmacKey == old(hmacKey)
    }

    /** `dtl_writer_reserve`: room for `need` more bytes, by doubling. Within a call
        the only error latched before the payload is checked is a failed allocation. */
    method Reserve(need: nat) returns (ok: bool)
      requires Valid() && lapse == err
      modifies this
      ensures Valid() && lapse == err && SameSection() && (tlv == old(tlv) || fresh(tlv))
      ensures ok <==> err.None?
      ensures ok ==> old(err).None? && tlvLen == old(tlvLen) && need <= tlv.Length - tlvLen
      ensures ok ==> Accumulated() == old(Accumulated())
    {
      if err.Some? {
        return false;
      }
      if tlv.Length - tlvLen >= need {
        return true;
      }
      var want := tlvLen + need;
      if want > SIZE_MAX {
        err, lapse := Some(Range), Some(Range);
        return false;
      }
      var newcap := if tlv.Length != 0 then tlv.Length else 64;
      while newcap < want
        invariant newcap > 0 && err.None? && lapse.None?
        invariant SameSection() && tlv == old(tlv) && tlvLen == old(tlvLen)
        decreases want - newcap
      {
        if newcap > SIZE_MAX / 2 {
          err, lapse := Some(Oom), Some(Oom);
          return false;
        }
        newcap := newcap * 2;
      }
      var room := Codecs.Allocate(newcap);
      if !room {
        err, lapse := Some(Oom), Some(Oom);
        return false;
      }
      var bytes := tlv[..tlvLen];
      tlv := new byte[newcap](i requires 0 <= i < newcap => if i < |bytes| then bytes[i] else 0);
      assert tlv[..tlvLen] == bytes;
      return true;
    }

    /** Either `s` was appended or an allocation failure is latched. */
    twostate predicate Appended(s: Bytes)
      requires old(Valid()) && Valid()
      reads this, tlv
    {
      && SameSection() && lapse == err
      && (err.None? ==> old(err).None? && Accumulated() == old(Accumulated()) + s)
    }

    /** `dtl_writer_bytes`; the fixed-width writers pass their little-endian form. */
    method Put(s: Bytes)
      requires Valid() && lapse == err
      modifies this, tlv
      ensures Valid() && (tlv == old(tlv) || fresh(tlv)) && Appended(s)
    {
      var ok := Reserve(|s|);
      if !ok {
        return;
      }
      ghost var before := Accumulated();
      forall k | 0 <= k < |s| {
        tlv[tlvLen + k] := s[k];
      }
      tlvLen := tlvLen + |s|;
      assert Accumulated() == before + s;
    }

    // ---- payloads ----

    /** What encoding a payload leaves: a failed allocation, or else its bytes or
        its own error, which replaces whatever was latched. */
    twostate predicate Encoded(p: Result<Bytes>)
      requires old(Valid()) && Valid()
      reads this, tlv
    {
      && SameSection()
      && (lapse.None? ==>
            match p
            case Ok(s) => err.None? && old(err).None? && Accumulated() == old(Accumulated()) + s
            case Error(e) => err == Some(e))
    }

    method PutSamples(samples: seq<u32>)
      requires Valid() && lapse == err
      modifies this, tlv
      ensures Valid() && (tlv == old(tlv) || fresh(tlv)) && Appended(SampleBytes(samples))
    {
      ghost var goal := Accumulated() + SampleBytes(samples);
      assert samples[0..] == samples;
      for i := 0 to |samples|
        invariant Valid() && (tlv == old(tlv) || fresh(tlv)) && SameSection() && lapse == err
        invariant err.None? ==> old(err).None? && goal == Accumulated() + SampleBytes(samples[i..])
      {
        assert samples[i..][1..] == samples[i + 1..];
        Assoc(Accumulated(), Le32(samples[i]), SampleBytes(samples[i + 1..]));
        Put(Le32(samples[i]));
      }
      assert Accumulated() + [] == Accumulated();
    }

    method PutPair(k: Bytes, v: Bytes)
      requires Valid() && lapse == err && |k| <= 0xFF && |v| <= 0xFF
      modifies this, tlv
      ensures Valid() && (tlv == old(tlv) || fresh(tlv)) && Appended([|k|] + k + [|v|] + v)
    {
      ghost var start := Accumulated();
      Put2([|k|], k);
      Put2([|v|], v);
      assert start + ([|k|] + k) + ([|v|] + v) == start + ([|k|] + k + [|v|] + v);
    }

    lemma NoPairs()
      ensures PairBytes([]) == Ok([])
    {
    }

    lemma PairStep(start: Bytes, pairs: seq<(Bytes, Bytes)>)
      requires pairs != []
      ensures var k, v := CStr(pairs[0].0), CStr(pairs[0].1);
              Prepend(start, PairBytes(pairs))
                == if |k| > 0xFF || |v| > 0xFF then Error(Range)
                   else Prepend(start + ([|k|] + k + [|v|] + v), PairBytes(pairs[1..]))
    {
      var k, v := CStr(pairs[0].0), CStr(pairs[0].1);
      if |k| <= 0xFF && |v| <= 0xFF {
        PrependMore(start, [|k|] + k + [|v|] + v, PairBytes(pairs[1..]));
      }
    }

    method PutPairs(pairs: seq<(Bytes, Bytes)>)
      requires Valid() && lapse == err
      modifies this, tlv
      ensures Valid() && (tlv == old(tlv) || fresh(tlv)) && Encoded(PairBytes(pairs))
    {
      hide PairBytes, CStr;
      ghost var start: Bytes, done: Bytes := Accumulated(), [];
      PrependNothing(PairBytes(pairs));
      NoPairs();
      assert pairs[0..] == pairs && start + done == start;
      for i := 0 to |pairs|
        invariant Valid() && (tlv == old(tlv) || fresh(tlv)) && SameSection() && lapse == err
        invariant PairBytes(pairs) == Prepend(done, PairBytes(pairs[i..]))
        invariant err.None? ==> old(err).None? && Accumulated() == start + done
      {
        var k, v := CStr(pairs[i].0), CStr(pairs[i].1);
        PairStep(done, pairs[i..]);
        assert pairs[i..][1..] == pairs[i + 1..];
        if |k| > 0xFF || |v| > 0xFF {
          err, lapse := Some(Range), None;
          return;
        }
        Assoc(start, done, [|k|] + k + [|v|] + v);
        done := done + ([|k|] + k + [|v|] + v);
        PutPair(k, v);
      }
      assert pairs[|pairs|..] == [] && done + [] == done;
      assert PairBytes(pairs) == Ok(done);
    }

    method Put2(a: Bytes, b: Bytes)
      requires Valid() && lapse == err
      modifies this, tlv
      ensures Valid() && (tlv == old(tlv) || fresh(tlv)) && Appended(a + b)
    {
      Put(a);
      Put(b);
    }

    method Put3(a: Bytes, b: Bytes, c: Bytes)
      requires Valid() && lapse == err
      modifies this, tlv
      ensures Valid() && (tlv == old(tlv) || fresh(tlv)) && Appended(a + (b + c))
    {
      Put(a);
      Put2(b, c);
    }

    method PutNet(iface: byte, a: u32, b: u32, c: u32, d: u32)
      requires Valid() && lapse == err
      modifies this, tlv
      ensures Valid() && (tlv == old(tlv) || fresh(tlv))
      ensures Appended([iface] + (Le32(a) + (Le32(b) + (Le32(c) + Le32(d)))))
    {
      hide Le32;
      Put2([iface], Le32(a));
      Put3(Le32(b), Le32(c), Le32(d));
    }

    method PutFirmware(major: u16, minor: u16, patch: u16, hash: Bytes)
      requires Valid() && lapse == err
      modifies this, tlv
      ensures Valid() && (tlv == old(tlv) || fresh(tlv))
      ensures Appended(Le16(major) + (Le16(minor) + (Le16(patch) + hash)))
    {
      hide Le16;
      Put(Le16(major));
      Put3(Le16(minor), Le16(patch), hash);
    }

    method PutConfig(pairs: seq<(Bytes, Bytes)>)
      requires Valid() && lapse == err && |pairs| <= 0xFF
      modifies this, tlv
      ensures Valid() && (tlv == old(tlv) || fresh(tlv)) && Encoded(Prepend([|pairs|], PairBytes(pairs)))
    {
      hide PairBytes;
      ghost var start := Accumulated();
      Put([|pairs|]);
      PutPairs(pairs);
      if PairBytes(pairs).Ok? { Assoc(start, [|pairs|], PairBytes(pairs).value); }
    }

    method PutSensor(id: u16, samples: seq<u32>)
      requires Valid() && lapse == err && |samples| <= 0xFF
      modifies this, tlv
      ensures Valid() && (tlv == old(tlv) || fresh(tlv)) && Appended(Le16(id) + ([|samples|] + SampleBytes(samples)))
    {
      hide SampleBytes;
      Put2(Le16(id), [|samples|]);
      PutSamples(samples);
    }

    /** `dtl_writer_payload` */
    method PutPayload(r: Record)
      requires Valid() && lapse == err && Representable(r)
      modifies this, tlv
      ensures Valid() && (tlv == old(tlv) || fresh(tlv)) && Encoded(Payload(r))
    {
      hide Le32, Le16, U32OfI32, U16OfI16;
      match r {
        case Heartbeat(uptime, seqNo) => Put2(Le32(uptime), Le32(seqNo));
        case Geo(lat, lon, alt) => Put3(Le32(U32OfI32(lat)), Le32(U32OfI32(lon)), Le32(U32OfI32(alt)));
        case Battery(pct, temp, cycles) => Put3([pct], Le16(U16OfI16(temp)), Le32(cycles));
        case Net(iface, a, b, c, d) => PutNet(iface, a, b, c, d);
        case Firmware(major, minor, patch, hash) => PutFirmware(major, minor, patch, hash);
        case Sensor(id, samples) => PutSensor(id, samples);
        case Event(code, payload) => Put3(Le16(code), Le16(|payload|), payload);
        case Log(severity, msg) => Put3([severity], Le16(|msg|), msg);
        case Config(pairs) => PutConfig(pairs);
        case Keyref(slot, text, _) => Put3([slot], [|text|], text);
        case Diag(subsystem, blob, _) => Put3(Le16(subsystem), Le16(|blob|), blob);
        case Unknown(_) => err, lapse := Some(BadRecord), None;
      }
    }

    // ---- the public calls ----

    /** `dtl_writer_begin_section`: the section's index, or -1. */
    method BeginSection(ty: u16, codec: byte) returns (handle: int)
      requires Valid()
      modifies this
      ensures Valid() && tlv == old(tlv)
      ensures View() == Step(old(View()), Begin(ty, codec), None)
      ensures handle == if err.Some? then -1 else |sections|
    {
      if err.Some? {
        return -1;
      }
      if inSection {
        err := Some(Inval);
        return -1;
      }
      if |sections| >= MAX_SECTIONS {
        err := Some(Range);
        return -1;
      }
      inSection, curType, curCodec, tlvLen := true, ty, codec, 0;
      return |sections|;
    }

    /** Overwrites the length placeholder at `at`. */
    method Patch(at: nat, len: u16, ghost head: Bytes, ghost payload: Bytes)
      requires Valid() && at == |head| && |payload| == len
      requires Accumulated() == head + Le16(0) + payload
      modifies tlv
      ensures Valid() && Accumulated() == head + (Le16(len) + payload)
    {
      var le := Le16(len);
      assert tlvLen == |Accumulated()|;
      tlv[at], tlv[at + 1] := le[0], le[1];
      assert Accumulated()[..at] == head && Accumulated()[at..at + 2] == le && Accumulated()[at + 2..] == payload;
    }

    /** `dtl_writer_emit_tlv`: tag, placeholder, payload, and then the real length. */
    method Emit(tag: byte, rec: Option<Record>, raw: Bytes)
      requires Valid() && (rec.Some? ==> Representable(rec.value) && TagOf(rec.value) == tag)
      requires |raw| <= 0xFFFF
      modifies this, tlv
      ensures Valid() && (tlv == old(tlv) || fresh(tlv))
      ensures View() == Step(old(View()), if rec.Some? then AddRecord(rec.value) else AddRaw(tag, raw), lapse)
    {
      hide Payload, Representable, TagOf, Le16;
      if err.Some? {
        return;
      }
      if !inSection {
        err := Some(Inval);
        return;
      }
      ghost var start := Accumulated();
      Put([tag]);
      var lenOff := tlvLen;
      Put(Le16(0));
      var payloadStart := tlvLen;
      ghost var p := if rec.Some? then Payload(rec.value) else Ok(raw);
      match rec {
        case Some(r) => PutPayload(r);
        case None => Put(raw);
      }
      if err.Some? {
        return;
      }
      var plen := tlvLen - payloadStart;
      if plen > 0xFFFF {
        err := Some(Range);
        return;
      }
      Patch(lenOff, plen, start + [tag], p.value);
      Assoc(start, [tag], Le16(plen) + p.value);
    }

    method AddOne(rec: Record)
      requires Valid() && Representable(rec)
      modifies this, tlv
      ensures Valid() && (tlv == old(tlv) || fresh(tlv))
      ensures View() == Step(old(View()), AddRecord(rec), lapse)
    {
      Emit(TagOf(rec), Some(rec), []);
    }

    method AddRawTlv(tag: byte, payload: Bytes)
      requires Valid() && |payload| <= 0xFFFF
      modifies this, tlv
      ensures Valid() && (tlv == old(tlv) || fresh(tlv))
      ensures View() == Step(old(View()), AddRaw(tag, payload), lapse)
    {
      Emit(tag, None, payload);
    }

    method Stage(vals: seq<u32>, staging: array<byte>)
      requires staging.Length == 4 * |vals|
      modifies staging
      ensures staging[..] == SampleBytes(vals)
    {
      assert vals[0..] == vals;
      for i := 0 to |vals|
        invariant SampleBytes(vals) == staging[..4 * i] + SampleBytes(vals[i..])
      {
        ghost var done := staging[..4 * i];
        var le := Le32(vals[i]);
        assert vals[i..][1..] == vals[i + 1..];
        Assoc(done, le, SampleBytes(vals[i + 1..]));
        forall k | 0 <= k < 4 {
          staging[4 * i + k] := le[k];
        }
        assert staging[..4 * (i + 1)] == done + le;
      }
      assert staging[..4 * |vals|] == staging[..];
    }

    method AddU32Batch(tag: byte, vals: seq<u32>)
      requires Valid()
      modifies this, tlv
      ensures Valid() && (tlv == old(tlv) || fresh(tlv))
      ensures View() == Step(old(View()), AddBatch(tag, vals), lapse)
    {
      hide SampleBytes;
      if err.Some? {
        return;
      }
      if |vals| > MAX_BATCH {
        err := Some(Range);
        return;
      }
      var room := Codecs.Allocate(4 * |vals|);
      if !room {
        err := Some(Oom);
        if vals != [] { lapse := Some(Oom); }
        return;
      }
      var staging := new byte[4 * |vals|](_ => 0);
      Stage(vals, staging);
      Emit(tag, None, staging[..]);
    }

    /** `dtl_writer_end_section` */
    method EndSection()
      requires Valid()
      modifies this
      ensures Valid() && tlv == old(tlv)
      ensures View() == Step(old(View()), End, lapse)
    {
      hide Codecs.Unlimited;
      if err.Some? {
        return;
      }
      if !inSection {
        err := Some(Inval);
        return;
      }
      var raw := tlv[..tlvLen];
      if tlvLen == 0 || tlvLen > SECTION_MAX_RAW {
        err := Some(Range);
        return;
      }
      var codec := Codecs.Get(curCodec);
      if codec.None? {
        err := Some(BadRecord);
        return;
      }
      var out, _, lapsed := Codecs.Compress(codec.value, raw);
      if lapsed {
        err, lapse := Some(Oom), Some(Oom);
        return;
      }
      if out.Error? {
        err := Some(out.err);
        return;
      }
      if |out.value| > 0xFFFF_FFFF {
        err := Some(Range);
        return;
      }
      sections := sections + [Container.Packed(curType, curCodec, tlvLen, out.value)];
      inSection := false;
    }

    /** `dtl_writer_set_hmac` */
    method SetHmac(key: Bytes)
      requires Valid()
      modifies this
      ensures Valid() && tlv == old(tlv)
      ensures View() == Step(old(View()), SetKey(key), None)
    {
      if err.Some? {
        return;
      }
      hmacKey := Some(key);
    }

    /** `dtl_writer_finish`: the container, or the latched error; a failure of this
        call is latched too. */
    method FinishLog(mac: (Bytes, Bytes) -> Bytes) returns (r: Result<Bytes>)
      requires Valid() && forall k, b :: |mac(k, b)| == Container.MAC_LEN
      modifies this
      ensures Valid() && tlv == old(tlv)
      ensures old(err).None? && lapse.Some? ==> r == Error(Oom)
      ensures old(err).Some? || lapse.None? ==> r == Finish(old(View()), mac)
      ensures View() == if r.Error? then Failed(r.err) else old(View())
    {
      hide Container.Body;
      if err.Some? {
        return Error(err.value);
      }
      if inSection {
        err := Some(Inval);
        return Error(Inval);
      }
      var blobRegion := BlobRegion(sections);
      if blobRegion > 0xFFFF_FFFF {
        err := Some(Range);
        return Error(Range);
      }
      var flags: byte := if hmacKey.Some? then 1 else 0;
      var bodyLen := 12 + 16 * |sections| + blobRegion;
      var total := bodyLen + if hmacKey.Some? then Container.MAC_LEN else 0;
      var room := Codecs.Allocate(total);
      if !room {
        err, lapse := Some(Oom), Some(Oom);
        return Error(Oom);
      }
      var buf := new byte[total](_ => 0);
      LayOut(sections, flags, buf, bodyLen);
      if hmacKey.None? {
        assert buf[..] == buf[..bodyLen] + [];
        return Ok(buf[..]);
      }
      var digest := mac(hmacKey.value, buf[..bodyLen]);
      WriteAt(digest, buf, bodyLen);
      assert buf[..] == buf[..total];
      return Ok(buf[..]);
    }
  }

  lemma {:induction false} BlobsSnoc(ps: seq<Container.Packed>, i: nat)
    requires i < |ps|
    ensures Container.Blobs(ps[..i + 1]) == Container.Blobs(ps[..i]) + ps[i].blob
  {
    if i == 0 {
      assert ps[..1] == [ps[0]] && ps[..1][1..] == [] && ps[..0] == [];
      assert Container.Blobs(ps[..1]) == ps[0].blob + Container.Blobs([]);
    } else {
      BlobsSnoc(ps[1..], i - 1);
      assert ps[..i + 1][1..] == ps[1..][..i] && ps[..i][1..] == ps[1..][..i - 1];
    }
  }

  method BlobRegion(ps: seq<Container.Packed>) returns (n: nat)
    ensures n == |Container.Blobs(ps)|
  {
    n := 0;
    for i := 0 to |ps|
      invariant n == |Container.Blobs(ps[..i])|
    {
      BlobsSnoc(ps, i);
      n := n + |ps[i].blob|;
    }
    assert ps[..|ps|] == ps;
  }

  /** Copies `s` to offset `at`, extending what is already laid out. */
  method WriteAt(s: Bytes, buf: array<byte>, at: nat)
    requires at + |s| <= buf.Length
    modifies buf
    ensures buf[..at + |s|] == old(buf[..at]) + s
  {
    forall k | 0 <= k < |s| {
      buf[at + k] := s[k];
    }
  }

  lemma EntriesStep(ps: seq<Container.Packed>, acc: nat, done: Bytes)
    requires ps != [] && acc + |Container.Blobs(ps)| <= 0xFFFF_FFFF
    ensures var e := Container.Entry(ps[0].ty, ps[0].codec, ps[0].rawLen, |ps[0].blob|, acc);
            done + Container.TableBytes(Container.Entries(ps, acc))
              == done + Container.EntryBytes(e) + Container.TableBytes(Container.Entries(ps[1..], acc + |ps[0].blob|))
  {
    var e := Container.Entry(ps[0].ty, ps[0].codec, ps[0].rawLen, |ps[0].blob|, acc);
    var rest := Container.Entries(ps[1..], acc + |ps[0].blob|);
    assert Container.Entries(ps, acc)[1..] == rest;
    Assoc(done, Container.EntryBytes(e), Container.TableBytes(rest));
  }

  /** The section table, offsets being the running sum of blob lengths. */
  method LayTable(ps: seq<Container.Packed>, buf: array<byte>, start: nat)
    requires |Container.Blobs(ps)| <= 0xFFFF_FFFF && start + 16 * |ps| <= buf.Length
    modifies buf
    ensures buf[..start + 16 * |ps|] == old(buf[..start]) + Container.TableBytes(Container.Entries(ps, 0))
  {
    hide Container.EntryBytes;
    var tpos: nat, acc: nat := start, 0;
    ghost var goal := buf[..start] + Container.TableBytes(Container.Entries(ps, 0));
    assert ps[0..] == ps;
    for i := 0 to |ps|
      invariant tpos == start + 16 * i && acc + |Container.Blobs(ps[i..])| <= 0xFFFF_FFFF
      invariant goal == buf[..tpos] + Container.TableBytes(Container.Entries(ps[i..], acc))
    {
      var p := ps[i];
      assert ps[i..][1..] == ps[i + 1..] && ps[i..][0] == p;
      EntriesStep(ps[i..], acc, buf[..tpos]);
      WriteAt(Container.EntryBytes(Container.Entry(p.ty, p.codec, p.rawLen, |p.blob|, acc)), buf, tpos);
      tpos, acc := tpos + 16, acc + |p.blob|;
    }
  }

  method LayBlobs(ps: seq<Container.Packed>, buf: array<byte>, start: nat)
    requires start + |Container.Blobs(ps)| <= buf.Length
    modifies buf
    ensures buf[..start + |Container.Blobs(ps)|] == old(buf[..start]) + Container.Blobs(ps)
  {
    var bpos: nat := start;
    ghost var goal := buf[..start] + Container.Blobs(ps);
    assert ps[0..] == ps;
    for i := 0 to |ps|
      invariant bpos + |Container.Blobs(ps[i..])| == start + |Container.Blobs(ps)| && bpos <= buf.Length
      invariant goal == buf[..bpos] + Container.Blobs(ps[i..])
    {
      assert ps[i..][1..] == ps[i + 1..] && ps[i..][0] == ps[i];
      Assoc(buf[..bpos], ps[i].blob, Container.Blobs(ps[i + 1..]));
      WriteAt(ps[i].blob, buf, bpos);
      bpos := bpos + |ps[i].blob|;
    }
  }

  /** Header, table and blob region, written in place. */
  method LayOut(ps: seq<Container.Packed>, flags: byte, buf: array<byte>, bodyLen: nat)
    requires |ps| <= 0xFFFF && |Container.Blobs(ps)| <= 0xFFFF_FFFF
    requires bodyLen == 12 + 16 * |ps| + |Container.Blobs(ps)| <= buf.Length
    modifies buf
    ensures buf[..bodyLen] == Container.Body(ps, flags)
  {
    hide Crc.Crc32, Container.TableBytes, Container.Blobs;
    var first8 := Container.HeaderStart(flags, |ps|);
    assert buf[..0] == [];
    WriteAt(first8, buf, 0);
    assert buf[..8] == first8 by { assert [] + first8 == first8; }
    var crc := Crc.ComputeCrc32(buf[..8]);
    WriteAt(Le32(crc), buf, 8);
    assert buf[..12] == Container.Header(flags, |ps|);
    LayTable(ps, buf, 12);
    LayBlobs(ps, buf, 12 + 16 * |ps|);
    Container.EntriesTotal(ps, 0);
    Assoc(Container.Header(flags, |ps|), Container.TableBytes(Container.Entries(ps, 0)), Container.Blobs(ps));
  }
}
