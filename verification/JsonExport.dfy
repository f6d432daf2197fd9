/** The JSON emitters, as appends to an output stream (src/report/export.c). */
module JsonExport {
  import opened Core
  import opened Records
  import opened Lex
  import opened JsonText
  import opened Json
  import opened JsonRecords
  import opened JsonTool
  import Eval

  lemma {:induction false} EscapeSnoc(s: Bytes, c: byte)
    ensures Escape(s + [c]) == Escape(s) + EscapeByte(c)
  {
    hide EscapeByte;
    if s == [] {
      assert s + [c] == [c] && [c][1..] == [];
      assert Escape([c]) == EscapeByte(c) + Escape([]);
    } else {
      EscapeSnoc(s[1..], c);
      assert (s + [c])[1..] == s[1..] + [c];
    }
  }

  lemma {:induction false} HexSnoc(s: Bytes, c: byte)
    ensures Hex(s + [c]) == Hex(s) + [HexDigit(c / 16), HexDigit(c % 16)]
  {
    hide HexDigit;
    if s == [] {
      assert s + [c] == [c] && [c][1..] == [];
      assert Hex([c]) == [HexDigit(c / 16), HexDigit(c % 16)] + Hex([]);
    } else {
      HexSnoc(s[1..], c);
      assert (s + [c])[1..] == s[1..] + [c];
    }
  }

  lemma {:induction false} MembersSnoc(ms: seq<(Bytes, Json)>, m: (Bytes, Json))
    ensures ShowMembers(ms + [m]) == if ms == [] then ShowMember(m) else ShowMembers(ms) + ([COMMA] + ShowMember(m))
  {
    hide ShowMember;
    if ms == [] {
      assert ms + [m] == [m];
    } else {
      MembersSnoc(ms[1..], m);
      assert (ms + [m])[1..] == ms[1..] + [m];
      if |ms| > 1 {
        Assoc(ShowMember(ms[0]), [COMMA] + ShowMembers(ms[1..]), [COMMA] + ShowMember(m));
        Assoc([COMMA], ShowMembers(ms[1..]), [COMMA] + ShowMember(m));
      }
    }
  }

  lemma {:induction false} ItemsSnoc(items: seq<Json>, j: Json)
    ensures ShowItems(items + [j]) == if items == [] then Show(j) else ShowItems(items) + ([COMMA] + Show(j))
  {
    hide Show;
    if items == [] {
      assert items + [j] == [j];
    } else {
      ItemsSnoc(items[1..], j);
      assert (items + [j])[1..] == items[1..] + [j];
      if |items| > 1 {
        Assoc(Show(items[0]), [COMMA] + ShowItems(items[1..]), [COMMA] + Show(j));
        Assoc([COMMA], ShowItems(items[1..]), [COMMA] + Show(j));
      }
    }
  }

  lemma {:induction false} LinesSnoc(js: seq<Json>, j: Json)
    ensures Lines(js + [j]) == Lines(js) + ((if js == [] then [] else [COMMA]) + (INDENT + Show(j)))
  {
    hide Show;
    if js == [] {
      assert js + [j] == [j];
    } else {
      LinesSnoc(js[1..], j);
      assert (js + [j])[1..] == js[1..] + [j];
      var line, last := INDENT + Show(js[0]), [COMMA] + (INDENT + Show(j));
      if |js| > 1 {
        Assoc(line, [COMMA] + Lines(js[1..]), last);
        Assoc([COMMA], Lines(js[1..]), last);
      } else {
        assert js[1..] == [] && Lines([]) == [];
        assert [COMMA] + ([] + (INDENT + Show(j))) == last;
      }
    }
  }

  lemma AsciiPlain(name: string)
    requires IsAscii(name)
    ensures JsonText.Plain(Ascii(name)) && Escape(Ascii(name)) == Ascii(name)
  {
    forall i | 0 <= i < |name| ensures 32 <= Ascii(name)[i] && Ascii(name)[i] != 34 && Ascii(name)[i] != 92 {
      assert Ascii(name)[i] == name[i] as int;
    }
    EscapePlain(Ascii(name));
  }

  lemma PlainShown(s: Bytes)
    requires JsonText.Plain(s)
    ensures ShowString(s) == [QUOTE] + s + [QUOTE]
  {
    EscapePlain(s);
  }

  class Stream {
    var out: Bytes

    constructor ()
      ensures out == []
    {
      out := [];
    }

    method Puts(s: Bytes)
      modifies this
      ensures out == old(out) + s
    {
      out := out + s;
    }

    /** `dtl_export_json_string` */
    method PutJsonString(s: Bytes)
      modifies this
      ensures out == old(out) + ShowString(s)
    {
      hide EscapeByte;
      Puts([QUOTE]);
      for i := 0 to |s|
        invariant out == old(out) + [QUOTE] + Escape(s[..i])
      {
        EscapeSnoc(s[..i], s[i]);
        assert s[..i + 1] == s[..i] + [s[i]];
        PutEscaped(s[i]);
      }
      assert s[..|s|] == s;
      Puts([QUOTE]);
    }

    /** One character, by the cases of the switch. */
    method PutEscaped(c: byte)
      modifies this
      ensures out == old(out) + EscapeByte(c)
    {
      match c
      case 34 => Puts([BACKSLASH, 34]);
      case 92 => Puts([BACKSLASH, BACKSLASH]);
      case 10 => Puts([BACKSLASH, 110]);
      case 13 => Puts([BACKSLASH, 114]);
      case 9 => Puts([BACKSLASH, 116]);
      case _ =>
        if c < 0x20 {
          Puts([BACKSLASH, 117, 48, 48, HexDigit(c / 16), HexDigit(c % 16)]);
        } else {
          Puts([c]);
        }
    }

    /** `dtl_export_hex` */
    method PutHex(s: Bytes)
      modifies this
      ensures out == old(out) + Hex(s)
    {
      hide HexDigit;
      for i := 0 to |s|
        invariant out == old(out) + Hex(s[..i])
      {
        HexSnoc(s[..i], s[i]);
        assert s[..i + 1] == s[..i] + [s[i]];
        Puts([HexDigit(s[i] / 16), HexDigit(s[i] % 16)]);
      }
      assert s[..|s|] == s;
    }

    // ---- members of an object being written ----

    /** An object with these members has been written, up to its closing brace. */
    ghost predicate Building(start: Bytes, ms: seq<(Bytes, Json)>)
      reads this
    {
      out == start + ([OPEN_BRACE] + ShowMembers(ms))
    }

    /** `,"name":` */
    method PutName(name: string)
      requires IsAscii(name)
      modifies this
      ensures out == old(out) + ([COMMA] + (ShowString(Ascii(name)) + [COLON]))
    {
      hide ShowString, IsAscii, JsonText.Plain, Escape;
      AsciiPlain(name);
      PlainShown(Ascii(name));
      Puts([COMMA, QUOTE]);
      Puts(Ascii(name));
      Puts([QUOTE, COLON]);
    }

    lemma Built(start: Bytes, ms: seq<(Bytes, Json)>, name: string, j: Json)
      requires ms != []
      ensures start + ([OPEN_BRACE] + ShowMembers(ms)) + ([COMMA] + (ShowString(Ascii(name)) + [COLON])) + Show(j)
           == start + ([OPEN_BRACE] + ShowMembers(ms + [(Ascii(name), j)]))
    {
      hide ShowString, Show;
      var m := (Ascii(name), j);
      MembersSnoc(ms, m);
      assert ShowMember(m) == ShowString(Ascii(name)) + [COLON] + Show(j);
    }

    method NumberField(name: string, text: Bytes, ghost start: Bytes, ghost all: seq<(Bytes, Json)>, ghost k: nat)
      requires IsAscii(name) && 0 < k < |all| && Building(start, all[..k])
      requires all[k] == (Ascii(name), Number(text))
      modifies this
      ensures Building(start, all[..k + 1])
    {
      hide IsAscii, ShowMembers, ShowString;
      PutName(name);
      Puts(text);
      Built(start, all[..k], name, Number(text));
      assert all[..k + 1] == all[..k] + [all[k]];
    }

    method BoolField(name: string, b: bool, ghost start: Bytes, ghost all: seq<(Bytes, Json)>, ghost k: nat)
      requires IsAscii(name) && 0 < k < |all| && Building(start, all[..k])
      requires all[k] == (Ascii(name), Bool(b))
      modifies this
      ensures Building(start, all[..k + 1])
    {
      hide IsAscii, ShowMembers, ShowString;
      PutName(name);
      Puts(if b then TRUE_TEXT else FALSE_TEXT);
      Built(start, all[..k], name, Bool(b));
      assert all[..k + 1] == all[..k] + [all[k]];
    }

    method StringField(name: string, s: Bytes, ghost start: Bytes, ghost all: seq<(Bytes, Json)>, ghost k: nat)
      requires IsAscii(name) && 0 < k < |all| && Building(start, all[..k])
      requires all[k] == (Ascii(name), String(s))
      modifies this
      ensures Building(start, all[..k + 1])
    {
      hide IsAscii, ShowMembers, ShowString;
      PutName(name);
      PutJsonString(s);
      Built(start, all[..k], name, String(s));
      assert all[..k + 1] == all[..k] + [all[k]];
    }

    /** A string printed as it is between quotes. */
    method PlainField(name: string, s: Bytes, ghost start: Bytes, ghost all: seq<(Bytes, Json)>, ghost k: nat)
      requires IsAscii(name) && 0 < k < |all| && Building(start, all[..k]) && JsonText.Plain(s)
      requires all[k] == (Ascii(name), String(s))
      modifies this
      ensures Building(start, all[..k + 1])
    {
      hide IsAscii, ShowMembers, JsonText.Plain, ShowString;
      PutName(name);
      Puts([QUOTE]);
      Puts(s);
      Puts([QUOTE]);
      PlainShown(s);
      Built(start, all[..k], name, String(s));
      assert all[..k + 1] == all[..k] + [all[k]];
    }

    method HexField(name: string, s: Bytes, ghost start: Bytes, ghost all: seq<(Bytes, Json)>, ghost k: nat)
      requires IsAscii(name) && 0 < k < |all| && Building(start, all[..k])
      requires all[k] == (Ascii(name), String(Hex(s)))
      modifies this
      ensures Building(start, all[..k + 1])
    {
      hide IsAscii, ShowMembers, JsonText.Plain, Hex, ShowString;
      PutName(name);
      Puts([QUOTE]);
      PutHex(s);
      Puts([QUOTE]);
      HexPlain(s);
      PlainShown(Hex(s));
      Built(start, all[..k], name, String(Hex(s)));
      assert all[..k + 1] == all[..k] + [all[k]];
    }

    method PutPair(first: bool, k: Bytes, v: Bytes)
      modifies this
      ensures out == old(out) + ((if first then [] else [COMMA]) + ShowMember((k, String(v))))
    {
      hide ShowString;
      if !first {
        Puts([COMMA]);
      }
      PutJsonString(k);
      Puts([COLON]);
      PutJsonString(v);
      assert ShowMember((k, String(v))) == ShowString(k) + ([COLON] + ShowString(v));
    }

    lemma PairStep(all: seq<(Bytes, Json)>, i: nat)
      requires i < |all|
      ensures ShowMembers(all[..i + 1]) == ShowMembers(all[..i]) + ((if i == 0 then [] else [COMMA]) + ShowMember(all[i]))
    {
      hide ShowMember;
      MembersSnoc(all[..i], all[i]);
      assert all[..i + 1] == all[..i] + [all[i]];
      if i == 0 { assert all[..0] == [] && ShowMembers([]) == [] && [] + ([] + ShowMember(all[i])) == ShowMember(all[i]); }
    }

    /** The object of a CONFIG record's pairs. */
    method PutPairs(pairs: seq<(Bytes, Bytes)>)
      modifies this
      ensures out == old(out) + Show(Object(PairObject(pairs)))
    {
      hide CStr, ShowMember, ShowMembers;
      Puts([OPEN_BRACE]);
      ghost var all := PairObject(pairs);
      assert all[..0] == [] && ShowMembers([]) == [] by { NoMembers(); }
      for i := 0 to |pairs|
        invariant out == old(out) + ([OPEN_BRACE] + ShowMembers(all[..i]))
      {
        PairStep(all, i);
        PutPair(i == 0, CStr(pairs[i].0), CStr(pairs[i].1));
      }
      assert all[..|pairs|] == all;
      Puts([CLOSE_BRACE]);
    }

    lemma NoMembers()
      ensures ShowMembers([]) == []
    {
    }

    method PairsField(pairs: seq<(Bytes, Bytes)>, ghost start: Bytes, ghost all: seq<(Bytes, Json)>, ghost k: nat)
      requires IsAscii("pairs") && 0 < k < |all| && Building(start, all[..k])
      requires all[k] == (Ascii("pairs"), Object(PairObject(pairs)))
      modifies this
      ensures Building(start, all[..k + 1])
    {
      hide IsAscii, ShowMembers, ShowString, CStr, Show;
      PutName("pairs");
      PutPairs(pairs);
      Built(start, all[..k], "pairs", Object(PairObject(pairs)));
      assert all[..k + 1] == all[..k] + [all[k]];
    }

    method PutSample(first: bool, text: Bytes)
      modifies this
      ensures out == old(out) + ((if first then [] else [COMMA]) + text)
    {
      if !first {
        Puts([COMMA]);
      }
      Puts(text);
    }

    lemma NoItemsShown()
      ensures ShowItems([]) == []
    {
    }

    lemma SampleStep(all: seq<Json>, i: nat)
      requires i < |all| && all[i].Number?
      ensures ShowItems(all[..i + 1]) == ShowItems(all[..i]) + ((if i == 0 then [] else [COMMA]) + all[i].text)
    {
      ItemsSnoc(all[..i], all[i]);
      assert all[..i + 1] == all[..i] + [all[i]];
      if i == 0 { assert all[..0] == [] && ShowItems([]) == [] && [] + ([] + all[i].text) == all[i].text; }
    }

    /** The samples, each printed by `float`. */
    method PutSamples(samples: seq<u32>, float: u32 -> Bytes)
      modifies this
      ensures out == old(out) + Show(Array(Samples(samples, float)))
    {
      hide ShowItems, Samples;
      Puts([OPEN_BRACKET]);
      ghost var all := Samples(samples, float);
      assert all[..0] == [] && ShowItems([]) == [] by { NoItemsShown(); }
      for i := 0 to |samples|
        invariant out == old(out) + ([OPEN_BRACKET] + ShowItems(all[..i]))
      {
        SampleStep(all, i);
        PutSample(i == 0, float(samples[i]));
      }
      assert all[..|samples|] == all;
      Puts([CLOSE_BRACKET]);
    }

    method SamplesField(samples: seq<u32>, float: u32 -> Bytes, ghost start: Bytes, ghost all: seq<(Bytes, Json)>, ghost k: nat)
      requires IsAscii("samples") && 0 < k < |all| && Building(start, all[..k])
      requires all[k] == (Ascii("samples"), Array(Samples(samples, float)))
      modifies this
      ensures Building(start, all[..k + 1])
    {
      hide IsAscii, ShowMembers, ShowString, Show;
      PutName("samples");
      PutSamples(samples, float);
      Built(start, all[..k], "samples", Array(Samples(samples, float)));
      assert all[..k + 1] == all[..k] + [all[k]];
    }

    // ---- records ----

    /** Records of numbers only. */
    method PutNumbers(r: Record, index: nat, float: u32 -> Bytes, ghost start: Bytes, ghost all: seq<(Bytes, Json)>)
      requires r.Heartbeat? || r.Geo? || r.Battery? || r.Net?
      requires all == Labelled(NamesOf(r), ValuesOf(r, index, float)) && Building(start, all[..3])
      modifies this
      ensures Building(start, all[..|all|])
    {
      hide IsAscii, Building, Signature, Dec, DecI, Hex, ShowVersion;
      match r {
        case Heartbeat(uptime, seqNo) =>
          HeartbeatKeys();
          NumberField("uptime_s", Dec(uptime), start, all, 3);
          NumberField("seq", Dec(seqNo), start, all, 4);
        case Geo(lat, lon, alt) =>
          GeoKeys();
          NumberField("lat_e7", DecI(lat), start, all, 3);
          NumberField("lon_e7", DecI(lon), start, all, 4);
          NumberField("alt_mm", DecI(alt), start, all, 5);
        case Battery(pct, temp, cycles) =>
          BatteryKeys();
          NumberField("pct", Dec(pct), start, all, 3);
          NumberField("temp_c_e1", DecI(temp), start, all, 4);
          NumberField("cycles", Dec(cycles), start, all, 5);
        case Net(iface, rxB, txB, rxP, txP) =>
          NetKeys();
          NumberField("iface_id", Dec(iface), start, all, 3);
          NumberField("rx_bytes", Dec(rxB), start, all, 4);
          NumberField("tx_bytes", Dec(txB), start, all, 5);
          NumberField("rx_pkts", Dec(rxP), start, all, 6);
          NumberField("tx_pkts", Dec(txP), start, all, 7);
      }
    }

    /** Records with samples or bytes. */
    method PutBlobs(r: Record, index: nat, float: u32 -> Bytes, ghost start: Bytes, ghost all: seq<(Bytes, Json)>)
      requires r.Sensor? || r.Event? || r.Diag? || r.Firmware?
      requires all == Labelled(NamesOf(r), ValuesOf(r, index, float)) && Building(start, all[..3])
      modifies this
      ensures Building(start, all[..|all|])
    {
      hide IsAscii, Building, Signature, Dec, DecI, Hex, ShowVersion;
      match r {
        case Sensor(id, samples) =>
          SensorKeys();
          NumberField("sensor_id", Dec(id), start, all, 3);
          SamplesField(samples, float, start, all, 4);
        case Event(code, payload) =>
          EventKeys();
          NumberField("code", Dec(code), start, all, 3);
          HexField("payload_hex", payload, start, all, 4);
        case Diag(subsystem, blob, redacted) =>
          DiagKeys();
          NumberField("subsystem", Dec(subsystem), start, all, 3);
          BoolField("redacted", redacted, start, all, 4);
          HexField("blob_hex", Shown(redacted, blob), start, all, 5);
        case Firmware(major, minor, patch, hash) =>
          FirmwareKeys();
          VersionPlain(major, minor, patch);
          PlainField("version", ShowVersion(major, minor, patch), start, all, 3);
          HexField("hash_hex", hash, start, all, 4);
      }
    }

    /** Records with strings, and unknown ones. */
    method PutStrings(r: Record, index: nat, float: u32 -> Bytes, ghost start: Bytes, ghost all: seq<(Bytes, Json)>)
      requires r.Log? || r.Config? || r.Keyref? || r.Unknown?
      requires all == Labelled(NamesOf(r), ValuesOf(r, index, float)) && Building(start, all[..3])
      modifies this
      ensures Building(start, all[..|all|])
    {
      hide IsAscii, Building, Signature, Dec, DecI, Hex, ShowVersion;
      match r {
        case Log(severity, msg) =>
          LogKeys();
          NumberField("severity", Dec(severity), start, all, 3);
          StringField("msg", msg, start, all, 4);
        case Config(pairs) =>
          ConfigKeys();
          PairsField(pairs, start, all, 3);
        case Keyref(slot, text, redacted) =>
          KeyrefKeys();
          NumberField("slot_id", Dec(slot), start, all, 3);
          BoolField("redacted", redacted, start, all, 4);
          StringField("label", Shown(redacted, text), start, all, 5);
        case Unknown(_) =>
      }
    }

    /** `dtl_export_json_kv_tail` */
    method PutTail(r: Record, index: nat, float: u32 -> Bytes, ghost start: Bytes)
      requires Building(start, Labelled(NamesOf(r), ValuesOf(r, index, float))[..3])
      modifies this
      ensures Building(start, Labelled(NamesOf(r), ValuesOf(r, index, float)))
    {
      hide NamesOf, ValuesOf, Building;
      ghost var all := Labelled(NamesOf(r), ValuesOf(r, index, float));
      if r.Heartbeat? || r.Geo? || r.Battery? || r.Net? {
        PutNumbers(r, index, float, start, all);
      } else if r.Sensor? || r.Event? || r.Diag? || r.Firmware? {
        PutBlobs(r, index, float, start, all);
      } else {
        PutStrings(r, index, float, start, all);
      }
      assert all[..|all|] == all;
    }

    method PutIndex(index: nat, ghost start: Bytes)
      requires out == start && IsAscii("index")
      modifies this
      ensures Building(start, [(Ascii("index"), Number(Dec(index)))])
    {
      hide IsAscii, Dec, Ascii, ShowMembers;
      FirstMember(start, index);
      Puts([OPEN_BRACE, QUOTE]);
      Puts(Ascii("index"));
      Puts([QUOTE, COLON]);
      Puts(Dec(index));
    }

    /** The three members that every record object starts with. */
    method PutHead(r: Record, index: nat, float: u32 -> Bytes, ghost start: Bytes)
      requires out == start
      modifies this
      ensures Building(start, Labelled(NamesOf(r), ValuesOf(r, index, float))[..3])
    {
      hide IsAscii, Signature, Dec, TagOf, Tail, Eval.TYPE_NAMES, TypeName, Building;
      ghost var all := Labelled(NamesOf(r), ValuesOf(r, index, float));
      BaseNames();
      PutIndex(index, start);
      assert all[0] == (Ascii("index"), Number(Dec(index))) && all[..1] == [all[0]];
      NumberField("tag", Dec(TagOf(r)), start, all, 1);
      TypeNameAscii(TagOf(r));
      AsciiPlain(TypeName(TagOf(r)));
      PlainField("type", Ascii(TypeName(TagOf(r))), start, all, 2);
    }

    lemma OneMember(start: Bytes, name: Bytes, text: Bytes)
      requires ShowString(name) == [QUOTE] + name + [QUOTE]
      ensures start + [OPEN_BRACE, QUOTE] + name + [QUOTE, COLON] + text
           == start + ([OPEN_BRACE] + ShowMembers([(name, Number(text))]))
    {
      hide ShowString;
      var m := (name, Number(text));
      assert ShowMembers([m]) == ShowMember(m) == ShowString(name) + ([COLON] + Show(m.1));
      assert start + [OPEN_BRACE, QUOTE] + name + [QUOTE, COLON] + text
          == start + ([OPEN_BRACE] + ([QUOTE] + name + [QUOTE] + ([COLON] + text)));
    }

    lemma FirstMember(start: Bytes, index: nat)
      requires IsAscii("index")
      ensures start + [OPEN_BRACE, QUOTE] + Ascii("index") + [QUOTE, COLON] + Dec(index)
           == start + ([OPEN_BRACE] + ShowMembers([(Ascii("index"), Number(Dec(index)))]))
    {
      hide Dec, IsAscii, ShowString, Ascii, JsonText.Plain;
      AsciiPlain("index");
      PlainShown(Ascii("index"));
      OneMember(start, Ascii("index"), Dec(index));
    }

    /** `dtl_export_json_record` */
    method PutRecord(r: Record, index: nat, float: u32 -> Bytes, first: bool)
      modifies this
      ensures out == old(out) + ((if first then [] else [COMMA]) + (INDENT + Show(ObjectOf(r, index, float))))
    {
      hide NamesOf, ValuesOf, ShowMembers;
      if !first {
        Puts([COMMA]);
      }
      Puts(INDENT);
      ghost var start := out;
      ghost var all := Labelled(NamesOf(r), ValuesOf(r, index, float));
      assert |all| >= 3 by { AtLeastThree(r); }
      PutHead(r, index, float, start);
      PutTail(r, index, float, start);
      Puts([CLOSE_BRACE]);
      assert Show(ObjectOf(r, index, float)) == [OPEN_BRACE] + ShowMembers(all) + [CLOSE_BRACE];
    }
  }

  lemma AtLeastThree(r: Record)
    ensures |NamesOf(r)| >= 3
  {
  }

  lemma TypeNameAscii(tag: byte)
    ensures IsAscii(TypeName(tag))
  {
    if KnownTag(tag) { NameTableAscii(tag - 0x10); }
  }

  lemma NameTableAscii(k: nat)
    requires k < |Eval.TYPE_NAMES|
    ensures IsAscii(Eval.TYPE_NAMES[k])
  {
    if k < 4 {
      assert IsAscii("HEARTBEAT") && IsAscii("SENSOR") && IsAscii("EVENT") && IsAscii("DIAG");
    } else if k < 8 {
      assert IsAscii("GEO") && IsAscii("BATTERY") && IsAscii("NET") && IsAscii("LOG");
    } else {
      assert IsAscii("CONFIG") && IsAscii("KEYREF") && IsAscii("FIRMWARE");
    }
  }

  /** `dtl_export_file` in JSON format, on the records of the walk. */
  method ExportAll(rs: seq<Record>, float: u32 -> Bytes) returns (text: Bytes)
    ensures text == Export(rs, float)
  {
    hide ObjectOf, Show;
    var f := new Stream();
    f.Puts([OPEN_BRACKET]);
    ghost var js := Objects(rs, float);
    assert f.out == [] + [OPEN_BRACKET] && Lines([]) == [];
    for i := 0 to |rs|
      invariant f.out == [OPEN_BRACKET] + Lines(js[..i])
    {
      hide Lines;
      LinesSnoc(js[..i], js[i]);
      assert js[..i + 1] == js[..i] + [js[i]] && (js[..i] == [] <==> i == 0);
      f.PutRecord(rs[i], i, float, i == 0);
    }
    assert js[..|rs|] == js;
    f.Puts(CLOSING);
    Assoc([OPEN_BRACKET], Lines(js), CLOSING);
    return f.out;
  }
}
