/** The container header, section table and blob region (src/format/container.c). */
module Container {
  import opened Core
  import opened Buffer
  import Crc
  import opened Records

  const MAGIC := 0x014C_5444
  const VERSION := 1
  const MAC_LEN := 32
  const SIZE_MAX := 0xFFFF_FFFF_FFFF_FFFF

  datatype Entry = Entry(ty: u16, codec: byte, rawLen: u32, compLen: u32, offset: u32)

  datatype Section = Section(ty: u16, codec: byte, rawLen: u32, blob: Bytes)

  datatype Parsed = Parsed(flags: byte, sections: seq<Section>, mac: Option<Bytes>)

  // ---- parsing ----

  function TakeEntry(s: Bytes): Result<(Entry, Bytes)> {
    var (ty, s1) :- TakeU16(s);
    var (codec, s2) :- TakeU8(s1);
    var (reserved, s3) :- TakeU8(s2);
    if reserved != 0 then Error(BadRecord)
    else
      var (raw, s4) :- TakeU32(s3);
      var (comp, s5) :- TakeU32(s4);
      var (off, s6) :- TakeU32(s5);
      Ok((Entry(ty, codec, raw, comp, off), s6))
  }

  function TakeTable(s: Bytes, n: nat): (r: Result<(seq<Entry>, Bytes)>)
    ensures r.Ok? ==> |r.value.0| == n
  {
    if n == 0 then Ok(([], s))
    else
      var (e, rest) :- TakeEntry(s);
      var (more, end) :- TakeTable(rest, n - 1);
      Ok(([e] + more, end))
  }

  function TotalComp(entries: seq<Entry>): nat {
    if entries == [] then 0 else entries[0].compLen + TotalComp(entries[1..])
  }

  /** Range check and blob of one entry; comparisons avoid overflow by subtraction. */
  function Resolve(e: Entry, region: Bytes): Result<Section> {
    if e.rawLen == 0 || e.rawLen > SECTION_MAX_RAW then Error(Range)
    else if e.compLen > |region| then Error(Range)
    else if e.offset > |region| - e.compLen then Error(Range)
    else Ok(Section(e.ty, e.codec, e.rawLen, region[e.offset..e.offset + e.compLen]))
  }

  function ResolveEach(entries: seq<Entry>, region: Bytes): (r: Result<seq<Section>>)
    ensures r.Ok? ==> |r.value| == |entries|
  {
    if entries == [] then Ok([])
    else
      var s :- Resolve(entries[0], region);
      var more :- ResolveEach(entries[1..], region);
      Ok([s] + more)
  }

  function ResolveAll(entries: seq<Entry>, region: Bytes): Result<seq<Section>> {
    if TotalComp(entries) > |region| then Error(Range) else ResolveEach(entries, region)
  }

  /** Flags and section count from the fixed header, and what follows it. */
  function TakeHeader(data: Bytes): Result<((byte, u16), Bytes)> {
    var (magic, s1) :- TakeU32(data);
    if magic != MAGIC then Error(BadMagic)
    else
      var (version, s2) :- TakeU8(s1);
      if version != VERSION then Error(BadVersion)
      else
        var (flags, s3) :- TakeU8(s2);
        if flags / 2 != 0 then Error(BadHeader)
        else
          var (count, s4) :- TakeU16(s3);
          var (crc, s5) :- TakeU32(s4);
          if Crc.Crc32(data[..8]) != crc then Error(BadHeader) else Ok(((flags, count), s5))
  }

  /** Splits what follows the table into the blob region and the MAC trailer. */
  function SplitTail(flags: byte, tail: Bytes): Result<(Bytes, Option<Bytes>)> {
    if flags % 2 == 0 then Ok((tail, None))
    else if |tail| < MAC_LEN then Error(Truncated)
    else Ok((tail[..|tail| - MAC_LEN], Some(tail[|tail| - MAC_LEN..])))
  }

  function Parse(data: Bytes): Result<Parsed> {
    var ((flags, count), s1) :- TakeHeader(data);
    var (entries, tail) :- TakeTable(s1, count);
    var (region, mac) :- SplitTail(flags, tail);
    var sections :- ResolveAll(entries, region);
    Ok(Parsed(flags, sections, mac))
  }

  // ---- layout ----

  function HeaderStart(flags: byte, count: u16): (s: Bytes)
    ensures |s| == 8
  {
    [0x44, 0x54, 0x4C, 0x01, VERSION, flags] + Le16(count)
  }

  function Header(flags: byte, count: u16): (s: Bytes)
    ensures |s| == 12
  {
    HeaderStart(flags, count) + Le32(Crc.Crc32(HeaderStart(flags, count)))
  }

  /** A section as the writer holds it. */
  datatype Packed = Packed(ty: u16, codec: byte, rawLen: u32, blob: Bytes)

  function Blobs(ps: seq<Packed>): Bytes {
    if ps == [] then [] else ps[0].blob + Blobs(ps[1..])
  }

  /** Table entries with cumulative offsets starting at `acc`. */
  function Entries(ps: seq<Packed>, acc: nat): seq<Entry>
    requires acc + |Blobs(ps)| <= 0xFFFF_FFFF
  {
    if ps == [] then []
    else [Entry(ps[0].ty, ps[0].codec, ps[0].rawLen, |ps[0].blob|, acc)] + Entries(ps[1..], acc + |ps[0].blob|)
  }

  function EntryBytes(e: Entry): (s: Bytes)
    ensures |s| == 16
  {
    Le16(e.ty) + ([e.codec] + ([0] + (Le32(e.rawLen) + (Le32(e.compLen) + Le32(e.offset)))))
  }

  function TableBytes(entries: seq<Entry>): (s: Bytes)
    ensures |s| == 16 * |entries|
  {
    if entries == [] then [] else EntryBytes(entries[0]) + TableBytes(entries[1..])
  }

  /** Everything but the MAC trailer. */
  function Body(ps: seq<Packed>, flags: byte): Bytes
    requires |ps| <= 0xFFFF && |Blobs(ps)| <= 0xFFFF_FFFF
  {
    Header(flags, |ps|) + (TableBytes(Entries(ps, 0)) + Blobs(ps))
  }

  // ---- parsing what was laid out ----

  lemma HeaderBack(flags: byte, count: u16, rest: Bytes)
    requires flags <= 1
    ensures TakeHeader(Header(flags, count) + rest) == Ok(((flags, count), rest))
  {
    var crc := Crc.Crc32(HeaderStart(flags, count));
    var data := Header(flags, count) + rest;
    assert data[..8] == HeaderStart(flags, count);
    var s5 := rest;
    var s4 := Le32(crc) + s5;
    var s3 := Le16(count) + s4;
    var s2 := [flags] + s3;
    var s1 := [VERSION] + s2;
    assert data[..4] == [0x44, 0x54, 0x4C, 0x01];
    assert FromLe32(data) == MAGIC;
    assert data[4..] == s1;
    ParseOne(VERSION, s2);
    ParseOne(flags, s3);
    ParseHalf(count, s4);
    ParseWord(crc, s5);
  }

  lemma EntryBack(e: Entry, rest: Bytes)
    ensures TakeEntry(EntryBytes(e) + rest) == Ok((e, rest))
  {
    var s6 := rest;
    var s5 := Le32(e.offset) + s6;
    var s4 := Le32(e.compLen) + s5;
    var s3 := Le32(e.rawLen) + s4;
    var s2 := [0] + s3;
    var s1 := [e.codec] + s2;
    assert EntryBytes(e) + rest == Le16(e.ty) + s1;
    ParseHalf(e.ty, s1);
    ParseOne(e.codec, s2);
    ParseOne(0, s3);
    ParseWord(e.rawLen, s4);
    ParseWord(e.compLen, s5);
    ParseWord(e.offset, s6);
  }

  lemma {:induction false} TableBack(entries: seq<Entry>, rest: Bytes)
    ensures TakeTable(TableBytes(entries) + rest, |entries|) == Ok((entries, rest))
  {
    hide EntryBytes, TakeEntry;
    if entries != [] {
      var more := TableBytes(entries[1..]) + rest;
      EntryBack(entries[0], more);
      TableBack(entries[1..], rest);
      Assoc(EntryBytes(entries[0]), TableBytes(entries[1..]), rest);
      assert entries == [entries[0]] + entries[1..];
    } else {
      assert TableBytes(entries) + rest == rest;
    }
  }

  function Sections(ps: seq<Packed>): (r: seq<Section>)
    ensures |r| == |ps|
    ensures forall i | 0 <= i < |ps| :: r[i] == Section(ps[i].ty, ps[i].codec, ps[i].rawLen, ps[i].blob)
  {
    seq(|ps|, i requires 0 <= i < |ps| => Section(ps[i].ty, ps[i].codec, ps[i].rawLen, ps[i].blob))
  }

  predicate RawLensValid(ps: seq<Packed>) {
    forall i | 0 <= i < |ps| :: 0 < ps[i].rawLen <= SECTION_MAX_RAW
  }

  lemma {:induction false} EntriesTotal(ps: seq<Packed>, acc: nat)
    requires acc + |Blobs(ps)| <= 0xFFFF_FFFF
    ensures TotalComp(Entries(ps, acc)) == |Blobs(ps)| && |Entries(ps, acc)| == |ps|
  {
    if ps != [] { EntriesTotal(ps[1..], acc + |ps[0].blob|); }
  }

  lemma {:induction false} ResolveBack(ps: seq<Packed>, before: Bytes)
    requires |before| + |Blobs(ps)| <= 0xFFFF_FFFF && RawLensValid(ps)
    ensures ResolveEach(Entries(ps, |before|), before + Blobs(ps)) == Ok(Sections(ps))
    decreases |ps|
  {
    if ps != [] {
      var p, region := ps[0], before + Blobs(ps);
      assert region == (before + p.blob) + Blobs(ps[1..]);
      ResolveBack(ps[1..], before + p.blob);
      assert region[|before|..|before| + |p.blob|] == p.blob;
      assert Sections(ps) == [Section(p.ty, p.codec, p.rawLen, p.blob)] + Sections(ps[1..]);
    } else {
      assert Sections(ps) == [];
    }
  }

  /** Parsing a laid-out container gives back its sections and its trailer. */
  lemma LayoutBack(ps: seq<Packed>, mac: Option<Bytes>)
    requires |ps| <= 0xFFFF && |Blobs(ps)| <= 0xFFFF_FFFF && RawLensValid(ps)
    requires mac.Some? ==> |mac.value| == MAC_LEN
    ensures var flags := if mac.Some? then 1 else 0;
            Parse(Body(ps, flags) + (if mac.Some? then mac.value else [])) == Ok(Parsed(flags, Sections(ps), mac))
  {
    var flags: byte := if mac.Some? then 1 else 0;
    var trailer := if mac.Some? then mac.value else [];
    var entries, region := Entries(ps, 0), Blobs(ps);
    EntriesTotal(ps, 0);
    var tail := region + trailer;
    var s1 := TableBytes(entries) + tail;
    var data := Body(ps, flags) + trailer;
    assert data == Header(flags, |ps|) + s1 by {
      Assoc(TableBytes(entries), region, trailer);
      Assoc(Header(flags, |ps|), TableBytes(entries) + region, trailer);
    }
    HeaderBack(flags, |ps|, s1);
    TableBack(entries, tail);
    assert SplitTail(flags, tail) == Ok((region, mac)) by {
      if mac.Some? {
        assert tail[..|tail| - MAC_LEN] == region && tail[|tail| - MAC_LEN..] == trailer;
      } else {
        assert tail == region;
      }
    }
    assert [] + region == region;
    ResolveBack(ps, []);
  }

  // ---- the loops ----

  method ReadEntry(b: Cursor) returns (r: Result<Entry>)
    requires b.Valid()
    modifies b`pos
    ensures b.Valid()
    ensures match TakeEntry(old(b.Rest()))
            case Ok((e, rest)) => r == Ok(e) && b.Rest() == rest
            case Error(e) => r == Error(e)
  {
    var ty := b.ReadU16();
    if ty.Error? { return Error(ty.err); }
    var codec := b.ReadU8();
    if codec.Error? { return Error(codec.err); }
    var reserved := b.ReadU8();
    if reserved.Error? { return Error(reserved.err); }
    if reserved.value != 0 {
      return Error(BadRecord);
    }
    var raw := b.ReadU32();
    if raw.Error? { return Error(raw.err); }
    var comp := b.ReadU32();
    if comp.Error? { return Error(comp.err); }
    var off := b.ReadU32();
    if off.Error? { return Error(off.err); }
    return Ok(Entry(ty.value, codec.value, raw.value, comp.value, off.value));
  }

  /** The entries read so far, followed by what the remaining run reads. */
  ghost function AfterEntries(done: seq<Entry>, r: Result<(seq<Entry>, Bytes)>): Result<(seq<Entry>, Bytes)> {
    match r
    case Ok((more, rest)) => Ok((done + more, rest))
    case Error(e) => Error(e)
  }

  lemma AfterEntriesStep(done: seq<Entry>, s: Bytes, n: nat, e: Entry, rest: Bytes)
    requires n > 0 && TakeEntry(s) == Ok((e, rest))
    ensures AfterEntries(done, TakeTable(s, n)) == AfterEntries(done + [e], TakeTable(rest, n - 1))
  {
    var r := TakeTable(rest, n - 1);
    if r.Ok? { Assoc(done, [e], r.value.0); }
  }

  /** `dtl_container_read_table` */
  method ReadTable(b: Cursor, n: nat) returns (r: Result<seq<Entry>>)
    requires b.Valid()
    modifies b`pos
    ensures b.Valid()
    ensures match TakeTable(old(b.Rest()), n)
            case Ok((entries, rest)) => r == Ok(entries) && b.Rest() == rest
            case Error(e) => r == Error(e)
  {
    var entries: seq<Entry> := [];
    ghost var goal := TakeTable(b.Rest(), n);
    assert goal.Ok? ==> [] + goal.value.0 == goal.value.0;
    for i := 0 to n
      invariant b.Valid()
      invariant goal == AfterEntries(entries, TakeTable(b.Rest(), n - i))
    {
      ghost var s := b.Rest();
      var e := ReadEntry(b);
      if e.Error? { return Error(e.err); }
      AfterEntriesStep(entries, s, n - i, e.value, b.Rest());
      entries := entries + [e.value];
    }
    assert goal.Ok? && goal.value.0 == entries + [] == entries;
    return Ok(entries);
  }

  lemma {:induction false} TotalCompSnoc(entries: seq<Entry>, i: nat)
    requires i < |entries|
    ensures TotalComp(entries[..i + 1]) == TotalComp(entries[..i]) + entries[i].compLen
  {
    if i == 0 {
      assert entries[..1] == [entries[0]] && entries[..1][1..] == [] && entries[..0] == [];
    } else {
      TotalCompSnoc(entries[1..], i - 1);
      assert entries[..i + 1][1..] == entries[1..][..i] && entries[..i][1..] == entries[1..][..i - 1];
    }
  }

  lemma {:induction false} TotalCompBound(entries: seq<Entry>)
    ensures TotalComp(entries) <= 0xFFFF_FFFF * |entries|
  {
    if entries != [] { TotalCompBound(entries[1..]); }
  }

  /** First loop of `dtl_container_resolve_blobs`; its overflow guard never fires. */
  method SumComp(entries: seq<Entry>) returns (total: nat, ok: bool)
    requires |entries| <= 0xFFFF
    ensures ok && total == TotalComp(entries)
  {
    total := 0;
    for i := 0 to |entries|
      invariant total == TotalComp(entries[..i])
    {
      TotalCompBound(entries[..i]);
      TotalCompSnoc(entries, i);
      if total > SIZE_MAX - entries[i].compLen {
        return total, false;
      }
      total := total + entries[i].compLen;
    }
    assert entries[..|entries|] == entries;
    return total, true;
  }

  ghost function AfterSections(done: seq<Section>, r: Result<seq<Section>>): Result<seq<Section>> {
    match r
    case Ok(more) => Ok(done + more)
    case Error(e) => Error(e)
  }

  lemma AfterSectionsStep(done: seq<Section>, entries: seq<Entry>, region: Bytes)
    requires entries != []
    ensures AfterSections(done, ResolveEach(entries, region))
         == match Resolve(entries[0], region)
            case Ok(s) => AfterSections(done + [s], ResolveEach(entries[1..], region))
            case Error(e) => Error(e)
  {
    var s, r := Resolve(entries[0], region), ResolveEach(entries[1..], region);
    if s.Ok? && r.Ok? { Assoc(done, [s.value], r.value); }
  }

  method ResolveBlobs(entries: seq<Entry>, region: Bytes) returns (r: Result<seq<Section>>)
    requires |entries| <= 0xFFFF
    ensures r == ResolveAll(entries, region)
  {
    var total, ok := SumComp(entries);
    if !ok || total > |region| {
      return Error(Range);
    }
    var sections: seq<Section> := [];
    ghost var goal := ResolveEach(entries, region);
    assert entries[0..] == entries;
    assert goal.Ok? ==> [] + goal.value == goal.value;
    for i := 0 to |entries|
      invariant goal == AfterSections(sections, ResolveEach(entries[i..], region))
    {
      AfterSectionsStep(sections, entries[i..], region);
      assert entries[i..][1..] == entries[i + 1..];
      var s := Resolve(entries[i], region);
      if s.Error? { return Error(s.err); }
      sections := sections + [s.value];
    }
    assert sections + [] == sections;
    return Ok(sections);
  }

  /** The fixed 12-byte header. */
  method ReadHeader(b: Cursor) returns (r: Result<(byte, u16)>)
    requires b.Valid() && b.pos == 0
    modifies b`pos
    ensures b.Valid()
    ensures match TakeHeader(b.data)
            case Ok((v, rest)) => r == Ok(v) && b.Rest() == rest
            case Error(e) => r == Error(e)
  {
    assert b.Rest() == b.data;
    var magic := b.ReadU32();
    if magic.Error? { return Error(magic.err); }
    if magic.value != MAGIC { return Error(BadMagic); }
    var version := b.ReadU8();
    if version.Error? { return Error(version.err); }
    if version.value != VERSION { return Error(BadVersion); }
    var flags := b.ReadU8();
    if flags.Error? { return Error(flags.err); }
    if flags.value / 2 != 0 { return Error(BadHeader); }
    var count := b.ReadU16();
    if count.Error? { return Error(count.err); }
    var stored := b.ReadU32();
    if stored.Error? { return Error(stored.err); }
    var computed := Crc.ComputeCrc32(b.data[..8]);
    if computed != stored.value { return Error(BadHeader); }
    return Ok((flags.value, count.value));
  }

  /** `dtl_container_parse` */
  method ParseContainer(data: Bytes) returns (r: Result<Parsed>)
    ensures r == Parse(data)
  {
    var b := new Cursor(data);
    var header := ReadHeader(b);
    if header.Error? { return Error(header.err); }
    var (flags, count) := header.value;
    var entries := ReadTable(b, count);
    if entries.Error? { return Error(entries.err); }
    var split := SplitTail(flags, b.Rest());
    if split.Error? { return Error(split.err); }
    var (region, mac) := split.value;
    var sections := ResolveBlobs(entries.value, region);
    if sections.Error? { return Error(sections.err); }
    return Ok(Parsed(flags, sections.value, mac));
  }
}
