/** Which byte strings are containers, what the fields of one are, and which error
    anything else gives: the layout of src/format/container.h in terms of byte
    positions, against the cursor-driven parser of src/format/container.c. */
module Acceptance {
  import opened Core
  import opened Buffer
  import opened Container
  import Crc

  // ---- fields at a position ----

  function Half(s: Bytes, k: nat): nat
    requires k + 2 <= |s|
  {
    s[k] as int + 0x100 * (s[k + 1] as int)
  }

  function Word(s: Bytes, k: nat): nat
    requires k + 4 <= |s|
  {
    s[k] as int + 0x100 * (s[k + 1] as int) + 0x1_0000 * (s[k + 2] as int) + 0x100_0000 * (s[k + 3] as int)
  }

  lemma FieldAt(s: Bytes, k: nat)
    requires k <= |s|
    ensures k + 2 <= |s| ==> FromLe16(s[k..]) == Half(s, k)
    ensures k + 4 <= |s| ==> FromLe32(s[k..]) == Word(s, k)
  {
  }

  // ---- the fixed header: bytes 0 to 11 ----

  /** "DTL" and a format byte. */
  predicate MagicOk(s: Bytes) { |s| >= 4 && s[..4] == [0x44, 0x54, 0x4C, 0x01] }

  predicate VersionOk(s: Bytes) { MagicOk(s) && |s| >= 5 && s[4] == 1 }

  /** Only the lowest flag is defined. */
  predicate FlagsOk(s: Bytes) { VersionOk(s) && |s| >= 6 && s[5] <= 1 }

  /** The checksum covers the eight bytes before it. */
  predicate HeaderOk(s: Bytes) { FlagsOk(s) && |s| >= 12 && Word(s, 8) == Crc.Crc32(s[..8]) }

  // ---- the section table: sixteen bytes a row, from byte 12 ----

  function Count(s: Bytes): nat
    requires |s| >= 12
  {
    Half(s, 6)
  }

  function Row(k: nat): nat { 12 + 16 * k }

  predicate TableThere(s: Bytes) { |s| >= 12 && |s| >= Row(Count(s)) }

  /** A reserved byte that is there and not zero. */
  predicate ReservedSet(s: Bytes) {
    |s| >= 12 && exists k: nat :: k < Count(s) && Reserved(s, k)
  }

  predicate Reserved(s: Bytes, k: nat) { Row(k) + 4 <= |s| && s[Row(k) + 3] != 0 }

  function RowAt(s: Bytes, k: nat): Entry
    requires Row(k) + 16 <= |s|
  {
    var p := Row(k);
    Entry(Half(s, p), s[p + 2], Word(s, p + 4), Word(s, p + 8), Word(s, p + 12))
  }

  // ---- the blob region, and the trailer of 32 bytes behind it ----

  predicate TrailerThere(s: Bytes) { TableThere(s) && (s[5] == 1 ==> |s| >= Row(Count(s)) + 32) }

  function RegionEnd(s: Bytes): nat
    requires TrailerThere(s)
  {
    if s[5] == 1 then |s| - 32 else |s|
  }

  function Region(s: Bytes): nat
    requires TrailerThere(s)
  {
    RegionEnd(s) - Row(Count(s))
  }

  /** Compressed bytes of the first `n` rows. */
  function SumComp(s: Bytes, n: nat): nat
    requires Row(n) <= |s|
  {
    if n == 0 then 0 else SumComp(s, n - 1) + RowAt(s, n - 1).compLen
  }

  /** Each section decompresses to between one byte and 64 MiB, lies in the region, and
      together they are no larger than it. */
  predicate Placed(s: Bytes)
    requires TrailerThere(s)
  {
    && SumComp(s, Count(s)) <= Region(s)
    && forall k | 0 <= k < Count(s) :: RowPlaced(s, k)
  }

  predicate RowPlaced(s: Bytes, k: nat)
    requires TrailerThere(s) && k < Count(s)
  {
    var e := RowAt(s, k);
    1 <= e.rawLen <= 67_108_864 && e.offset + e.compLen <= Region(s)
  }

  predicate IsContainer(s: Bytes) { HeaderOk(s) && TrailerThere(s) && !ReservedSet(s) && Placed(s) }

  // ---- the parser, piece by piece ----

  lemma HeaderMeans(s: Bytes)
    ensures TakeHeader(s)
         == if HeaderOk(s) then Ok(((s[5], Count(s)), s[12..]))
            else if |s| >= 4 && !MagicOk(s) then Error(BadMagic)
            else if MagicOk(s) && |s| >= 5 && !VersionOk(s) then Error(BadVersion)
            else if VersionOk(s) && |s| >= 6 && !FlagsOk(s) then Error(BadHeader)
            else if FlagsOk(s) && |s| >= 12 then Error(BadHeader)
            else Error(Truncated)
  {
    hide Crc.Crc32;
    if |s| >= 4 {
      MagicMeans(s);
      assert s[4..] == s[4..] && (|s| >= 5 ==> s[4..][1..] == s[5..]);
      assert |s| >= 6 ==> s[5..][1..] == s[6..];
      assert |s| >= 8 ==> s[6..][2..] == s[8..];
      assert |s| >= 12 ==> s[8..][4..] == s[12..];
      if |s| >= 12 {
        FieldAt(s, 6);
        FieldAt(s, 8);
      }
    }
  }

  lemma MagicMeans(s: Bytes)
    requires |s| >= 4
    ensures FromLe32(s) == MAGIC <==> MagicOk(s)
  {
    var a, b, c, d := s[0] as int, s[1] as int, s[2] as int, s[3] as int;
    assert s[..4] == [s[0], s[1], s[2], s[3]];
    if FromLe32(s) == MAGIC {
      assert a + 0x100 * b + 0x1_0000 * c + 0x100_0000 * d == 0x014C_5444;
      assert a == 0x44 && b == 0x54 && c == 0x4C && d == 1;
    }
  }

  lemma EntryMeans(s: Bytes, k: nat)
    requires Row(k) <= |s|
    ensures TakeEntry(s[Row(k)..])
         == if Reserved(s, k) then Error(BadRecord)
            else if |s| < Row(k) + 16 then Error(Truncated)
            else Ok((RowAt(s, k), s[Row(k + 1)..]))
  {
    hide FromLe16, FromLe32;
    var p, t := Row(k), s[Row(k)..];
    if |t| >= 4 {
      assert t[2..] == s[p + 2..] && t[2..][1..] == s[p + 3..] && s[p + 3..][1..] == s[p + 4..];
      FieldAt(s, p);
      FieldAt(s, p + 4);
      if |t| >= 8 {
        assert s[p + 4..][4..] == s[p + 8..];
        FieldAt(s, p + 8);
      }
      if |t| >= 12 {
        assert s[p + 8..][4..] == s[p + 12..];
        FieldAt(s, p + 12);
      }
      if |t| >= 16 { assert s[p + 12..][4..] == s[p + 16..]; }
    }
  }

  function Rows(s: Bytes, k: nat, n: nat): (es: seq<Entry>)
    requires k <= n && Row(n) <= |s|
    ensures |es| == n - k
    ensures forall i | 0 <= i < n - k :: es[i] == RowAt(s, k + i)
  {
    seq(n - k, i requires 0 <= i < n - k => RowAt(s, k + i))
  }

  /** The first row with a reserved byte set or a byte missing decides. */
  lemma {:induction false} TableMeans(s: Bytes, k: nat, n: nat)
    requires k <= n && Row(k) <= |s|
    ensures TakeTable(s[Row(k)..], n - k)
         == if exists i: nat :: k <= i < n && Reserved(s, i) then Error(BadRecord)
            else if |s| < Row(n) then Error(Truncated)
            else Ok((Rows(s, k, n), s[Row(n)..]))
    decreases n - k
  {
    hide TakeEntry, RowAt;
    if k < n {
      EntryMeans(s, k);
      if !Reserved(s, k) && |s| >= Row(k + 1) {
        TableMeans(s, k + 1, n);
        if |s| >= Row(n) { assert Rows(s, k, n) == [RowAt(s, k)] + Rows(s, k + 1, n); }
      }
    }
  }

  lemma {:induction false} SumMeans(s: Bytes, n: nat)
    requires Row(n) <= |s|
    ensures TotalComp(Rows(s, 0, n)) == SumComp(s, n)
  {
    hide RowAt;
    if n > 0 {
      SumMeans(s, n - 1);
      TotalCompSnoc(Rows(s, 0, n), n - 1);
      assert Rows(s, 0, n)[..n] == Rows(s, 0, n) && Rows(s, 0, n)[..n - 1] == Rows(s, 0, n - 1);
    }
  }

  /** Section `k`, cut out of the container. */
  function SectionAt(s: Bytes, k: nat): Section
    requires TrailerThere(s) && k < Count(s) && RowPlaced(s, k)
  {
    var e, base := RowAt(s, k), Row(Count(s));
    Section(e.ty, e.codec, e.rawLen, s[base + e.offset..base + e.offset + e.compLen])
  }

  lemma ResolveMeans(s: Bytes, k: nat, region: Bytes)
    requires TrailerThere(s) && k < Count(s) && region == s[Row(Count(s))..RegionEnd(s)]
    ensures Resolve(RowAt(s, k), region) == if RowPlaced(s, k) then Ok(SectionAt(s, k)) else Error(Range)
  {
    hide RowAt, Half, Word;
    var e, base := RowAt(s, k), Row(Count(s));
    assert |region| == Region(s);
    if RowPlaced(s, k) {
      assert region[e.offset..e.offset + e.compLen] == s[base + e.offset..base + e.offset + e.compLen];
    }
  }

  function SectionsFrom(s: Bytes, k: nat): (ss: seq<Section>)
    requires TrailerThere(s) && k <= Count(s) && forall i | k <= i < Count(s) :: RowPlaced(s, i)
    ensures |ss| == Count(s) - k
    ensures forall i | 0 <= i < |ss| :: ss[i] == SectionAt(s, k + i)
  {
    seq(Count(s) - k, i requires 0 <= i < Count(s) - k => SectionAt(s, k + i))
  }

  lemma {:induction false} EachMeans(s: Bytes, k: nat, region: Bytes)
    requires TrailerThere(s) && k <= Count(s) && region == s[Row(Count(s))..RegionEnd(s)]
    ensures ResolveEach(Rows(s, k, Count(s)), region)
         == if forall i | k <= i < Count(s) :: RowPlaced(s, i) then Ok(SectionsFrom(s, k)) else Error(Range)
    decreases Count(s) - k
  {
    hide RowAt, Resolve, RowPlaced, SectionAt;
    var n := Count(s);
    if k < n {
      EachMeans(s, k + 1, region);
      ResolveMeans(s, k, region);
      assert Rows(s, k, n)[0] == RowAt(s, k) && Rows(s, k, n)[1..] == Rows(s, k + 1, n);
      if forall i | k <= i < n :: RowPlaced(s, i) {
        assert SectionsFrom(s, k) == [SectionAt(s, k)] + SectionsFrom(s, k + 1);
      } else if RowPlaced(s, k) {
        assert exists i :: k + 1 <= i < n && !RowPlaced(s, i);
      }
    }
  }

  // ---- the whole parser ----

  /** The trailer, if the flag says that there is one. */
  function MacAt(s: Bytes): Option<Bytes>
    requires TrailerThere(s)
  {
    if s[5] == 1 then Some(s[|s| - 32..]) else None
  }

  lemma TailMeans(s: Bytes)
    requires HeaderOk(s) && TableThere(s)
    ensures SplitTail(s[5], s[Row(Count(s))..])
         == if TrailerThere(s) then Ok((s[Row(Count(s))..RegionEnd(s)], MacAt(s))) else Error(Truncated)
  {
    hide Crc.Crc32, Count;
    var tail := s[Row(Count(s))..];
    if TrailerThere(s) {
      assert s[Row(Count(s))..|s|] == tail;
      if s[5] == 1 {
        assert tail[..|tail| - 32] == s[Row(Count(s))..RegionEnd(s)] && tail[|tail| - 32..] == s[|s| - 32..];
      }
    }
  }

  /** On every byte string: what the parser returns, and the one error it gives when it
      returns nothing. */
  lemma ParseMeans(s: Bytes)
    ensures Parse(s)
         == if IsContainer(s) then Ok(Parsed(s[5], SectionsFrom(s, 0), MacAt(s)))
            else if |s| >= 4 && !MagicOk(s) then Error(BadMagic)
            else if MagicOk(s) && |s| >= 5 && !VersionOk(s) then Error(BadVersion)
            else if VersionOk(s) && |s| >= 6 && !FlagsOk(s) then Error(BadHeader)
            else if FlagsOk(s) && |s| >= 12 && !HeaderOk(s) then Error(BadHeader)
            else if HeaderOk(s) && ReservedSet(s) then Error(BadRecord)
            else if HeaderOk(s) && TrailerThere(s) then Error(Range)
            else Error(Truncated)
  {
    hide TakeHeader, TakeTable, SplitTail, ResolveEach, RowAt, RowPlaced, Reserved, SectionAt, Word;
    HeaderMeans(s);
    if HeaderOk(s) {
      var n := Count(s);
      assert s[12..] == s[Row(0)..];
      TableMeans(s, 0, n);
      if !ReservedSet(s) && TableThere(s) {
        TailMeans(s);
        if TrailerThere(s) {
          SumMeans(s, n);
          EachMeans(s, 0, s[Row(n)..RegionEnd(s)]);
        }
      }
    }
  }

  /** In short: parsing succeeds exactly on the byte strings laid out as documented, and
      then returns the sections where the table puts them. */
  lemma ParseIff(s: Bytes, c: Parsed)
    ensures Parse(s) == Ok(c) <==> IsContainer(s) && c == Parsed(s[5], SectionsFrom(s, 0), MacAt(s))
  {
    hide Parse, IsContainer, SectionsFrom, MacAt;
    ParseMeans(s);
  }

  // ---- damage to the header ----

  lemma WordDetects(s: Bytes, k: nat, b: byte)
    requires |s| >= 12 && 8 <= k < 12 && b != s[k]
    ensures Word(s[k := b], 8) != Word(s, 8)
  {
  }

  /** Every change of one byte of a container's header is refused, with the error that
      belongs to the byte. */
  lemma HeaderProtected(s: Bytes, k: nat, b: byte)
    requires HeaderOk(s) && k < 12 && b != s[k]
    ensures Parse(s[k := b]) == Error(if k < 4 then BadMagic else if k == 4 then BadVersion else BadHeader)
  {
    hide Crc.Crc32, Word, Parse;
    var t := s[k := b];
    ParseMeans(t);
    if k < 4 {
      assert t[..4][k] == b && s[..4][k] == s[k];
    } else {
      assert t[..4] == s[..4];
      if k < 8 {
        assert t[..8] == s[..8][k := b];
        Crc.OneByteDetected(s[..8], k, b);
        SameWord(s, t);
      } else {
        assert t[..8] == s[..8];
        WordDetects(s, k, b);
      }
    }
  }

  lemma SameWord(s: Bytes, t: Bytes)
    requires |s| == |t| >= 12 && forall i | 8 <= i < 12 :: s[i] == t[i]
    ensures Word(s, 8) == Word(t, 8)
  {
  }
}

/** The payload of each record type in terms of byte positions (src/records), against the
    parsers. */
module RecordLayout {
  import opened Core
  import opened Buffer
  import opened Records
  import opened Acceptance

  function Signed32(w: nat): int
    requires w < 0x1_0000_0000
  {
    if w < 2_147_483_648 then w else w - 4_294_967_296
  }

  function Signed16(h: nat): int
    requires h < 0x1_0000
  {
    if h < 32_768 then h else h - 65_536
  }

  /** Key and value of a pair at `k`, each behind a length byte: where each ends. */
  function KeyEnd(s: Bytes, k: nat): nat
    requires k < |s|
  {
    k + 1 + s[k]
  }

  predicate PairThere(s: Bytes, k: nat) { k < |s| && KeyEnd(s, k) < |s| && KeyEnd(s, KeyEnd(s, k)) <= |s| }

  function PairEnd(s: Bytes, k: nat): nat
    requires PairThere(s, k)
  {
    KeyEnd(s, KeyEnd(s, k))
  }

  /** Where `n` pairs from `k` on end, if they are all there. */
  function PairsEnd(s: Bytes, k: nat, n: nat): Option<nat>
    decreases n
  {
    if n == 0 then Some(k) else if PairThere(s, k) then PairsEnd(s, PairEnd(s, k), n - 1) else None
  }

  function PairsAt(s: Bytes, k: nat, n: nat): seq<(Bytes, Bytes)>
    requires PairsEnd(s, k, n).Some?
    decreases n
  {
    if n == 0 then []
    else
      var e := KeyEnd(s, k);
      [(s[k + 1..e], s[e + 1..PairEnd(s, k)])] + PairsAt(s, PairEnd(s, k), n - 1)
  }

  /** `n` words from `k` on. */
  function WordsAt(s: Bytes, k: nat, n: nat): (ws: seq<u32>)
    requires k + 4 * n <= |s|
    ensures |ws| == n && forall i | 0 <= i < n :: ws[i] == Word(s, k + 4 * i)
  {
    seq(n, i requires 0 <= i < n => Word(s, k + 4 * i))
  }

  /** The payloads that are records. */
  predicate Shaped(tag: byte, s: Bytes) {
    match tag
    case 0x10 => |s| == 8
    case 0x11 => |s| >= 3 && |s| == 3 + 4 * s[2] as int
    case 0x12 => |s| >= 4 && |s| == 4 + Half(s, 2)
    case 0x13 => |s| >= 4 && |s| == 4 + Half(s, 2)
    case 0x14 => |s| == 12
    case 0x15 => |s| == 7
    case 0x16 => |s| == 17 && s[0] <= 249
    case 0x17 => |s| >= 3 && s[0] <= 7 && |s| == 3 + Half(s, 1)
    case 0x18 => |s| >= 1 && PairsEnd(s, 1, s[0]) == Some(|s|)
    case 0x19 => |s| >= 2 && |s| == 2 + s[1] as int
    case 0x1A => |s| == 14
    case _ => false
  }

  /** The fields of one. */
  function FieldsOf(tag: byte, s: Bytes): Record
    requires Shaped(tag, s)
  {
    match tag
    case 0x10 => Heartbeat(Word(s, 0), Word(s, 4))
    case 0x11 => Sensor(Half(s, 0), WordsAt(s, 3, s[2]))
    case 0x12 => Event(Half(s, 0), s[4..])
    case 0x13 => Diag(Half(s, 0), s[4..], false)
    case 0x14 => Geo(Signed32(Word(s, 0)), Signed32(Word(s, 4)), Signed32(Word(s, 8)))
    case 0x15 => Battery(s[0], Signed16(Half(s, 1)), Word(s, 3))
    case 0x16 => Net(s[0], Word(s, 1), Word(s, 5), Word(s, 9), Word(s, 13))
    case 0x17 => Log(s[0], s[3..])
    case 0x18 => Config(PairsAt(s, 1, s[0]))
    case 0x19 => Keyref(s[0], s[2..], false)
    case 0x1A => Firmware(Half(s, 0), Half(s, 2), Half(s, 4), s[6..14])
  }

  /** Payloads that end before a field that is read, rather than at the wrong place. */
  predicate CutShort(tag: byte, s: Bytes) {
    match tag
    case 0x11 => |s| < 3
    case 0x12 => |s| < 4
    case 0x13 => |s| < 4
    case 0x17 => s == [] || (s[0] <= 7 && |s| < 3)
    case 0x18 => s == [] || PairsEnd(s, 1, s[0]) == None
    case 0x19 => |s| < 2 || |s| < 2 + s[1] as int
    case _ => false
  }

  lemma FixedLayout(tag: byte, s: Bytes)
    requires tag == 0x10 || tag == 0x14 || tag == 0x15
    ensures Parse(tag, s) == if Shaped(tag, s) then Ok(FieldsOf(tag, s)) else Error(BadRecord)
  {
    hide FromLe32, FromLe16, Word, Half;
    if Shaped(tag, s) {
      assert s[0..] == s;
      FieldAt(s, 0);
      if tag == 0x15 {
        assert s[1..][2..] == s[3..];
        FieldAt(s, 1);
        FieldAt(s, 3);
      } else {
        assert s[4..][4..] == s[8..];
        FieldAt(s, 4);
        FieldAt(s, 8);
      }
    }
  }

  lemma NetLayout(s: Bytes)
    ensures Parse(0x16, s) == if Shaped(0x16, s) then Ok(FieldsOf(0x16, s)) else Error(BadRecord)
  {
    hide FromLe32, Word;
    if |s| == 17 {
      assert s[1..][4..] == s[5..] && s[5..][4..] == s[9..] && s[9..][4..] == s[13..];
      FieldAt(s, 1);
      FieldAt(s, 5);
      FieldAt(s, 9);
      FieldAt(s, 13);
    }
  }

  lemma FirmwareLayout(s: Bytes)
    ensures Parse(0x1A, s) == if Shaped(0x1A, s) then Ok(FieldsOf(0x1A, s)) else Error(BadRecord)
  {
    hide FromLe16, Half;
    if |s| == 14 {
      assert s[0..] == s && s[2..][2..] == s[4..] && s[4..][2..] == s[6..] && s[6..][..8] == s[6..14];
      FieldAt(s, 0);
      FieldAt(s, 2);
      FieldAt(s, 4);
    }
  }

  lemma BlobLayout(tag: byte, s: Bytes)
    requires tag == 0x12 || tag == 0x13
    ensures Parse(tag, s) == if Shaped(tag, s) then Ok(FieldsOf(tag, s))
                             else Error(if CutShort(tag, s) then Truncated else BadRecord)
  {
    hide FromLe16, Half;
    assert s[0..] == s;
    FieldAt(s, 0);
    if |s| >= 4 {
      assert s[2..][2..] == s[4..];
      FieldAt(s, 2);
    }
  }

  lemma LogLayout(s: Bytes)
    ensures Parse(0x17, s) == if Shaped(0x17, s) then Ok(FieldsOf(0x17, s))
                              else Error(if CutShort(0x17, s) then Truncated else BadRecord)
  {
    hide FromLe16, Half;
    if |s| >= 3 {
      assert s[1..][2..] == s[3..];
      FieldAt(s, 1);
    }
  }

  lemma KeyrefLayout(s: Bytes)
    ensures Parse(0x19, s) == if Shaped(0x19, s) then Ok(FieldsOf(0x19, s))
                              else Error(if CutShort(0x19, s) then Truncated else BadRecord)
  {
    if |s| >= 2 {
      assert s[1..][1..] == s[2..] && s[1..][0] == s[1];
      if |s| == 2 + s[1] as int { assert s[2..][..s[1]] == s[2..]; }
    }
  }

  lemma {:induction false} SamplesLayout(s: Bytes, k: nat, n: nat)
    requires |s| == k + 4 * n
    ensures TakeSamples(s[k..], n) == Ok(WordsAt(s, k, n))
    decreases n
  {
    hide FromLe32, Word;
    if n > 0 {
      FieldAt(s, k);
      assert s[k..][4..] == s[k + 4..];
      SamplesLayout(s, k + 4, n - 1);
      var ws, rest := WordsAt(s, k, n), WordsAt(s, k + 4, n - 1);
      forall i | 0 <= i < n - 1 ensures rest[i] == ws[i + 1] {}
      assert ws == [Word(s, k)] + rest;
    } else {
      assert WordsAt(s, k, 0) == [];
    }
  }

  lemma SensorLayout(s: Bytes)
    ensures Parse(0x11, s) == if Shaped(0x11, s) then Ok(FieldsOf(0x11, s))
                              else Error(if CutShort(0x11, s) then Truncated else BadRecord)
  {
    hide FromLe16, FromLe32, Half, Word, TakeSamples;
    assert s[0..] == s;
    FieldAt(s, 0);
    if |s| >= 3 {
      assert s[2..][1..] == s[3..] && s[2..][0] == s[2];
      if Shaped(0x11, s) { SamplesLayout(s, 3, s[2]); }
    }
  }

  lemma PairLayout(s: Bytes, k: nat)
    requires k <= |s|
    ensures var key := TakeStr(s[k..]);
            if PairThere(s, k) then
              var e := KeyEnd(s, k);
              && key == Ok((s[k + 1..e], s[e..])) && TakeStr(s[e..]) == Ok((s[e + 1..PairEnd(s, k)], s[PairEnd(s, k)..]))
            else key == Error(Truncated) || (key.Ok? && TakeStr(key.value.1) == Error(Truncated))
  {
    StrLayout(s, k);
    if k < |s| && KeyEnd(s, k) <= |s| { StrLayout(s, KeyEnd(s, k)); }
  }

  lemma StrLayout(s: Bytes, k: nat)
    requires k <= |s|
    ensures TakeStr(s[k..])
         == if k < |s| && KeyEnd(s, k) <= |s| then Ok((s[k + 1..KeyEnd(s, k)], s[KeyEnd(s, k)..])) else Error(Truncated)
  {
    var t := s[k..];
    if k < |s| {
      assert t[0] == s[k] && t[1..] == s[k + 1..];
      if KeyEnd(s, k) <= |s| {
        assert t[1..][..s[k]] == s[k + 1..KeyEnd(s, k)] && t[1..][s[k]..] == s[KeyEnd(s, k)..];
      }
    }
  }

  lemma {:induction false} PairsLayout(s: Bytes, k: nat, n: nat)
    requires k <= |s|
    ensures PairsEnd(s, k, n).Some? ==> k <= PairsEnd(s, k, n).value <= |s|
    ensures TakePairs(s[k..], n)
         == match PairsEnd(s, k, n)
            case Some(end) => Ok((PairsAt(s, k, n), s[end..]))
            case None => Error(Truncated)
    decreases n
  {
    hide TakeStr;
    if n > 0 {
      PairLayout(s, k);
      if PairThere(s, k) { PairsLayout(s, PairEnd(s, k), n - 1); }
    }
  }

  lemma ConfigLayout(s: Bytes)
    ensures Parse(0x18, s) == if Shaped(0x18, s) then Ok(FieldsOf(0x18, s))
                              else Error(if CutShort(0x18, s) then Truncated else BadRecord)
  {
    hide TakePairs, PairsEnd;
    if s != [] { PairsLayout(s, 1, s[0]); }
  }

  /** On every tag and payload: the record, or which of the two errors. */
  lemma ParseMeans(tag: byte, s: Bytes)
    ensures Parse(tag, s) == if Shaped(tag, s) then Ok(FieldsOf(tag, s))
                             else Error(if CutShort(tag, s) then Truncated else BadRecord)
  {
    hide ParseHeartbeat, ParseGeo, ParseBattery, ParseNet, ParseFirmware, ParseSensor, ParseEvent, ParseLog,
         ParseConfig, ParseKeyref, ParseDiag;
    if tag == 0x10 || tag == 0x14 || tag == 0x15 {
      FixedLayout(tag, s);
    } else if tag == 0x12 || tag == 0x13 {
      BlobLayout(tag, s);
    } else if tag == 0x11 {
      SensorLayout(s);
    } else if tag == 0x16 {
      NetLayout(s);
    } else if tag == 0x17 {
      LogLayout(s);
    } else if tag == 0x18 {
      ConfigLayout(s);
    } else if tag == 0x19 {
      KeyrefLayout(s);
    } else if tag == 0x1A {
      FirmwareLayout(s);
    }
  }

  // ---- payloads cut short ----

  lemma {:induction false} PairsOfPrefix(s: Bytes, cut: nat, k: nat, n: nat)
    requires k <= cut <= |s| && PairsEnd(s[..cut], k, n).Some?
    ensures PairsEnd(s, k, n) == PairsEnd(s[..cut], k, n) && PairsEnd(s, k, n).value <= cut
    decreases n
  {
    if n > 0 {
      var t := s[..cut];
      assert t[k] == s[k] && t[KeyEnd(t, k)] == s[KeyEnd(t, k)];
      PairsOfPrefix(s, cut, PairEnd(s, k), n - 1);
    }
  }

  /** No proper prefix of a payload that is a record is a record of that type. */
  lemma PrefixRejected(tag: byte, s: Bytes, cut: nat)
    requires Parse(tag, s).Ok? && cut < |s|
    ensures Parse(tag, s[..cut]).Error?
  {
    hide Parse;
    var t := s[..cut];
    ParseMeans(tag, s);
    ParseMeans(tag, t);
    if tag == 0x18 && Shaped(tag, t) {
      PairsOfPrefix(s, cut, 1, t[0]);
    }
  }
}
