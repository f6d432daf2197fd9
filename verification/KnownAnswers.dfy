/** Literal inputs with their results, most of them from the repository's own checks
    (src/codec/_smoke.c): one blob for each codec byte, and the errors of the decoders. */
module KnownCodecs {
  import opened Core
  import Base32
  import Codecs
  import Delta
  import Dict
  import Leb128
  import Lz77
  import Rle
  import Varint

  /** A section's blob under the codec byte of its table row. */
  function DecodeAs(id: byte, blob: Bytes, cap: nat): Option<Result<Bytes>> {
    match Codecs.Get(id)
    case None => None
    case Some(c) => Some(Codecs.Decode(c, blob, cap))
  }

  function EncodeAs(id: byte, raw: Bytes, cap: nat): Option<Result<Bytes>> {
    match Codecs.Get(id)
    case None => None
    case Some(c) => Some(Codecs.Encode(c, raw, cap))
  }

  /** Blob and stream are each other's image. */
  ghost predicate Known(id: byte, raw: Bytes, blob: Bytes) {
    EncodeAs(id, raw, 100) == Some(Ok(blob)) && DecodeAs(id, blob, |raw|) == Some(Ok(raw))
  }

  /** By the codecs' round trip the encoding is enough. */
  lemma FromEncoding(id: byte, c: Codecs.Codec, raw: Bytes, blob: Bytes)
    requires Codecs.Get(id) == Some(c) && Codecs.Encode(c, raw, 100) == Ok(blob)
    ensures Known(id, raw, blob)
  {
    hide Codecs.Encode, Codecs.Decode;
    Codecs.RoundTrip(c, raw, 100, |raw|);
  }

  lemma UnknownIds(id: byte)
    ensures Codecs.Get(id) == None <==> id > 6
  {
  }

  /** Identity. */
  lemma StoreKnown()
    ensures Known(0, [104, 101, 108, 108, 111], [104, 101, 108, 108, 111])
    ensures DecodeAs(0, [104, 101, 108, 108, 111], 4) == Some(Error(Range))
  {
  }

  // ---- runs ----

  /** A count and a value for each run. */
  lemma RleKnown()
    ensures Known(1, [97, 97, 97, 98], [3, 97, 1, 98])
    ensures DecodeAs(1, [3], 64) == Some(Error(Truncated))
    ensures DecodeAs(1, [0, 65], 64) == Some(Error(BadRecord))
    ensures DecodeAs(1, [5, 65], 3) == Some(Error(Range))
  {
    var s: Bytes, e: Bytes := [97, 97, 97, 98], [3, 97, 1, 98];
    assert s[3..] == [98] && Rle.Run(s) == 3;
    assert [98][1..] == [] && Rle.Run([98]) == 1;
    assert Rle.Encode([98]) == [1, 98] + Rle.Encode([]) == [1, 98];
    assert Rle.Encode(s) == [3, 97] + [1, 98] == e;
    FromEncoding(1, Codecs.RunLength, s, e);
  }

  // ---- variable-length integers ----

  lemma LebKnown()
    ensures Leb128.Leb(0) == [0] && Leb128.Leb(127) == [127]
    ensures Leb128.Leb(128) == [0x80, 1] && Leb128.Leb(300) == [0xAC, 2] && Leb128.Leb(16384) == [0x80, 0x80, 1]
  {
    assert Leb128.Leb(128) == [0x80] + Leb128.Leb(1) == [0x80, 1];
    assert Leb128.Leb(300) == [0xAC] + Leb128.Leb(2) == [0xAC, 2];
    assert Leb128.Leb(16384) == [0x80] + Leb128.Leb(128) == [0x80, 0x80, 1];
  }

  /** 300 and 1: the low seven bits first. */
  lemma VarintKnown()
    ensures Known(2, [44, 1, 0, 0, 1, 0, 0, 0], [0xAC, 2, 1])
    ensures DecodeAs(2, [0x80], 64) == Some(Error(Truncated))
    ensures DecodeAs(2, [0x80, 0x80, 0x80, 0x80, 0x80, 0], 64) == Some(Error(Range))
    ensures DecodeAs(2, [0x80, 0x80, 0x80, 0x80, 0x10], 64) == Some(Error(Range))
    ensures DecodeAs(2, [1], 3) == Some(Error(Range))
    ensures EncodeAs(2, [1, 2, 3], 64) == Some(Error(Truncated))
  {
    hide Leb128.Leb;
    var s: Bytes := [44, 1, 0, 0, 1, 0, 0, 0];
    WordsOfTwo(s, 300, 1);
    LebKnown();
    assert Leb128.Leb(1) == [1] by { OneGroup(1); }
    assert [300, 1][1..] == [1] && [1][1..] == [];
    assert Leb128.LebAll([1]) == [1] + [] == [1];
    assert Leb128.LebAll([300, 1]) == [0xAC, 2] + [1] == [0xAC, 2, 1];
    FromEncoding(2, Codecs.VarInt, s, [0xAC, 2, 1]);
    OneGroupOnly();
    LongGroups();
  }

  lemma OneGroup(v: nat)
    requires v < 0x80
    ensures Leb128.Leb(v) == [v]
  {
  }

  lemma WordsOfTwo(s: Bytes, a: u32, b: u32)
    requires |s| == 8 && FromLe32(s) == a && FromLe32(s[4..]) == b
    ensures Leb128.Words(s) == [a, b]
  {
    hide FromLe32;
    assert s[4..][4..] == [];
    assert Leb128.Words(s[4..]) == [b] + [] == [b];
  }

  lemma OneGroupOnly()
    ensures Leb128.ReadGroups([0x80], 0) == Error(Truncated)
    ensures Leb128.ReadGroups([1], 0) == Ok((1, 1))
    ensures Leb128.Words([1, 2, 3]) == [] && Leb128.LebAll([]) == []
  {
    assert [0x80][1..] == [];
  }

  lemma LongGroups()
    ensures Leb128.ReadGroups([0x80, 0x80, 0x80, 0x80, 0x80, 0], 0) == Error(Range)
    ensures Leb128.ReadGroups([0x80, 0x80, 0x80, 0x80, 0x10], 0) == Error(Range)
  {
    hide Leb128.ReadGroups;
    var e: Bytes, f: Bytes := [0x80, 0x80, 0x80, 0x80, 0x80, 0], [0x80, 0x80, 0x80, 0x80, 0x10];
    MoreGroups(e, 0);
    MoreGroups(e[1..], 1);
    MoreGroups(e[2..], 2);
    MoreGroups(e[3..], 3);
    MoreGroups(e[4..], 4);
    assert e[1..][1..] == e[2..] && e[2..][1..] == e[3..] && e[3..][1..] == e[4..];
    MoreGroups(f, 0);
    MoreGroups(f[1..], 1);
    MoreGroups(f[2..], 2);
    MoreGroups(f[3..], 3);
    MoreGroups(f[4..], 4);
    assert f[1..][1..] == f[2..] && f[2..][1..] == f[3..] && f[3..][1..] == f[4..];
  }

  lemma MoreGroups(e: Bytes, g: nat)
    requires e != [] && (e[0] >= 0x80 || g == 4)
    ensures g < 4 && Leb128.ReadGroups(e[1..], g + 1).Error? ==> Leb128.ReadGroups(e, g) == Leb128.ReadGroups(e[1..], g + 1)
    ensures g == 4 && e[0] % 0x80 > 15 ==> Leb128.ReadGroups(e, g) == Error(Range)
    ensures g == 4 && e[0] % 0x80 <= 15 && e[0] >= 0x80 && |e| > 1 ==> Leb128.ReadGroups(e, g) == Error(Range)
  {
  }

  // ---- LZ77 ----

  /** Eight times the same byte: a literal, then a match of seven at distance one that
      overlaps what it copies. */
  lemma LzKnown()
    ensures Known(3, [65, 65, 65, 65, 65, 65, 65, 65], [2, 65, 0, 4])
  {
    hide Lz77.Parse, Lz77.Serialize, Known;
    var s: Bytes := [65, 65, 65, 65, 65, 65, 65, 65];
    LzTokens(s);
    LzBytes(Lz77.Literal(65), Lz77.Match(1, 7));
    assert Lz77.Encode(s) == [2, 65, 0, 4];
    FromEncoding(3, Codecs.Lz, s, [2, 65, 0, 4]);
  }

  lemma LzShort()
    ensures DecodeAs(3, [2, 65, 0, 4], 4) == Some(Error(Range))
  {
    hide Codecs.Encode, Codecs.Decode;
    LzKnown();
    Codecs.RoundTrip(Codecs.Lz, [65, 65, 65, 65, 65, 65, 65, 65], 100, 4);
  }

  lemma LzTokens(s: Bytes)
    requires |s| == 8 && forall i | 0 <= i < 8 :: s[i] == 65
    ensures Lz77.Parse(s, 0) == [Lz77.Literal(65), Lz77.Match(1, 7)]
  {
    hide Lz77.MatchFrom, Lz77.Agree;
    assert Lz77.Find(s, 0) == Lz77.Found(0, 0);
    assert Lz77.TokenAt(s, 0) == Lz77.Literal(65);
    LzSame(s);
    assert Lz77.Scan(s, 1, 0, Lz77.Found(0, 0)) == Lz77.Found(7, 1);
    assert Lz77.Find(s, 1) == Lz77.Found(7, 1);
    assert Lz77.TokenAt(s, 1) == Lz77.Match(1, 7);
    assert Lz77.Parse(s, 8) == [];
    assert Lz77.Parse(s, 1) == [Lz77.Match(1, 7)] + [];
    assert Lz77.Parse(s, 0) == [Lz77.Literal(65)] + Lz77.Parse(s, 1);
  }

  lemma LzSame(s: Bytes)
    requires |s| == 8 && forall i | 0 <= i < 8 :: s[i] == 65
    ensures Lz77.MatchLen(s, 0, 1) == 7
  {
    Lz77.MatchAgrees(s, 0, 1, 0);
  }

  lemma LzBytes(lit: Lz77.Token, m: Lz77.Token)
    requires lit == Lz77.Literal(65) && m == Lz77.Match(1, 7)
    ensures Lz77.AllEncodable([lit, m]) && Lz77.Serialize([lit, m]) == [2, 65, 0, 4]
  {
    assert [lit, m][1..] == [m] && [m][1..] == [];
    assert Lz77.TokenBytes(m) == [0, 4];
    assert Lz77.Body([m]) == [0, 4] + [] == [0, 4];
    assert Lz77.Body([lit, m]) == [65] + [0, 4] == [65, 0, 4];
    assert Lz77.Flag([]) == 0 && Lz77.Flag([m]) == 1 && Lz77.Flag([lit, m]) == 2;
  }

  /** Offset and length of a match: twelve and four bits, the offset's low byte first. */
  lemma LzMatchBits()
    ensures Lz77.TokenBytes(Lz77.Match(0x345, 18)) == [0x44, 0x3F]
    ensures Lz77.OffsetOf([0x44, 0x3F]) == 0x345 && Lz77.LengthOf([0x44, 0x3F]) == 18
  {
  }

  /** A match before any output reads below the buffer, since the code admits it; an
      offset of five after one byte is refused. */
  lemma LzErrors()
    ensures DecodeAs(3, [1, 0, 0], 64) == Some(Error(OutOfBounds))
    ensures DecodeAs(3, [2, 65, 4, 0], 64) == Some(Error(BadRecord))
    ensures DecodeAs(3, [0, 65], 0) == Some(Error(Range))
    ensures DecodeAs(3, [1, 0], 64) == Some(Error(Truncated))
  {
    assert [1, 0, 0][1..] == [0, 0] && [1, 0][1..] == [0] && [0, 65][1..] == [65];
    assert Lz77.BitAt(1, 0) && !Lz77.BitAt(0, 0);
    var e: Bytes := [2, 65, 4, 0];
    assert e[1..] == [65, 4, 0] && e[1..][1..] == [4, 0] && [65, 4, 0][1..] == [4, 0];
    assert !Lz77.BitAt(2, 0) && Lz77.BitAt(2, 1) by { assert Lz77.BitAt(1, 0); }
    assert Lz77.DecodeTokens([4, 0], 2, 1, [65], 64, 1) == Error(BadRecord);
    assert [] + [65] == [65];
  }

  // ---- the dictionary ----

  /** A table of one phrase, then a token for each block. */
  lemma DictKnown()
    ensures Known(4, [97, 98, 99, 100, 97, 98, 99, 100, 97], [2, 0, 4, 97, 98, 99, 100, 1, 97, 0, 0, 0, 0, 1, 0])
  {
    hide Dict.Full, Dict.Layout, Known;
    var s: Bytes := [97, 98, 99, 100, 97, 98, 99, 100, 97];
    var p: Bytes, q: Bytes := [97, 98, 99, 100], [97];
    DictBuilds(s, p, q);
    DictLayout(p, q);
    FromEncoding(4, Codecs.Dictionary, s, [2, 0, 4, 97, 98, 99, 100, 1, 97, 0, 0, 0, 0, 1, 0]);
  }

  lemma DictBuilds(s: Bytes, p: Bytes, q: Bytes)
    requires s == [97, 98, 99, 100, 97, 98, 99, 100, 97] && p == [97, 98, 99, 100] && q == [97]
    ensures Dict.Full(s) == Dict.Dictionary([p, q], [0, 0, 1])
  {
    assert Dict.BlockCount(s) == 3;
    assert Dict.Block(s, 0) == p && Dict.Block(s, 1) == p && Dict.Block(s, 2) == q;
    var d1, d2 := Dict.Dictionary([p], [0]), Dict.Dictionary([p], [0, 0]);
    assert Dict.Build(s, 0) == Dict.Dictionary([], []);
    assert Dict.Build(s, 1) == Dict.Extend(Dict.Dictionary([], []), p) == d1;
    assert Dict.IndexFrom([p], p, 0) == 0;
    assert Dict.Build(s, 2) == Dict.Extend(d1, p) == d2;
    assert p != q;
    assert Dict.IndexFrom([p], q, 1) == 1 && Dict.IndexFrom([p], q, 0) == 1;
    assert Dict.Build(s, 3) == Dict.Extend(d2, q);
  }

  lemma DictLayout(p: Bytes, q: Bytes)
    requires p == [97, 98, 99, 100] && q == [97]
    ensures Dict.Layout(Dict.Dictionary([p, q], [0, 0, 1])) == [2, 0, 4, 97, 98, 99, 100, 1, 97, 0, 0, 0, 0, 1, 0]
  {
    assert [p, q][1..] == [q] && [q][1..] == [];
    assert Dict.Table([q]) == [1] + q + [] == [1, 97];
    assert Dict.Table([p, q]) == [4] + p + [1, 97] == [4, 97, 98, 99, 100, 1, 97];
    assert [0, 0, 1][1..] == [0, 1] && [0, 1][1..] == [1] && [1][1..] == [];
    assert Dict.Tokens([1]) == [1, 0] + [] == [1, 0];
    assert Dict.Tokens([0, 1]) == [0, 0] + [1, 0] == [0, 0, 1, 0];
    assert Dict.Tokens([0, 0, 1]) == [0, 0] + [0, 0, 1, 0] == [0, 0, 0, 0, 1, 0];
  }

  /** A token beyond the table, a phrase that is cut off, and too little room. */
  lemma DictErrors()
    ensures DecodeAs(4, [1, 0, 1, 65, 5, 0], 64) == Some(Error(BadRecord))
    ensures DecodeAs(4, [2, 0, 3, 65], 64) == Some(Error(Truncated))
    ensures DecodeAs(4, [1, 0, 4, 97, 98, 99, 100, 0, 0], 2) == Some(Error(Range))
    ensures DecodeAs(4, [], 64) == Some(Error(Truncated))
  {
    var e: Bytes, f: Bytes, g: Bytes := [1, 0, 1, 65, 5, 0], [2, 0, 3, 65], [1, 0, 4, 97, 98, 99, 100, 0, 0];
    assert e[2..] == [1, 65, 5, 0] && f[2..] == [3, 65] && g[2..] == [4, 97, 98, 99, 100, 0, 0];
    assert e[2..][1..2] == [65] && e[2..][2..] == [5, 0];
    assert Dict.ReadTable(e[2..], 1) == Ok(([[65]] + [], [5, 0]));
    assert g[2..][1..5] == [97, 98, 99, 100] && g[2..][5..] == [0, 0];
    assert Dict.ReadTable(g[2..], 1) == Ok(([[97, 98, 99, 100]] + [], [0, 0]));
  }

  // ---- deltas ----

  /** 10, 11, 9: the first word as it is, then 1 as 2 and -2 as 3. */
  lemma DeltaKnown()
    ensures Known(5, [10, 0, 0, 0, 11, 0, 0, 0, 9, 0, 0, 0], [10, 0, 0, 0, 2, 3])
  {
    hide Leb128.Words, Delta.Body, Known;
    var s: Bytes := [10, 0, 0, 0, 11, 0, 0, 0, 9, 0, 0, 0];
    DeltaWords(s);
    DeltaBody();
    FromEncoding(5, Codecs.DeltaWords, s, [10, 0, 0, 0, 2, 3]);
  }

  lemma DeltaBody()
    ensures Delta.Body([10, 11, 9]) == [10, 0, 0, 0, 2, 3]
  {
    hide Leb128.Leb, Le32;
    var ws: seq<u32> := [10, 11, 9];
    assert ws[1..] == [11, 9] && [11, 9][1..] == [9] && [9][1..] == [];
    OneGroup(2);
    OneGroup(3);
    assert Delta.ZigZag(Delta.Sub32(11, 10)) == 2 && Delta.ZigZag(Delta.Sub32(9, 11)) == 3;
    assert Delta.Tail(9, []) == [];
    assert Delta.Tail(11, [9]) == [3] + [] == [3];
    assert Delta.Tail(10, [11, 9]) == [2] + [3] == [2, 3];
    TenBytes();
    assert Delta.Body(ws) == [10, 0, 0, 0] + [2, 3];
  }

  lemma TenBytes()
    ensures Le32(10) == [10, 0, 0, 0]
  {
  }

  lemma DeltaWords(s: Bytes)
    requires s == [10, 0, 0, 0, 11, 0, 0, 0, 9, 0, 0, 0]
    ensures Leb128.Words(s) == [10, 11, 9]
  {
    assert s[4..] == [11, 0, 0, 0, 9, 0, 0, 0];
    WordsOfTwo(s[4..], 11, 9);
    assert Leb128.Words(s) == [10] + Leb128.Words(s[4..]);
  }

  lemma DeltaErrors()
    ensures DecodeAs(5, [0, 0, 0, 0, 0x80], 64) == Some(Error(Truncated))
    ensures DecodeAs(5, [0, 0, 0, 0], 2) == Some(Error(Range))
    ensures DecodeAs(5, [0, 0, 0], 64) == Some(Error(Truncated))
    ensures EncodeAs(5, [1, 2, 3], 64) == Some(Error(Truncated))
  {
    hide Leb128.ReadGroups;
    OneGroupOnly();
    assert [0, 0, 0, 0, 0x80][4..] == [0x80];
  }

  // ---- base 32 ----

  lemma Quintets(acc: nat, d: seq<nat>)
    requires |d| == 8 && forall i | 0 <= i < 8 :: d[i] < 32
    requires acc == ((((((d[0] * 32 + d[1]) * 32 + d[2]) * 32 + d[3]) * 32 + d[4]) * 32 + d[5]) * 32 + d[6]) * 32 + d[7]
    ensures forall j | 0 <= j < 8 :: Base32.Shr5(acc, 7 - j) % 32 == d[j]
  {
    var q1 := d[0] * 32 + d[1];
    var q2 := q1 * 32 + d[2];
    var q3 := q2 * 32 + d[3];
    var q4 := q3 * 32 + d[4];
    var q5 := q4 * 32 + d[5];
    var q6 := q5 * 32 + d[6];
    assert Base32.Shr5(acc, 0) == acc == q6 * 32 + d[7];
    assert Base32.Shr5(acc, 1) == q6;
    assert Base32.Shr5(acc, 2) == q5;
    assert Base32.Shr5(acc, 3) == q4;
    assert Base32.Shr5(acc, 4) == q3;
    assert Base32.Shr5(acc, 5) == q2;
    assert Base32.Shr5(acc, 6) == q1;
    assert Base32.Shr5(acc, 7) == d[0];
  }

  /** A group whose five-bit digits are `d`. */
  lemma Base32Group(s: Bytes, acc: nat, d: seq<nat>, e: Bytes)
    requires 1 <= |s| <= 5 && Base32.ByteSum(s, |s|) == acc && |e| == 8
    requires |d| == 8 && forall i | 0 <= i < 8 :: d[i] < 32
    requires acc == ((((((d[0] * 32 + d[1]) * 32 + d[2]) * 32 + d[3]) * 32 + d[4]) * 32 + d[5]) * 32 + d[6]) * 32 + d[7]
    requires forall j | 0 <= j < 8 :: e[j] == if j < Base32.Chars(|s|) then Base32.AlphabetChar(d[j]) else 61
    ensures Known(6, s, e)
  {
    hide Base32.ByteSum, Base32.Shr5, Known;
    Quintets(acc, d);
    var r := Base32.EncodeGroup(s);
    forall j | 0 <= j < 8 ensures r[j] == e[j] {
      assert r[j] == Base32.GroupChar(acc, Base32.Chars(|s|), j);
    }
    assert r == e && Base32.Encode(s) == e;
    FromEncoding(6, Codecs.Text32, s, e);
  }

  lemma Base32Known1()
    ensures Known(6, Ascii("f"), Ascii("MY======"))
  {
    hide Base32.ByteSum, Known;
    Base32.GroupValue(Ascii("f"), 102, 0, 0, 0, 0);
    Base32Group(Ascii("f"), 0x6600000000, [12, 24, 0, 0, 0, 0, 0, 0], Ascii("MY======"));
  }

  lemma Base32Known2()
    ensures Known(6, Ascii("fo"), Ascii("MZXQ===="))
  {
    hide Base32.ByteSum, Known;
    Base32.GroupValue(Ascii("fo"), 102, 111, 0, 0, 0);
    Base32Group(Ascii("fo"), 0x666f000000, [12, 25, 23, 16, 0, 0, 0, 0], Ascii("MZXQ===="));
  }

  lemma Base32Known3()
    ensures Known(6, Ascii("foo"), Ascii("MZXW6==="))
  {
    hide Base32.ByteSum, Known;
    Base32.GroupValue(Ascii("foo"), 102, 111, 111, 0, 0);
    Base32Group(Ascii("foo"), 0x666f6f0000, [12, 25, 23, 22, 30, 0, 0, 0], Ascii("MZXW6==="));
  }

  lemma Base32Known4()
    ensures Known(6, Ascii("foob"), Ascii("MZXW6YQ="))
  {
    hide Base32.ByteSum, Known;
    Base32.GroupValue(Ascii("foob"), 102, 111, 111, 98, 0);
    Base32Group(Ascii("foob"), 0x666f6f6200, [12, 25, 23, 22, 30, 24, 16, 0], Ascii("MZXW6YQ="));
  }

  lemma Base32Known5()
    ensures Known(6, Ascii("fooba"), Ascii("MZXW6YTB"))
  {
    hide Base32.ByteSum, Known;
    Base32.GroupValue(Ascii("fooba"), 102, 111, 111, 98, 97);
    Base32Group(Ascii("fooba"), 0x666f6f6261, [12, 25, 23, 22, 30, 24, 19, 1], Ascii("MZXW6YTB"));
  }

  /** Test vectors of section 10 of RFC 4648. */
  lemma Base32Known()
    ensures Known(6, Ascii("f"), Ascii("MY======"))
    ensures Known(6, Ascii("fo"), Ascii("MZXQ===="))
    ensures Known(6, Ascii("foo"), Ascii("MZXW6==="))
    ensures Known(6, Ascii("foob"), Ascii("MZXW6YQ="))
    ensures Known(6, Ascii("fooba"), Ascii("MZXW6YTB"))
  {
    hide Known;
    Base32Known1();
    Base32Known2();
    Base32Known3();
    Base32Known4();
    Base32Known5();
  }

  /** A character outside the alphabet, two padding characters, and a length that is no
      multiple of eight. */
  lemma Base32Errors()
    ensures DecodeAs(6, Ascii("AAAAAAA1"), 64) == Some(Error(BadRecord))
    ensures DecodeAs(6, Ascii("AAAAAA=="), 64) == Some(Error(BadRecord))
    ensures DecodeAs(6, Ascii("AAA"), 64) == Some(Error(Truncated))
  {
    hide Base32.CharSum, Base32.GroupBytes;
    var e, f := Ascii("AAAAAAA1"), Ascii("AAAAAA==");
    assert e[..8] == e && f[..8] == f;
    assert !Base32.IsData(e[7]);
    assert Base32.Padding(e) == 0;
    assert f[..7][..6][5] == 65 && f[..7][6] == 61;
    assert Base32.Padding(f[..7][..6]) == 0;
    assert Base32.Padding(f[..7]) == 1;
    assert Base32.Padding(f) == 2;
  }

  lemma Base32Short()
    ensures DecodeAs(6, Ascii("MZXW6YTB"), 2) == Some(Error(Range))
  {
    hide Codecs.Encode, Codecs.Decode;
    Base32Known();
    Codecs.RoundTrip(Codecs.Text32, Ascii("fooba"), 100, 2);
  }
}

/** Containers of one section, byte by byte, and what a walk makes of them
    (src/format/_smoke.c). */
module KnownContainers {
  import opened Core
  import opened Acceptance
  import Codecs
  import Container
  import Crc
  import opened KnownCodecs
  import RecordLayout
  import Records
  import Tlv
  import Walk

  const START: Bytes := [0x44, 0x54, 0x4C, 0x01, 1, 0, 1, 0]

  /** Type 5, the given codec and lengths, offset 0. */
  function Tiny(id: byte, rawLen: byte, blob: Bytes): Bytes
    requires |blob| < 0x100
  {
    START + Le32(Crc.Crc32(START)) + [5, 0, id, 0, rawLen, 0, 0, 0, |blob|, 0, 0, 0, 0, 0, 0, 0] + blob
  }

  lemma Checksum(s: Bytes, w: u32)
    requires |s| >= 12 && s[8..12] == Le32(w)
    ensures Word(s, 8) == w
  {
    Le32RoundTrip(w, []);
    assert Le32(w) + [] == Le32(w) && s[8] == s[8..12][0] && s[9] == s[8..12][1] && s[10] == s[8..12][2] && s[11] == s[8..12][3];
  }

  lemma TinyHeader(id: byte, rawLen: byte, blob: Bytes)
    requires |blob| < 0x100
    ensures var s := Tiny(id, rawLen, blob); HeaderOk(s) && |s| == 28 + |blob| && Count(s) == 1 && s[5] == 0
  {
    hide Crc.Crc32, Word;
    var s := Tiny(id, rawLen, blob);
    assert s[..8] == START && s[..4] == START[..4];
    assert s[8..12] == Le32(Crc.Crc32(START));
    Checksum(s, Crc.Crc32(START));
  }

  lemma TinyParses(id: byte, rawLen: byte, blob: Bytes)
    requires |blob| < 0x100 && rawLen > 0
    ensures Container.Parse(Tiny(id, rawLen, blob)) == Ok(Container.Parsed(0, [Container.Section(5, id, rawLen, blob)], None))
  {
    hide Crc.Crc32, Container.Parse, HeaderOk, Tiny;
    var s := Tiny(id, rawLen, blob);
    TinyHeader(id, rawLen, blob);
    TinyRow(id, rawLen, blob);
    assert Row(0) == 12 && Row(1) == 28 && TrailerThere(s) && Region(s) == |blob|;
    assert !ReservedSet(s) by { forall k: nat | k < 1 ensures !Reserved(s, k) {} }
    assert SumComp(s, 0) == 0 && SumComp(s, 1) == |blob|;
    assert RowPlaced(s, 0);
    ParseMeans(s);
    assert s[28..28 + |blob|] == blob && SectionAt(s, 0) == Container.Section(5, id, rawLen, blob);
    assert SectionsFrom(s, 0) == [SectionAt(s, 0)];
  }

  lemma TinyRow(id: byte, rawLen: byte, blob: Bytes)
    requires |blob| < 0x100
    ensures var s := Tiny(id, rawLen, blob);
            |s| == 28 + |blob| && RowAt(s, 0) == Container.Entry(5, id, rawLen, |blob|, 0) && s[15] == 0 && s[28..] == blob
  {
    hide Crc.Crc32;
    var s := Tiny(id, rawLen, blob);
    assert s[12..28] == [5, 0, id, 0, rawLen, 0, 0, 0, |blob|, 0, 0, 0, 0, 0, 0, 0];
    assert forall i | 12 <= i < 28 :: s[i] == s[12..28][i - 12];
  }

  function OnlySection(id: byte, decoded: Option<Result<Bytes>>): Walk.Seen {
    if decoded.None? then Walk.Seen([], [Walk.Fault(0, 0, BadRecord, true)])
    else if decoded.value.Error? then Walk.Seen([], [Walk.Fault(0, 0, decoded.value.err, true)])
    else Walk.Visit(Tlv.Items(decoded.value.value), 5, id, 0, 0, 0)
  }

  /** The codec byte of the table row decides how the blob is read; a byte above 6, or a
      blob that does not decode, is reported and nothing else of it. */
  lemma TinyWalk(id: byte, rawLen: byte, blob: Bytes)
    requires |blob| < 0x100 && rawLen > 0
    ensures Walk.Walk(Tiny(id, rawLen, blob), 0)
         == Ok(OnlySection(id, DecodeAs(id, blob, rawLen)))
  {
    hide Codecs.Decode, Container.Parse, Tiny, Walk.Visit;
    TinyParses(id, rawLen, blob);
    var sec := Container.Section(5, id, rawLen, blob);
    var first := Walk.SectionSeen(sec, 0, 0, 16_777_216);
    assert [sec][1..] == [];
    assert Walk.Sections([sec], 0, 0, 16_777_216) == Walk.Join(first, Walk.NOTHING) == first by {
      assert first.events + [] == first.events && first.faults + [] == first.faults;
    }
  }

  /** A limit of zero means 16 MiB. */
  lemma DefaultLimit(data: Bytes)
    ensures Walk.Walk(data, 0) == Walk.Walk(data, 16_777_216)
  {
  }

  // ---- one record of each framing ----

  /** A HEARTBEAT of 123456 s and sequence number 42, stored as it is. */
  lemma HeartbeatKnown()
    ensures Walk.Walk(Tiny(0, 11, [0x10, 8, 0, 0x40, 0xE2, 1, 0, 42, 0, 0, 0]), 0)
         == Ok(Walk.Seen([Walk.WalkEvent(5, 0, 0, 0, 0, Records.Heartbeat(123_456, 42))], []))
  {
    hide Walk.Walk, Tiny, Records.Parse;
    var stream: Bytes := [0x10, 8, 0, 0x40, 0xE2, 1, 0, 42, 0, 0, 0];
    TinyWalk(0, 11, stream);
    OneItem(stream, 0x10, [0x40, 0xE2, 1, 0, 42, 0, 0, 0]);
    RecordLayout.ParseMeans(0x10, [0x40, 0xE2, 1, 0, 42, 0, 0, 0]);
    OneEvent(0, Records.Heartbeat(123_456, 42));
  }

  lemma OneItem(stream: Bytes, tag: byte, val: Bytes)
    requires |val| < 0x100 && stream == [tag, |val|, 0] + val
    ensures Tlv.Items(stream) == [Records.Parse(tag, val)]
  {
    hide Records.Parse;
    Tlv.ItemBack(Tlv.Item(tag, val), []);
    assert Tlv.ItemBytes(Tlv.Item(tag, val)) + [] == stream;
    assert Tlv.Items([]) == [] && [Records.Parse(tag, val)] + [] == [Records.Parse(tag, val)];
  }

  lemma OneEvent(id: byte, r: Records.Record)
    ensures Walk.Visit([Ok(r)], 5, id, 0, 0, 0) == Walk.Seen([Walk.WalkEvent(5, id, 0, 0, 0, r)], [])
  {
    assert [Ok(r)][1..] == [];
    var e := Walk.WalkEvent(5, id, 0, 0, 0, r);
    assert [e] + [] == [e];
  }

  /** A blob of the run-length codec, whose byte is 1: too long for its row's length, and
      under a codec byte that is not in use. */
  lemma RleSectionKnown()
    ensures Walk.Walk(Tiny(1, 4, [3, 97, 1, 98]), 0) == Ok(Walk.Seen([], []))
    ensures Walk.Walk(Tiny(1, 3, [3, 97, 1, 98]), 0) == Ok(Walk.Seen([], [Walk.Fault(0, 0, Range, true)]))
    ensures Walk.Walk(Tiny(7, 4, [3, 97, 1, 98]), 0) == Ok(Walk.Seen([], [Walk.Fault(0, 0, BadRecord, true)]))
  {
    hide Walk.Walk, Tiny, Codecs.Decode, Codecs.Encode;
    var blob: Bytes := [3, 97, 1, 98];
    RleKnown();
    TinyWalk(1, 4, blob);
    TinyWalk(1, 3, blob);
    TinyWalk(7, 4, blob);
    Codecs.RoundTrip(Codecs.RunLength, [97, 97, 97, 98], 100, 3);
    assert Tlv.Items([97, 97, 97, 98]) == [];
  }
}

/** Queries as text and the records they select (src/query/_smoke.c). */
module KnownQueries {
  import opened Core
  import opened Eval
  import opened Lex
  import opened QueryGrammar
  import opened QueryParser
  import opened QueryText
  import opened Records

  const HEARTBEAT := Heartbeat(1000, 150)
  const BATTERY := Battery(15, 200, 50)

  /** The query is well formed and selects the record, or passes it over. */
  ghost predicate Selects(text: string, r: Record, selected: bool) {
    var c := Compile(Ascii(text));
    c.Ok? && Matches(c.value, r) == selected
  }

  /** Words whose neighbours do not run into each other spell their tokens. */
  lemma {:induction false} WordsSpell(ps: seq<Piece>, ts: seq<Token>)
    requires |ps| == |ts| && forall i | 0 <= i < |ps| :: Blanks(ps[i].gap) && Spells(ps[i].word, ts[i]) && ps[i].word != []
    requires forall i | 0 <= i < |ps| - 1 :: Apart(ts[i], ps[i + 1].gap + ps[i + 1].word)
    ensures Spelling(ps, [], ts)
  {
    hide Spells, Apart;
    if ps != [] {
      var more := ps[1..];
      forall i | 0 <= i < |more| - 1 ensures Apart(ts[1..][i], more[i + 1].gap + more[i + 1].word) {
        assert Apart(ts[i + 1], ps[i + 2].gap + ps[i + 2].word);
      }
      WordsSpell(more, ts[1..]);
      var rest := Joined(more, []);
      if more != [] {
        assert Apart(ts[0], ps[1].gap + ps[1].word);
        SameStart(ts[0], ps[1].gap + ps[1].word, rest);
      } else {
        LastWord(ts[0]);
      }
    }
  }

  lemma LastWord(t: Token)
    ensures Apart(t, [])
  {
  }

  lemma SameStart(t: Token, a: Bytes, b: Bytes)
    requires Apart(t, a) && a != [] && b != [] && a[0] == b[0]
    ensures Apart(t, b)
  {
  }

  lemma Accepted(text: string, ps: seq<Piece>, o: Disj)
    requires Spelling(ps, [], YieldO(o)) && Joined(ps, []) == Ascii(text) && FitsO(o, 0)
    ensures Compile(Ascii(text)) == Ok(TreeO(o))
  {
    hide Spelling, Joined, YieldO, FitsO, TreeO, Compile;
    assert Writes(Ascii(text), YieldO(o));
    assert Spelt(Ascii(text), o);
    CompileTextIff(Ascii(text), TreeO(o));
  }

  // ---- one comparison ----

  function Only(c: Comp): Disj { OneO(OneA(c)) }

  lemma OnlyMeans(c: Comp)
    ensures YieldO(Only(c)) == YieldC(c) && TreeO(Only(c)) == TreeC(c) && (FitsO(Only(c), 0) <==> FitsC(c, 2))
  {
    var a := OneA(c);
    assert Only(c) == OneO(a);
    assert YieldA(a) == YieldC(c) && TreeA(a) == TreeC(c) && (FitsA(a, 1) <==> FitsC(c, 2));
  }

  /** `l op r` with single blanks. */
  lemma SpacedComparison(text: string, l: Bytes, lt: Token, op: CmpOp, r: Bytes, rt: Token, lp: Prim, rp: Prim)
    requires Spells(l, lt) && Spells(r, rt) && YieldP(lp) == [lt] && YieldP(rp) == [rt]
    requires FitsP(lp, 3) && FitsP(rp, 3)
    requires Ascii(text) == l + ([32] + (Ascii(OperatorText(op)) + ([32] + r)))
    ensures Compile(Ascii(text)) == Ok(Cmp(op, TreeP(lp), TreeP(rp)))
  {
    hide Spells, YieldP, FitsP, Ascii, Compile, TreeP;
    var w := Ascii(OperatorText(op));
    var o := Only(OpC(lp, op, rp));
    OnlyMeans(OpC(lp, op, rp));
    var ps := [Piece([], l), Piece([32], w), Piece([32], r)];
    var ts := [lt, TokenOf(op), rt];
    OperatorSpelt(w, op);
    NonEmpty(l, lt);
    NonEmpty(w, TokenOf(op));
    NonEmpty(r, rt);
    BlankParts(lt, w);
    BlankParts(TokenOf(op), r);
    WordsSpell(ps, ts);
    JoinThree(ps);
    assert YieldO(o) == [lt] + [TokenOf(op)] + [rt] == ts;
    Accepted(text, ps, o);
  }

  lemma NonEmpty(w: Bytes, t: Token)
    requires Spells(w, t)
    ensures w != []
  {
  }

  lemma BlankParts(t: Token, w: Bytes)
    ensures Apart(t, [32] + w) && Blanks([32]) && Blanks([])
  {
    assert ([32] + w)[0] == 32;
  }

  lemma JoinThree(ps: seq<Piece>)
    requires |ps| == 3
    ensures Joined(ps, []) == ps[0].gap + (ps[0].word + (ps[1].gap + (ps[1].word + (ps[2].gap + (ps[2].word + [])))))
    ensures ps[0].gap == [] ==> Joined(ps, []) == ps[0].word + (ps[1].gap + (ps[1].word + (ps[2].gap + ps[2].word)))
  {
    var a, b := ps[1..], ps[2..];
    assert a[1..] == b && b[1..] == [];
    assert Joined(b, []) == b[0].gap + (b[0].word + []);
    assert Joined(a, []) == a[0].gap + (a[0].word + Joined(b, []));
  }

  lemma NameSpelt(w: Bytes)
    requires Name(w)
    ensures Spells(w, Ident(w)) && YieldP(NameP(w)) == [Ident(w)] && FitsP(NameP(w), 3) && TreeP(NameP(w)) == Field(w, None)
  {
  }

  lemma NumberSpelt(w: Bytes, n: nat)
    requires Digits10(w) && Decimal(w) == n <= 1000
    ensures Spells(w, Num(n)) && YieldP(NumP(n)) == [Num(n)] && FitsP(NumP(n), 3) && TreeP(NumP(n)) == IntLit(n)
  {
  }

  lemma Hundred()
    ensures Ascii("100") == [49, 48, 48] && Digits10(Ascii("100")) && Decimal(Ascii("100")) == 100
  {
    var a: Bytes, b: Bytes, d := [49], [49, 48], Ascii("100");
    assert a[..0] == [] && b[..1] == a && d == [49, 48, 48] && d[..2] == b;
    assert Decimal(a) == 1;
    assert Decimal(b) == 10;
  }

  /** "seq > 100" selects a heartbeat with sequence number 150, and no battery record, which
      has no such field. */
  lemma SeqQuery()
    ensures Selects("seq > 100", HEARTBEAT, true) && Selects("seq > 100", BATTERY, false)
  {
    hide Compile, Matches, Evaluate, TypeTag;
    var w, d := Ascii("seq"), Ascii("100");
    Hundred();
    NameSpelt(w);
    NumberSpelt(d, 100);
    SpacedComparison("seq > 100", w, Ident(w), OpGt, d, Num(100), NameP(w), NumP(100));
    SeqIsField(w);
    var t := Cmp(OpGt, Field(w, None), IntLit(100));
    ComparisonMeans(OpGt, Field(w, None), IntLit(100), HEARTBEAT);
    ComparisonMeans(OpGt, Field(w, None), IntLit(100), BATTERY);
  }

  lemma SeqIsField(w: Bytes)
    requires w == Ascii("seq")
    ensures Evaluate(Field(w, None), HEARTBEAT) == IntV(150) && Evaluate(Field(w, None), BATTERY) == Missing
    ensures Evaluate(IntLit(100), HEARTBEAT) == IntV(100) == Evaluate(IntLit(100), BATTERY)
  {
    hide TypeTag;
    NoType(w);
    assert |Ascii("type")| == 4;
    assert w[0] == 115 && Ascii("pct")[0] == 112;
  }

  lemma NoType(w: Bytes)
    requires w == Ascii("seq")
    ensures TypeTag(w) == None
  {
    hide TypeTag;
    assert w[0] == 115 && Lower(w[0]) == 115;
    match TypeTag(w)
    case Some(tag) => TypeTagIff(w, tag);
    case None =>
  }

  // ---- connectives ----

  function TwoTerms(conj: bool): Disj {
    var one, zero := OneC(NumP(1)), OneC(NumP(0));
    if conj then OneO(MoreA(OneA(one), zero)) else MoreO(OneO(OneA(one)), OneA(zero))
  }

  lemma TwoTermsMean(conj: bool)
    ensures YieldO(TwoTerms(conj)) == [Num(1), if conj then AndAnd else OrOr, Num(0)]
    ensures TreeO(TwoTerms(conj)) == (if conj then And(IntLit(1), IntLit(0)) else Or(IntLit(1), IntLit(0)))
    ensures FitsO(TwoTerms(conj), 0)
  {
    var one, zero := OneC(NumP(1)), OneC(NumP(0));
    assert YieldC(one) == [Num(1)] && YieldC(zero) == [Num(0)];
    assert FitsC(one, 2) && FitsC(zero, 2);
    assert FitsA(OneA(one), 1) && FitsA(OneA(zero), 1) && FitsA(MoreA(OneA(one), zero), 1);
    assert YieldA(OneA(one)) == [Num(1)] && YieldA(OneA(zero)) == [Num(0)];
    assert YieldA(MoreA(OneA(one), zero)) == [Num(1)] + [AndAnd] + [Num(0)];
    assert YieldO(OneO(OneA(one))) == [Num(1)] && FitsO(OneO(OneA(one)), 0);
    assert TreeA(OneA(one)) == IntLit(1) && TreeA(OneA(zero)) == IntLit(0) && TreeO(OneO(OneA(one))) == IntLit(1);
  }

  lemma TwoTermsCompile(conj: bool)
    ensures Compile(Ascii(if conj then "1&&0" else "1||0")) == Ok(TreeO(TwoTerms(conj)))
  {
    hide TwoTerms, YieldO, TreeO, FitsO, Compile;
    var text := if conj then "1&&0" else "1||0";
    var op := if conj then Ascii("&&") else Ascii("||");
    var ps := [Piece([], [49]), Piece([], op), Piece([], [48])];
    var ts := [Num(1), if conj then AndAnd else OrOr, Num(0)];
    TwoTermsMean(conj);
    assert [49][..0] == [] && [48][..0] == [];
    assert Decimal([49]) == 1 && Decimal([48]) == 0;
    assert Spells(ps[0].word, ts[0]) && Spells(ps[1].word, ts[1]) && Spells(ps[2].word, ts[2]);
    assert ([] + op)[0] == (if conj then 38 else 124);
    WordsSpell(ps, ts);
    JoinThree(ps);
    assert Ascii(text) == [49] + ([] + (op + ([] + [48])));
    Accepted(text, ps, TwoTerms(conj));
  }

  /** The double ampersand is the conjunction and the double bar the disjunction. */
  lemma ConnectiveQueries(r: Record)
    ensures Selects("1&&0", r, false) && Selects("1||0", r, true)
  {
    hide TwoTerms, Compile;
    TwoTermsCompile(true);
    TwoTermsCompile(false);
    TwoTermsMean(true);
    TwoTermsMean(false);
    MatchesParts(IntLit(1), IntLit(0), r);
  }
}
