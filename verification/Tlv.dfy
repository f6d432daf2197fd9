/** Tag/length/value framing of a section stream (src/format/tlv.c) and the
    cursor-driven parsers of the records inside it (src/records). */
module Tlv {
  import opened Core
  import opened Buffer
  import opened Records

  datatype Item = Item(tag: byte, val: Bytes)

  function TakeItem(s: Bytes): (r: Result<(Item, Bytes)>)
    ensures r.Ok? ==> |r.value.0.val| <= 0xFFFF && |s| == 3 + |r.value.0.val| + |r.value.1|
    ensures r.Error? ==> r.err == Truncated
  {
    var (tag, s1) :- TakeU8(s);
    var (len, s2) :- TakeU16(s1);
    if len > |s2| then Error(Truncated) else Ok((Item(tag, s2[..len]), s2[len..]))
  }

  function ItemBytes(i: Item): (s: Bytes)
    requires |i.val| <= 0xFFFF
    ensures |s| == 3 + |i.val|
  {
    [i.tag] + (Le16(|i.val|) + i.val)
  }

  lemma ItemBack(i: Item, rest: Bytes)
    requires |i.val| <= 0xFFFF
    ensures TakeItem(ItemBytes(i) + rest) == Ok((i, rest))
  {
    assert ItemBytes(i) + rest == [i.tag] + (Le16(|i.val|) + (i.val + rest));
    ParseOne(i.tag, Le16(|i.val|) + (i.val + rest));
    ParseHalf(|i.val|, i.val + rest);
    assert (i.val + rest)[..|i.val|] == i.val && (i.val + rest)[|i.val|..] == rest;
  }

  // ---- what a walk sees in a stream ----

  /** A record, or the error its payload gave; either takes one ordinal. */
  function Read(i: Item): Result<Record> { Parse(i.tag, i.val) }

  /** Every item up to the end of the stream or the first truncated one. */
  function Items(s: Bytes): seq<Result<Record>>
    decreases |s|
  {
    match TakeItem(s)
    case Error(_) => []
    case Ok((i, rest)) => [Read(i)] + Items(rest)
  }

  function RecordBytes(r: Record): (s: Bytes)
    requires WellFormed(r)
    ensures 3 <= |s| == 3 + |Payload(r).value|
  {
    ItemBytes(Item(TagOf(r), Payload(r).value))
  }

  predicate AllWellFormed(rs: seq<Record>) { forall i | 0 <= i < |rs| :: WellFormed(rs[i]) }

  function Stream(rs: seq<Record>): Bytes
    requires AllWellFormed(rs)
  {
    if rs == [] then [] else RecordBytes(rs[0]) + Stream(rs[1..])
  }

  function Parsed(rs: seq<Record>): (r: seq<Result<Record>>)
    ensures |r| == |rs|
    ensures forall i | 0 <= i < |rs| :: r[i] == Ok(Canon(rs[i]))
  {
    if rs == [] then [] else [Ok(Canon(rs[0]))] + Parsed(rs[1..])
  }

  /** Reading a written stream gives its records in order. */
  lemma {:induction false} StreamBack(rs: seq<Record>)
    requires AllWellFormed(rs)
    ensures Items(Stream(rs)) == Parsed(rs)
  {
    if rs != [] {
      var r := rs[0];
      ItemBack(Item(TagOf(r), Payload(r).value), Stream(rs[1..]));
      PayloadRoundTrip(r);
      StreamBack(rs[1..]);
    }
  }

  lemma {:induction false} StreamSnoc(rs: seq<Record>, r: Record)
    requires AllWellFormed(rs) && WellFormed(r)
    ensures AllWellFormed(rs + [r]) && Stream(rs + [r]) == Stream(rs) + RecordBytes(r)
  {
    if rs == [] {
      assert rs + [r] == [r] && [r][1..] == [];
      assert Stream([r]) == RecordBytes(r) + Stream([]);
    } else {
      StreamSnoc(rs[1..], r);
      assert (rs + [r])[1..] == rs[1..] + [r];
    }
  }

  /** `dtl_tlv_next` */
  method Next(stream: Cursor) returns (r: Result<Item>)
    requires stream.Valid()
    modifies stream`pos
    ensures stream.Valid() && stream.pos >= old(stream.pos)
    ensures match TakeItem(old(stream.Rest()))
            case Ok((i, rest)) => r == Ok(i) && stream.Rest() == rest && stream.pos == old(stream.pos) + 3 + |i.val|
            case Error(e) => r == Error(e)
  {
    var tag := stream.ReadU8();
    if tag.Error? { return Error(tag.err); }
    var len := stream.ReadU16();
    if len.Error? { return Error(len.err); }
    if len.value > stream.Remaining() {
      return Error(Truncated);
    }
    ghost var rest := stream.Rest();
    var val := stream.data[stream.pos..stream.pos + len.value];
    stream.pos := stream.pos + len.value;
    assert rest[..len.value] == val && rest[len.value..] == stream.Rest();
    return Ok(Item(tag.value, val));
  }

  /** Number of whole items, and whether the stream ends on an item boundary. */
  function Count(s: Bytes): (nat, bool)
    decreases |s|
  {
    if s == [] then (0, true)
    else match TakeItem(s)
      case Error(_) => (0, false)
      case Ok((_, rest)) => var (n, clean) := Count(rest); (n + 1, clean)
  }

  /** The counting pre-pass agrees with what a walk visits. */
  lemma {:induction false} CountIsItems(s: Bytes)
    ensures Count(s).0 == |Items(s)|
    decreases |s|
  {
    match TakeItem(s)
    case Error(_) =>
    case Ok((_, rest)) => CountIsItems(rest);
  }

  /** `dtl_tlv_count` iterates a private copy, so the caller's cursor stays put. */
  method CountItems(stream: Cursor) returns (n: nat, r: Result<()>)
    requires stream.Valid()
    ensures n == Count(stream.Rest()).0
    ensures r == if Count(stream.Rest()).1 then Ok(()) else Error(Truncated)
  {
    var tmp := new Cursor(stream.data);
    tmp.pos := stream.pos;
    n := 0;
    ghost var goal := Count(stream.Rest());
    while tmp.Remaining() != 0
      invariant tmp.Valid() && fresh(tmp)
      invariant goal.0 == n + Count(tmp.Rest()).0 && goal.1 == Count(tmp.Rest()).1
      decreases |tmp.data| - tmp.pos
    {
      var item := Next(tmp);
      if item.Error? {
        return n, Error(item.err);
      }
      n := n + 1;
    }
    return n, Ok(());
  }

  // ---- dtl_config_parse and dtl_record_parse ----

  method ReadStr(b: Cursor) returns (r: Result<Bytes>)
    requires b.Valid()
    modifies b`pos
    ensures b.Valid()
    ensures match TakeStr(old(b.Rest()))
            case Ok((s, rest)) => r == Ok(s) && b.Rest() == rest
            case Error(e) => r == Error(e)
  {
    var n := b.ReadU8();
    if n.Error? { return Error(n.err); }
    r := b.ReadBytes(n.value);
  }

  /** The pairs read so far, followed by what the remaining run reads. */
  ghost function AfterPairs(done: seq<(Bytes, Bytes)>, r: Result<(seq<(Bytes, Bytes)>, Bytes)>)
    : Result<(seq<(Bytes, Bytes)>, Bytes)>
  {
    match r
    case Ok((more, rest)) => Ok((done + more, rest))
    case Error(e) => Error(e)
  }

  lemma AfterPairsStep(done: seq<(Bytes, Bytes)>, s: Bytes, n: nat)
    requires n > 0
    ensures AfterPairs(done, TakePairs(s, n))
         == match TakeStr(s)
            case Error(e) => Error(e)
            case Ok((k, afterKey)) =>
              match TakeStr(afterKey)
              case Error(e) => Error(e)
              case Ok((v, rest)) => AfterPairs(done + [(k, v)], TakePairs(rest, n - 1))
  {
    hide TakeStr;
    if TakeStr(s).Ok? {
      var (k, afterKey) := TakeStr(s).value;
      if TakeStr(afterKey).Ok? {
        var (v, rest) := TakeStr(afterKey).value;
        var r := TakePairs(rest, n - 1);
        if r.Ok? { Assoc(done, [(k, v)], r.value.0); }
      }
    }
  }

  lemma AfterPairsEnds(done: seq<(Bytes, Bytes)>, s: Bytes, n: nat)
    ensures AfterPairs(done, TakePairs(s, 0)) == Ok((done, s))
    ensures AfterPairs([], TakePairs(s, n)) == TakePairs(s, n)
  {
    assert done + [] == done;
    var r := TakePairs(s, n);
    if r.Ok? { assert [] + r.value.0 == r.value.0; }
  }

  method ReadPairs(b: Cursor, n: nat) returns (r: Result<seq<(Bytes, Bytes)>>)
    requires b.Valid()
    modifies b`pos
    ensures b.Valid()
    ensures match TakePairs(old(b.Rest()), n)
            case Ok((pairs, rest)) => r == Ok(pairs) && b.Rest() == rest
            case Error(e) => r == Error(e)
  {
    hide TakePairs, TakeStr;
    var pairs: seq<(Bytes, Bytes)> := [];
    ghost var goal := TakePairs(b.Rest(), n);
    AfterPairsEnds([], b.Rest(), n);
    for i := 0 to n
      invariant b.Valid()
      invariant goal == AfterPairs(pairs, TakePairs(b.Rest(), n - i))
    {
      AfterPairsStep(pairs, b.Rest(), n - i);
      var key := ReadStr(b);
      if key.Error? { return Error(key.err); }
      var value := ReadStr(b);
      if value.Error? { return Error(value.err); }
      pairs := pairs + [(key.value, value.value)];
    }
    AfterPairsEnds(pairs, b.Rest(), 0);
    return Ok(pairs);
  }

  method ParseConfigInto(val: Bytes) returns (r: Result<Record>)
    ensures r == ParseConfig(val)
  {
    var b := new Cursor(val);
    var count := b.ReadU8();
    if count.Error? { return Error(count.err); }
    var pairs := ReadPairs(b, count.value);
    if pairs.Error? { return Error(pairs.err); }
    if b.Remaining() != 0 {
      return Error(BadRecord);
    }
    return Ok(Config(pairs.value));
  }

  /** `dtl_record_parse`: dispatch on the tag, then the NET range rule. */
  method ParseRecord(item: Item) returns (r: Result<Record>)
    ensures r == Read(item)
  {
    match item.tag
    case 0x10 => return ParseHeartbeat(item.val);
    case 0x14 => return ParseGeo(item.val);
    case 0x15 => return ParseBattery(item.val);
    case 0x16 => return ParseNet(item.val);
    case 0x1A => return ParseFirmware(item.val);
    case 0x11 => return ParseSensor(item.val);
    case 0x12 => return ParseEvent(item.val);
    case 0x17 => return ParseLog(item.val);
    case 0x18 => r := ParseConfigInto(item.val);
    case 0x19 => return ParseKeyref(item.val);
    case 0x13 => return ParseDiag(item.val);
    case _ => return Error(BadRecord);
  }
}
