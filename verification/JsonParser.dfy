/** The JSON parser object: a cursor and a nesting depth (src/report/jimport.c). */
module JsonParser {
  import opened Core
  import opened Lex
  import opened JsonText
  import opened Json
  import opened JsonRecords
  import opened JsonTool
  import opened WriterSpec
  import opened Replay
  import opened Pipeline
  import Writer
  import Codecs

  /** `done` was read already; `r` is what the rest of a loop reads. */
  ghost function Onto<T>(done: seq<T>, r: Read<seq<T>>): Read<seq<T>> {
    match r
    case None => None
    case Some((more, rest)) => Some((done + more, rest))
  }

  lemma OntoStep<T>(done: seq<T>, x: T, r: Read<seq<T>>)
    ensures Onto(done, Onto([x], r)) == Onto(done + [x], r) && Onto([], r) == r
  {
    if r.Some? {
      Assoc(done, [x], r.value.0);
      assert [] + r.value.0 == r.value.0;
    }
  }

  lemma ItemsStep(items: seq<Json>, s: Bytes, depth: nat)
    ensures Onto(items, Items(s, depth))
         == match ReadValue(s, depth)
            case None => None
            case Some((v, after)) =>
              var t := SkipSpace(after);
              if t == [] then None
              else if t[0] == CLOSE_BRACKET then Some((items + [v], t[1..]))
              else if t[0] != COMMA then None
              else Onto(items + [v], Items(t[1..], depth))
  {
    hide ReadValue;
    var r := ReadValue(s, depth);
    if r.Some? {
      var t := SkipSpace(r.value.1);
      if t != [] { OntoStep(items, r.value.0, Items(t[1..], depth)); }
    }
  }

  lemma MembersStep(ms: seq<(Bytes, Json)>, s: Bytes, depth: nat)
    ensures Onto(ms, Members(s, depth))
         == match Member(s, depth)
            case None => None
            case Some((m, after)) =>
              var t := SkipSpace(after);
              if t == [] then None
              else if t[0] == CLOSE_BRACE then Some((ms + [m], t[1..]))
              else if t[0] != COMMA then None
              else Onto(ms + [m], Members(t[1..], depth))
  {
    hide Member;
    var r := Member(s, depth);
    if r.Some? {
      var t := SkipSpace(r.value.1);
      if t != [] { OntoStep(ms, r.value.0, Members(t[1..], depth)); }
    }
  }

  class Parser {
    const data: Bytes
    var p: nat
    var depth: nat

    ghost predicate Valid()
      reads this
    {
      p <= |data|
    }

    ghost function Rest(): Bytes
      reads this
      requires Valid()
    {
      data[p..]
    }

    constructor (data: Bytes)
      ensures Valid() && this.data == data && Rest() == data && depth == 0
    {
      this.data := data;
      p, depth := 0, 0;
    }

    method SkipWs()
      requires Valid()
      modifies this`p
      ensures Valid() && Rest() == SkipSpace(old(Rest()))
    {
      ghost var s := SkipSpace(Rest());
      while p < |data| && IsSpace(data[p])
        invariant Valid() && s == SkipSpace(Rest())
        decreases |data| - p
      {
        assert Rest()[1..] == data[p + 1..];
        p := p + 1;
      }
    }

    /** What a parsing method leaves: the value and the cursor behind it, with the
        depth restored; after a failure nothing is promised. */
    twostate predicate Did<T>(new r: Read<T>, new got: Option<T>)
      reads this
    {
      match r
      case None => got.None?
      case Some((v, rest)) => got == Some(v) && Valid() && Rest() == rest && depth == old(depth)
    }

    /** The four digits of a \\u escape. */
    method ParseUnicode() returns (c: Option<byte>)
      requires Valid()
      modifies this`p
      ensures c == UnicodeEscape(old(Rest()))
      ensures c.Some? ==> p == old(p) + 4 <= |data|
    {
      var s := data[p..];
      if |s| < 4 {
        return None;
      }
      var v: nat := 0;
      for i := 0 to 4
        invariant p == old(p) + i
        invariant forall k | 0 <= k < i :: HexValue(s[k]) >= 0
        invariant i == 1 ==> v == HexValue(s[0])
        invariant i == 2 ==> v == HexValue(s[0]) * 16 + HexValue(s[1])
        invariant i == 3 ==> v == (HexValue(s[0]) * 16 + HexValue(s[1])) * 16 + HexValue(s[2])
        invariant i == 4 ==> v == ((HexValue(s[0]) * 16 + HexValue(s[1])) * 16 + HexValue(s[2])) * 16 + HexValue(s[3])
        invariant i == 0 ==> v == 0
      {
        var h := HexValue(data[p]);
        assert s[i] == data[p];
        p := p + 1;
        if h < 0 {
          return None;
        }
        v := 16 * v + h;
      }
      return if v > 0x7F then None else Some(v);
    }

    /** One character of a string, escapes decoded. */
    method ParseCharacter() returns (c: Option<byte>)
      requires Valid() && p < |data|
      modifies this`p
      ensures match Character(old(Rest()))
              case None => c.None?
              case Some((b, n)) => c == Some(b) && p == old(p) + n <= |data|
    {
      ghost var s := Rest();
      var b := data[p];
      p := p + 1;
      if b != BACKSLASH {
        return Some(b);
      }
      if p >= |data| {
        return None;
      }
      var e := data[p];
      p := p + 1;
      assert s[1] == e && s[2..] == Rest();
      if e == 117 {
        c := ParseUnicode();
        return;
      }
      return SimpleEscape(e);
    }

    /** `dtl_json_parse_string`, the cursor being on the opening quote. */
    method ParseString() returns (r: Option<Bytes>)
      requires Valid() && p < |data|
      modifies this`p
      ensures Did(StringBody(old(Rest())[1..]), r)
    {
      hide Character;
      ghost var s0 := Rest();
      p := p + 1;
      assert Rest() == s0[1..];
      var buf: Bytes := [];
      ghost var goal := StringBody(Rest());
      OntoStep([], 0, goal);
      while true
        invariant Valid() && goal == Onto(buf, StringBody(Rest())) && depth == old(depth)
        decreases |data| - p
      {
        ghost var s := Rest();
        if p >= |data| {
          return None;
        }
        if data[p] == QUOTE {
          p := p + 1;
          assert s[1..] == Rest() && buf + [] == buf;
          return Some(buf);
        }
        var c := ParseCharacter();
        if c.None? {
          return None;
        }
        assert s[Character(s).value.1..] == Rest();
        OntoStep(buf, c.value, StringBody(Rest()));
        buf := buf + [c.value];
      }
    }

    /** `dtl_json_parse_array`, the cursor being on the bracket. */
    method ParseArray() returns (r: Option<Json>)
      requires Valid() && p < |data|
      modifies this
      ensures Did(Brackets(old(Rest())[1..], old(depth)), r)
      decreases |Rest()|, 0
    {
      hide Items, SkipSpace;
      ghost var s0 := Rest();
      p := p + 1;
      assert Rest() == s0[1..];
      SkipWs();
      if p < |data| && data[p] == CLOSE_BRACKET {
        ghost var s := Rest();
        p := p + 1;
        assert s[1..] == Rest();
        return Some(Array([]));
      }
      var items := ParseItems();
      return if items.Some? then Some(Array(items.value)) else None;
    }

    /** Its loop. */
    method ParseItems() returns (r: Option<seq<Json>>)
      requires Valid()
      modifies this
      ensures Did(Items(old(Rest()), old(depth)), r)
      decreases |Rest()|, 2
    {
      hide Items, ReadValue, SkipSpace;
      var items: seq<Json> := [];
      OntoStep([], Null, Items(Rest(), depth));
      while true
        invariant Valid() && depth == old(depth) && |Rest()| <= |old(Rest())|
        invariant Items(old(Rest()), depth) == Onto(items, Items(Rest(), depth))
        decreases |data| - p
      {
        ItemsStep(items, Rest(), depth);
        var val := ParseValue();
        if val.None? {
          return None;
        }
        SkipWs();
        if p >= |data| {
          return None;
        }
        var c := data[p];
        assert Rest()[1..] == data[p + 1..] && Rest()[0] == c;
        items := items + [val.value];
        p := p + 1;
        if c == CLOSE_BRACKET {
          return Some(items);
        }
        if c != COMMA {
          return None;
        }
      }
    }

    /** A key, a colon and a value. */
    method ParseMember() returns (r: Option<(Bytes, Json)>)
      requires Valid()
      modifies this
      ensures Did(Member(old(Rest()), old(depth)), r)
      decreases |Rest()|, 0
    {
      hide ReadValue, StringBody;
      SkipWs();
      if p >= |data| || data[p] != QUOTE {
        return None;
      }
      var key := ParseString();
      if key.None? {
        return None;
      }
      SkipWs();
      ghost var t := Rest();
      if p >= |data| || data[p] != COLON {
        return None;
      }
      p := p + 1;
      assert t[1..] == Rest();
      var val := ParseValue();
      if val.None? {
        return None;
      }
      return Some((key.value, val.value));
    }

    /** `dtl_json_parse_object`, the cursor being on the brace. */
    method ParseObject() returns (r: Option<Json>)
      requires Valid() && p < |data|
      modifies this
      ensures Did(Braces(old(Rest())[1..], old(depth)), r)
      decreases |Rest()|, 0
    {
      hide Members, SkipSpace;
      ghost var s0 := Rest();
      p := p + 1;
      assert Rest() == s0[1..];
      SkipWs();
      if p < |data| && data[p] == CLOSE_BRACE {
        ghost var s := Rest();
        p := p + 1;
        assert s[1..] == Rest();
        return Some(Object([]));
      }
      var ms := ParseMembers();
      return if ms.Some? then Some(Object(ms.value)) else None;
    }

    /** Its loop. */
    method ParseMembers() returns (r: Option<seq<(Bytes, Json)>>)
      requires Valid()
      modifies this
      ensures Did(Members(old(Rest()), old(depth)), r)
      decreases |Rest()|, 2
    {
      hide Members, Member, SkipSpace;
      var ms: seq<(Bytes, Json)> := [];
      OntoStep([], ([], Null), Members(Rest(), depth));
      while true
        invariant Valid() && depth == old(depth) && |Rest()| <= |old(Rest())|
        invariant Members(old(Rest()), depth) == Onto(ms, Members(Rest(), depth))
        decreases |data| - p
      {
        MembersStep(ms, Rest(), depth);
        var m := ParseMember();
        if m.None? {
          return None;
        }
        SkipWs();
        if p >= |data| {
          return None;
        }
        var c := data[p];
        assert Rest()[1..] == data[p + 1..] && Rest()[0] == c;
        ms := ms + [m.value];
        p := p + 1;
        if c == CLOSE_BRACE {
          return Some(ms);
        }
        if c != COMMA {
          return None;
        }
      }
    }

    /** The digits at the cursor. */
    method SkipDigits()
      requires Valid()
      modifies this`p
      ensures Valid() && p == old(p) + DigitRun(old(Rest()))
    {
      ghost var s := Rest();
      while p < |data| && IsDigit(data[p])
        invariant old(p) <= p && Valid() && DigitRun(s) == p - old(p) + DigitRun(Rest())
        decreases |data| - p
      {
        assert Rest()[1..] == data[p + 1..];
        p := p + 1;
      }
    }

    method SkipFraction(start: nat)
      requires start <= p && Valid()
      modifies this`p
      ensures Valid() && p == start + FractionEnd(data[start..], old(p) - start)
    {
      hide DigitRun;
      if p < |data| && data[p] == DOT {
        p := p + 1;
        assert data[start..][p - start..] == Rest();
        SkipDigits();
      }
    }

    method SkipExponent(start: nat)
      requires start <= p && Valid()
      modifies this`p
      ensures Valid() && p == start + ExponentEnd(data[start..], old(p) - start)
    {
      hide DigitRun;
      if p < |data| && IsExp(data[p]) {
        p := p + 1;
        if p < |data| && (data[p] == 43 || data[p] == MINUS) {
          p := p + 1;
        }
        assert data[start..][p - start..] == Rest();
        SkipDigits();
      }
    }

    method ParseNumber() returns (r: Option<Bytes>)
      requires Valid() && p < |data|
      modifies this`p
      ensures match NumberSpan(old(Rest()))
              case None => r.None?
              case Some(n) => r == Some(old(Rest())[..n]) && p == old(p) + n <= |data|
    {
      hide DigitRun, FractionEnd, ExponentEnd;
      ghost var s := Rest();
      var start := p;
      if data[p] == MINUS {
        p := p + 1;
      }
      if p >= |data| || !IsDigit(data[p]) {
        return None;
      }
      assert s[p - start..] == Rest();
      SkipDigits();
      SkipFraction(start);
      SkipExponent(start);
      assert s[..p - start] == data[start..p];
      return Some(data[start..p]);
    }

    method ParseWord(word: Bytes) returns (ok: bool)
      requires Valid()
      modifies this`p
      ensures ok <==> word <= old(Rest())
      ensures ok ==> Valid() && Rest() == old(Rest())[|word|..]
    {
      ghost var s := Rest();
      if |data| - p < |word| || data[p..p + |word|] != word {
        assert |s| >= |word| ==> s[..|word|] == data[p..p + |word|];
        return false;
      }
      assert s[..|word|] == word;
      p := p + |word|;
      assert s[|word|..] == Rest();
      return true;
    }

    /** `dtl_json_parse_value` */
    method ParseValue() returns (r: Option<Json>)
      requires Valid()
      modifies this
      ensures Did(ReadValue(old(Rest()), old(depth)), r)
      decreases |Rest()|, 1
    {
      hide NumberSpan, StringBody, Brackets, Braces;
      ghost var d := depth;
      depth := depth + 1;
      if depth > MAX_DEPTH {
        return None;
      }
      SkipWs();
      if p >= |data| {
        depth := depth - 1;
        return None;
      }
      ghost var s := Rest();
      var c := data[p];
      if c == OPEN_BRACE {
        r := ParseObject();
      } else if c == OPEN_BRACKET {
        r := ParseArray();
      } else if c == QUOTE {
        var str := ParseString();
        r := if str.Some? then Some(String(str.value)) else None;
      } else if c == 116 {
        var ok := ParseWord(TRUE_TEXT);
        r := if ok then Some(Bool(true)) else None;
      } else if c == 102 {
        var ok := ParseWord(FALSE_TEXT);
        r := if ok then Some(Bool(false)) else None;
      } else if c == 110 {
        var ok := ParseWord(NULL_TEXT);
        r := if ok then Some(Null) else None;
      } else {
        var num := ParseNumber();
        assert num.Some? ==> Rest() == s[NumberSpan(s).value..];
        r := if num.Some? then Some(Number(num.value)) else None;
      }
      if r.Some? {
        depth := depth - 1;
      }
    }
  }

  // ---- the importer ----

  lemma {:induction false} ImportFails(js: seq<Json>, i: nat, strtof: Bytes -> Option<u32>, e: Err)
    requires i <= |js| && ImportState(js[..i], strtof) == Error(e)
    ensures ImportState(js, strtof) == Error(e)
    decreases |js|
  {
    hide ImportOne;
    if i < |js| {
      var init := js[..|js| - 1];
      assert init[..i] == js[..i];
      ImportFails(init, i, strtof, e);
    } else {
      assert js[..i] == js;
    }
  }

  /** One turn: convert, open the section for the first record, add. */
  method ImportTurn(w: Writer.Encoder, j: Json, sectionOpen: bool, strtof: Bytes -> Option<u32>)
    returns (rc: Option<Err>, ghost lapsed: bool)
    requires w.Valid() && w.View().Active?
    modifies w, w.tlv
    ensures w.Valid() && (w.tlv == old(w.tlv) || fresh(w.tlv))
    ensures lapsed ==> rc.Some?
    ensures !lapsed ==>
              match ImportOne(old(w.View()), j, sectionOpen, strtof)
              case Ok(st) => rc.None? && w.View() == st
              case Error(e) => rc == Some(e)
  {
    hide ImportRecord, Added;
    var rec := ImportRecord(j, strtof);
    if rec.Error? {
      return Some(rec.err), false;
    }
    if !sectionOpen {
      var handle := w.BeginSection(IMPORT_TYPE, Codecs.STORE);
      if handle < 0 {
        return Some(Oom), false;
      }
    }
    w.AddOne(rec.value);
    return w.err, w.lapse.Some?;
  }

  /** One array, and nothing but white space after it. */
  method ParseText(data: Bytes) returns (js: Option<seq<Json>>)
    ensures js == ParseDocument(data)
  {
    hide Brackets, SkipSpace;
    var ps := new Parser(data);
    ps.SkipWs();
    ghost var s := SkipSpace(data);
    assert |s| == |data| - ps.p && (s != [] ==> s[0] == data[ps.p]);
    if ps.p >= |data| || data[ps.p] != OPEN_BRACKET {
      return None;
    }
    ghost var got := Brackets(s[1..], 0);
    var root := ps.ParseArray();
    if root.None? || !root.value.Array? {
      assert Whole(got) == None;
      return None;
    }
    assert got == Some((root.value, ps.Rest()));
    ghost var rest := ps.Rest();
    ps.SkipWs();
    assert |SkipSpace(rest)| == |data| - ps.p;
    if ps.p != |data| {
      return None;
    }
    return Some(root.value.items);
  }

  /** The loop over the objects. */
  method WriteObjects(js: seq<Json>, strtof: Bytes -> Option<u32>, w: Writer.Encoder)
    returns (rc: Option<Err>, ghost lapsed: bool)
    requires w.Valid() && w.View() == INITIAL
    modifies w, w.tlv
    ensures w.Valid() && (w.tlv == old(w.tlv) || fresh(w.tlv))
    ensures lapsed ==> rc.Some?
    ensures !lapsed ==>
              match ImportState(js, strtof)
              case Ok(st) => rc.None? && w.View() == st
              case Error(e) => rc == Some(e)
  {
    hide ImportOne;
    for i := 0 to |js|
      invariant w.Valid() && (w.tlv == old(w.tlv) || fresh(w.tlv)) && ImportState(js[..i], strtof) == Ok(w.View())
    {
      assert js[..i + 1][..i] == js[..i];
      ghost var bad;
      rc, bad := ImportTurn(w, js[i], i > 0, strtof);
      if rc.Some? {
        if !bad { ImportFails(js, i + 1, strtof, rc.value); }
        return rc, bad;
      }
    }
    assert js[..|js|] == js;
    return None, false;
  }

  /** `dtl_import_json_memory` */
  method ImportMemory(data: Bytes, strtof: Bytes -> Option<u32>, mac: (Bytes, Bytes) -> Bytes)
    returns (r: Result<Bytes>, records: nat, ghost lapsed: bool)
    requires IsMac(mac)
    ensures lapsed ==> r.Error?
    ensures !lapsed ==> r == Import(data, strtof, mac)
    ensures r.Ok? ==> ParseDocument(data).Some? && records == |ParseDocument(data).value|
  {
    hide ParseDocument, ImportState, Finish, Ended;
    var js := ParseText(data);
    if js.None? {
      return Error(BadRecord), 0, false;
    }
    var w := new Writer.Encoder();
    var rc, bad := WriteObjects(js.value, strtof, w);
    if rc.Some? {
      return Error(rc.value), 0, bad;
    }
    if js.value != [] {
      w.EndSection();
      if w.err.Some? {
        return Error(w.err.value), 0, w.lapse.Some?;
      }
    }
    r := w.FinishLog(mac);
    return r, |js.value|, w.lapse.Some?;
  }
}
