/** Evaluation of a compiled filter on one record (src/query/eval.c). */
module Eval {
  import opened Core
  import opened Records
  import opened QueryGrammar

  /** An integer, a byte string, or nothing. */
  datatype Value = Missing | IntV(i: int) | StrV(s: Bytes)

  // ---- names ----

  function Lower(c: byte): byte { if 65 <= c <= 90 then c + 32 else c }

  predicate SameName(s: Bytes, t: Bytes) { |s| == |t| && forall i | 0 <= i < |s| :: Lower(s[i]) == Lower(t[i]) }

  const TYPE_NAMES: seq<string> :=
    ["HEARTBEAT", "SENSOR", "EVENT", "DIAG", "GEO", "BATTERY", "NET", "LOG", "CONFIG", "KEYREF", "FIRMWARE"]

  /** The search from entry `k` of the name table; tags follow the table order. */
  function TagFrom(s: Bytes, k: nat): Option<byte>
    decreases |TYPE_NAMES| - k
  {
    if k >= |TYPE_NAMES| then None
    else if SameName(s, Ascii(TYPE_NAMES[k])) then Some(0x10 + k)
    else TagFrom(s, k + 1)
  }

  function TypeTag(s: Bytes): Option<byte> { TagFrom(s, 0) }

  lemma {:induction false} TagFromCase(s: Bytes, t: Bytes, k: nat)
    requires SameName(s, t)
    ensures TagFrom(s, k) == TagFrom(t, k)
    decreases |TYPE_NAMES| - k
  {
    if k < |TYPE_NAMES| { TagFromCase(s, t, k + 1); }
  }

  /** Upper and lower case name the same type. */
  lemma TypeNamesIgnoreCase(s: Bytes, t: Bytes)
    requires SameName(s, t)
    ensures TypeTag(s) == TypeTag(t)
  {
    TagFromCase(s, t, 0);
  }

  lemma {:induction false} TagFromIs(s: Bytes, k: nat, n: nat)
    requires k <= n < |TYPE_NAMES| && SameName(s, Ascii(TYPE_NAMES[n]))
    requires forall j | k <= j < n :: !SameName(s, Ascii(TYPE_NAMES[j]))
    ensures TagFrom(s, k) == Some(0x10 + n)
    decreases n - k
  {
    hide SameName;
    if k < n { TagFromIs(s, k + 1, n); }
  }

  lemma NamesDiffer(j: nat, n: nat)
    requires j < n < |TYPE_NAMES|
    ensures !SameName(Ascii(TYPE_NAMES[n]), Ascii(TYPE_NAMES[j]))
  {
    var a, b := Ascii(TYPE_NAMES[n]), Ascii(TYPE_NAMES[j]);
    if |a| == |b| { assert Lower(a[0]) != Lower(b[0]); }
  }

  /** Each type's name, in any case, denotes its tag. */
  lemma TypeNameDenotesTag(n: nat, s: Bytes)
    requires n < |TYPE_NAMES| && SameName(s, Ascii(TYPE_NAMES[n]))
    ensures TypeTag(s) == Some(0x10 + n) && KnownTag(0x10 + n)
  {
    hide TagFrom, SameName;
    var name := Ascii(TYPE_NAMES[n]);
    forall j | 0 <= j < n ensures !SameName(name, Ascii(TYPE_NAMES[j])) { NamesDiffer(j, n); }
    assert SameName(name, name) by { SameNameRefl(name); }
    TagFromIs(name, 0, n);
    TypeNamesIgnoreCase(s, name);
  }

  lemma SameNameRefl(s: Bytes)
    ensures SameName(s, s)
  {
  }

  lemma {:induction false} TagFromFound(s: Bytes, k: nat)
    ensures match TagFrom(s, k)
            case Some(tag) => 0x10 + k <= tag < 0x10 + |TYPE_NAMES| && SameName(s, Ascii(TYPE_NAMES[tag - 0x10]))
            case None => forall j | k <= j < |TYPE_NAMES| :: !SameName(s, Ascii(TYPE_NAMES[j]))
    decreases |TYPE_NAMES| - k
  {
    hide SameName;
    if k < |TYPE_NAMES| && !SameName(s, Ascii(TYPE_NAMES[k])) { TagFromFound(s, k + 1); }
  }

  /** The eleven type names and their tags. */
  ghost predicate Denotes(s: Bytes, tag: byte) {
    || (tag == 0x10 && SameName(s, Ascii("heartbeat")))
    || (tag == 0x11 && SameName(s, Ascii("sensor")))
    || (tag == 0x12 && SameName(s, Ascii("event")))
    || (tag == 0x13 && SameName(s, Ascii("diag")))
    || (tag == 0x14 && SameName(s, Ascii("geo")))
    || (tag == 0x15 && SameName(s, Ascii("battery")))
    || (tag == 0x16 && SameName(s, Ascii("net")))
    || (tag == 0x17 && SameName(s, Ascii("log")))
    || (tag == 0x18 && SameName(s, Ascii("config")))
    || (tag == 0x19 && SameName(s, Ascii("keyref")))
    || (tag == 0x1A && SameName(s, Ascii("firmware")))
  }

  lemma LongestName()
    ensures SameName(Ascii(TYPE_NAMES[0]), Ascii("heartbeat"))
  {
  }

  lemma NamesFrom1()
    ensures SameName(Ascii(TYPE_NAMES[1]), Ascii("sensor"))
    ensures SameName(Ascii(TYPE_NAMES[2]), Ascii("event"))
    ensures SameName(Ascii(TYPE_NAMES[3]), Ascii("diag"))
  {
  }

  lemma NamesFrom4()
    ensures SameName(Ascii(TYPE_NAMES[4]), Ascii("geo"))
    ensures SameName(Ascii(TYPE_NAMES[5]), Ascii("battery"))
    ensures SameName(Ascii(TYPE_NAMES[6]), Ascii("net"))
  {
  }

  lemma NamesFrom7()
    ensures SameName(Ascii(TYPE_NAMES[7]), Ascii("log"))
    ensures SameName(Ascii(TYPE_NAMES[8]), Ascii("config"))
    ensures SameName(Ascii(TYPE_NAMES[9]), Ascii("keyref"))
  {
  }

  lemma LastName()
    ensures SameName(Ascii(TYPE_NAMES[10]), Ascii("firmware"))
  {
  }

  lemma UpperNames()
    ensures SameName(Ascii(TYPE_NAMES[0]), Ascii("heartbeat")) && SameName(Ascii(TYPE_NAMES[1]), Ascii("sensor"))
    ensures SameName(Ascii(TYPE_NAMES[2]), Ascii("event")) && SameName(Ascii(TYPE_NAMES[3]), Ascii("diag"))
    ensures SameName(Ascii(TYPE_NAMES[4]), Ascii("geo")) && SameName(Ascii(TYPE_NAMES[5]), Ascii("battery"))
    ensures SameName(Ascii(TYPE_NAMES[6]), Ascii("net")) && SameName(Ascii(TYPE_NAMES[7]), Ascii("log"))
    ensures SameName(Ascii(TYPE_NAMES[8]), Ascii("config")) && SameName(Ascii(TYPE_NAMES[9]), Ascii("keyref"))
    ensures SameName(Ascii(TYPE_NAMES[10]), Ascii("firmware"))
  {
    hide SameName, Ascii;
    LongestName();
    NamesFrom1();
    NamesFrom4();
    NamesFrom7();
    LastName();
  }

  lemma SameNameTrans(a: Bytes, b: Bytes, c: Bytes)
    requires SameName(a, b)
    ensures SameName(b, a) && (SameName(a, c) <==> SameName(b, c))
  {
  }

  lemma NameOfIndex(s: Bytes, n: nat, name: Bytes)
    requires n < |TYPE_NAMES| && SameName(Ascii(TYPE_NAMES[n]), name)
    ensures SameName(s, name) <==> SameName(s, Ascii(TYPE_NAMES[n]))
    ensures SameName(s, name) ==> TypeTag(s) == Some(0x10 + n)
  {
    hide SameName, TagFrom, TypeTag;
    var upper := Ascii(TYPE_NAMES[n]);
    SameNameTrans(upper, name, s);
    if SameName(s, name) {
      SameNameTrans(s, name, upper);
      TypeNameDenotesTag(n, s);
    } else if SameName(s, upper) {
      SameNameTrans(s, upper, name);
    }
  }

  /** A name denotes a type exactly when it is one of the eleven, in any case. */
  lemma TypeTagIff(s: Bytes, tag: byte)
    ensures TypeTag(s) == Some(tag) <==> Denotes(s, tag)
  {
    hide SameName, TagFrom, Ascii;
    UpperNames();
    TagFromFound(s, 0);
    NameOfIndex(s, 0, Ascii("heartbeat"));
    NameOfIndex(s, 1, Ascii("sensor"));
    NameOfIndex(s, 2, Ascii("event"));
    NameOfIndex(s, 3, Ascii("diag"));
    NameOfIndex(s, 4, Ascii("geo"));
    NameOfIndex(s, 5, Ascii("battery"));
    NameOfIndex(s, 6, Ascii("net"));
    NameOfIndex(s, 7, Ascii("log"));
    NameOfIndex(s, 8, Ascii("config"));
    NameOfIndex(s, 9, Ascii("keyref"));
    NameOfIndex(s, 10, Ascii("firmware"));
  }

  /** `dtl_name_ieq` */
  method NameIeq(s: Bytes, lit: Bytes) returns (r: bool)
    ensures r == SameName(s, lit)
  {
    if |lit| != |s| {
      return false;
    }
    for i := 0 to |s|
      invariant forall k | 0 <= k < i :: Lower(s[k]) == Lower(lit[k])
    {
      if Lower(s[i]) != Lower(lit[i]) {
        return false;
      }
    }
    return true;
  }

  /** `dtl_typename_tag` */
  method TypenameTag(s: Bytes) returns (r: Option<byte>)
    ensures r == TypeTag(s)
  {
    for k := 0 to |TYPE_NAMES|
      invariant TypeTag(s) == TagFrom(s, k)
    {
      var hit := NameIeq(s, Ascii(TYPE_NAMES[k]));
      if hit {
        var tag: byte := 0x10 + k;
        return Some(tag);
      }
    }
    return None;
  }

  // ---- fields ----

  /** The value of the first pair with that key; keys and values are C strings. */
  function Lookup(pairs: seq<(Bytes, Bytes)>, name: Bytes): Value {
    if pairs == [] then Missing
    else if CStr(pairs[0].0) == name then StrV(CStr(pairs[0].1))
    else Lookup(pairs[1..], name)
  }

  function FieldValue(r: Record, n: Bytes): Value {
    match r
    case Heartbeat(uptime, seqNo) =>
      if n == Ascii("seq") then IntV(seqNo) else if n == Ascii("uptime") then IntV(uptime) else Missing
    case Geo(lat, lon, alt) =>
      if n == Ascii("lat") then IntV(lat) else if n == Ascii("lon") then IntV(lon)
      else if n == Ascii("alt") then IntV(alt) else Missing
    case Battery(pct, temp, cycles) =>
      if n == Ascii("pct") then IntV(pct) else if n == Ascii("temp") then IntV(temp)
      else if n == Ascii("cycles") then IntV(cycles) else Missing
    case Net(iface, rxB, txB, rxP, txP) =>
      if n == Ascii("iface") then IntV(iface) else if n == Ascii("rx_bytes") then IntV(rxB)
      else if n == Ascii("tx_bytes") then IntV(txB) else if n == Ascii("rx_pkts") then IntV(rxP)
      else if n == Ascii("tx_pkts") then IntV(txP) else Missing
    case Firmware(major, minor, patch, _) =>
      if n == Ascii("major") then IntV(major) else if n == Ascii("minor") then IntV(minor)
      else if n == Ascii("patch") then IntV(patch) else Missing
    case Sensor(id, samples) =>
      if n == Ascii("id") then IntV(id) else if n == Ascii("count") then IntV(|samples|) else Missing
    case Event(code, payload) =>
      if n == Ascii("code") then IntV(code) else if n == Ascii("len") then IntV(|payload|) else Missing
    case Log(severity, msg) =>
      if n == Ascii("severity") then IntV(severity) else if n == Ascii("len") then IntV(|msg|)
      else if n == Ascii("msg") then StrV(msg) else Missing
    case Config(pairs) => Lookup(pairs, n)
    case Keyref(slot, text, _) =>
      if n == Ascii("slot") then IntV(slot) else if n == Ascii("label") then StrV(text) else Missing
    case Diag(subsystem, blob, _) =>
      if n == Ascii("subsystem") then IntV(subsystem) else if n == Ascii("len") then IntV(|blob|) else Missing
    case Unknown(_) => Missing
  }

  /** A name, possibly qualified by the type of the record. */
  function Resolve(first: Bytes, second: Option<Bytes>, r: Record): Value {
    match second
    case None =>
      if first == Ascii("type") then IntV(TagOf(r))
      else if TypeTag(first).Some? then IntV(TypeTag(first).value)
      else FieldValue(r, first)
    case Some(f) => if TypeTag(first) == Some(TagOf(r)) then FieldValue(r, f) else Missing
  }

  lemma {:induction false} LookupIsText(pairs: seq<(Bytes, Bytes)>, name: Bytes)
    ensures !Lookup(pairs, name).IntV?
  {
    hide CStr;
    if pairs != [] { LookupIsText(pairs[1..], name); }
  }

  /** A bare field of a CONFIG record is the pair with that key exactly when the key is
      neither "type" nor, in any case, the name of a record type. Qualified by the type
      it always is. */
  lemma ConfigKeyIff(pairs: seq<(Bytes, Bytes)>, key: Bytes)
    ensures Resolve(key, None, Config(pairs)) == Lookup(pairs, key) <==> key != Ascii("type") && TypeTag(key).None?
    ensures Resolve(Ascii("CONFIG"), Some(key), Config(pairs)) == Lookup(pairs, key)
  {
    hide Ascii, TypeTag;
    LookupIsText(pairs, key);
    SameNameRefl(Ascii("CONFIG"));
    TypeNameDenotesTag(8, Ascii("CONFIG"));
  }

  /** A key that is there and cannot be read bare. */
  lemma ConfigKeyExample()
    ensures var r := Config([(Ascii("log"), [49])]);
            Resolve(Ascii("log"), None, r) == IntV(0x17) && Resolve(Ascii("CONFIG"), Some(Ascii("log")), r) == StrV([49])
  {
    hide TagFrom, TypeTag;
    var pairs := [(Ascii("log"), [49])];
    var log := Ascii("log");
    assert SameName(log, Ascii(TYPE_NAMES[7])) by { assert Ascii(TYPE_NAMES[7]) == [76, 79, 71] && log == [108, 111, 103]; }
    TypeNameDenotesTag(7, log);
    ConfigKeyIff(pairs, log);
    assert CStr(log) == log && CStr([49]) == [49];
    assert Lookup(pairs, log) == StrV([49]);
    assert |Ascii("type")| != |log|;
  }

  /** The search loop over the pairs of a CONFIG record. */
  method FindPair(pairs: seq<(Bytes, Bytes)>, name: Bytes) returns (v: Value)
    ensures v == Lookup(pairs, name)
  {
    for i := 0 to |pairs|
      invariant Lookup(pairs, name) == Lookup(pairs[i..], name)
    {
      assert pairs[i..][1..] == pairs[i + 1..];
      if CStr(pairs[i].0) == name {
        return StrV(CStr(pairs[i].1));
      }
    }
    return Missing;
  }

  // ---- comparison ----

  /** Sign of `memcmp` on two blocks of the same length. */
  function MemCmp(a: Bytes, b: Bytes): int
    requires |a| == |b|
  {
    if a == [] then 0 else if a[0] < b[0] then -1 else if a[0] > b[0] then 1 else MemCmp(a[1..], b[1..])
  }

  /** The common part first, then the lengths. */
  function StrOrder(a: Bytes, b: Bytes): int {
    var m := if |a| < |b| then |a| else |b|;
    var c := if m == 0 then 0 else MemCmp(a[..m], b[..m]);
    if c != 0 then c else if |a| < |b| then -1 else if |a| > |b| then 1 else 0
  }

  function BySign(c: int, op: CmpOp): bool {
    match op
    case OpEq => c == 0
    case OpNe => c != 0
    case OpLt => c < 0
    case OpLe => c <= 0
    case OpGt => c > 0
    case OpGe => c >= 0
  }

  function IntCmp(a: int, b: int, op: CmpOp): bool {
    match op
    case OpEq => a == b
    case OpNe => a != b
    case OpLt => a < b
    case OpLe => a <= b
    case OpGt => a > b
    case OpGe => a >= b
  }

  /** Nothing never matches; an integer and a string are only ever unequal. */
  function Compare(l: Value, r: Value, op: CmpOp): bool {
    match (l, r)
    case (Missing, _) => false
    case (_, Missing) => false
    case (IntV(a), IntV(b)) => IntCmp(a, b, op)
    case (StrV(a), StrV(b)) => BySign(StrOrder(a, b), op)
    case _ => op == OpNe
  }

  function Truthy(v: Value): bool {
    match v
    case IntV(i) => i != 0
    case StrV(s) => s != []
    case Missing => false
  }

  function Truth(b: bool): Value { IntV(if b then 1 else 0) }

  function Evaluate(a: Ast, r: Record): Value {
    match a
    case IntLit(i) => IntV(i)
    case StrLit(s) => StrV(s)
    case Field(first, second) => Resolve(first, second, r)
    case Not(c) => Truth(!Truthy(Evaluate(c, r)))
    case And(l, rr) => if !Truthy(Evaluate(l, r)) then Truth(false) else Truth(Truthy(Evaluate(rr, r)))
    case Or(l, rr) => if Truthy(Evaluate(l, r)) then Truth(true) else Truth(Truthy(Evaluate(rr, r)))
    case Cmp(op, l, rr) => Truth(Compare(Evaluate(l, r), Evaluate(rr, r), op))
  }

  /** `dtl_query_match` */
  predicate Matches(a: Ast, r: Record) { Truthy(Evaluate(a, r)) }

  // ---- laws ----

  lemma MatchesParts(a: Ast, b: Ast, r: Record)
    ensures Matches(Not(a), r) == !Matches(a, r)
    ensures Matches(And(a, b), r) == (Matches(a, r) && Matches(b, r))
    ensures Matches(Or(a, b), r) == (Matches(a, r) || Matches(b, r))
  {
  }

  lemma BooleanLaws(a: Ast, b: Ast, r: Record)
    ensures Matches(Not(Not(a)), r) == Matches(a, r)
    ensures Matches(Not(And(a, b)), r) == Matches(Or(Not(a), Not(b)), r)
    ensures Matches(Not(Or(a, b)), r) == Matches(And(Not(a), Not(b)), r)
  {
    hide Matches;
    MatchesParts(a, b, r);
    MatchesParts(b, a, r);
    MatchesParts(Not(a), Not(b), r);
    MatchesParts(And(a, b), a, r);
    MatchesParts(Or(a, b), a, r);
  }

  /** Lexicographic order on bytes, a proper prefix first. */
  predicate Before(a: Bytes, b: Bytes) {
    b != [] && (a == [] || a[0] < b[0] || (a[0] == b[0] && Before(a[1..], b[1..])))
  }

  lemma StrOrderStep(a: Bytes, b: Bytes)
    requires a != [] && b != []
    ensures StrOrder(a, b) == if a[0] < b[0] then -1 else if a[0] > b[0] then 1 else StrOrder(a[1..], b[1..])
  {
    var m := if |a| < |b| then |a| else |b|;
    assert a[..m][1..] == a[1..][..m - 1] && b[..m][1..] == b[1..][..m - 1];
    assert MemCmp(a[..m], b[..m])
        == if a[0] < b[0] then -1 else if a[0] > b[0] then 1 else MemCmp(a[1..][..m - 1], b[1..][..m - 1]);
    if m == 1 { assert a[1..][..0] == [] && b[1..][..0] == []; }
  }

  /** The two-stage comparison is the lexicographic order. */
  lemma {:induction false} StrOrderIsLexicographic(a: Bytes, b: Bytes)
    ensures StrOrder(a, b) in {-1, 0, 1}
    ensures StrOrder(a, b) < 0 <==> Before(a, b)
    ensures StrOrder(a, b) == 0 <==> a == b
    ensures StrOrder(a, b) > 0 <==> Before(b, a)
  {
    if a != [] && b != [] {
      StrOrderStep(a, b);
      StrOrderIsLexicographic(a[1..], b[1..]);
      assert a == [a[0]] + a[1..] && b == [b[0]] + b[1..];
    }
  }

  lemma {:induction false} BeforeTransitive(a: Bytes, b: Bytes, c: Bytes)
    requires Before(a, b) && Before(b, c)
    ensures Before(a, c)
  {
    if a != [] && a[0] == b[0] && b[0] == c[0] { BeforeTransitive(a[1..], b[1..], c[1..]); }
  }

  /** So `<=` on strings is a total order: total, antisymmetric and transitive. */
  lemma StringsTotallyOrdered(a: Bytes, b: Bytes, c: Bytes)
    ensures BySign(StrOrder(a, b), OpLe) || BySign(StrOrder(b, a), OpLe)
    ensures BySign(StrOrder(a, b), OpLe) && BySign(StrOrder(b, a), OpLe) ==> a == b
    ensures BySign(StrOrder(a, b), OpLe) && BySign(StrOrder(b, c), OpLe) ==> BySign(StrOrder(a, c), OpLe)
    ensures StrOrder(a, b) == -StrOrder(b, a)
  {
    hide StrOrder, Before;
    StrOrderIsLexicographic(a, b);
    StrOrderIsLexicographic(b, a);
    StrOrderIsLexicographic(b, c);
    StrOrderIsLexicographic(a, c);
    if Before(a, b) && Before(b, c) { BeforeTransitive(a, b, c); }
  }

  /** A term on its own: a number that is not zero, or a string that is not empty. */
  lemma BareMeans(a: Ast, r: Record)
    requires a.IntLit? || a.StrLit? || a.Field?
    ensures Matches(a, r) <==>
              match Evaluate(a, r) { case IntV(i) => i < 0 || i > 0 case StrV(s) => |s| > 0 case Missing => false }
  {
    hide Evaluate;
  }

  /** `type == name` selects the records of the type that the name denotes; a qualified
      field is there only in records of its type. */
  lemma TypeMeans(name: Bytes, tag: byte, field: Bytes, r: Record)
    requires Denotes(name, tag)
    ensures Matches(Cmp(OpEq, Field(Ascii("type"), None), Field(name, None)), r) <==> TagOf(r) == tag
    ensures Evaluate(Field(name, Some(field)), r) == if TagOf(r) == tag then FieldValue(r, field) else Missing
  {
    hide TypeTag, FieldValue, Ascii, Matches, Denotes, TagOf;
    TypeTagIff(name, tag);
    NotType(name, tag);
    ComparisonMeans(OpEq, Field(Ascii("type"), None), Field(name, None), r);
  }

  lemma NotType(name: Bytes, tag: byte)
    requires Denotes(name, tag)
    ensures name != Ascii("type")
  {
    if |name| == 4 { assert Lower(name[0]) == 100 && Lower(Ascii("type")[0]) == 116; }
  }

  /** Exactly these comparisons of two values hold, written with the operators
      themselves: integers by size, strings by lexicographic order, and an integer
      against a string only as unequal. Nothing compares with a missing value. */
  ghost predicate Holds(l: Value, op: CmpOp, r: Value) {
    match (l, r)
    case (IntV(a), IntV(b)) =>
      (op == OpLt && a < b) || (op == OpLe && a <= b) || (op == OpGt && b < a) || (op == OpGe && b <= a)
      || (op == OpEq && a == b) || (op == OpNe && a != b)
    case (StrV(a), StrV(b)) =>
      (op == OpLt && Before(a, b)) || (op == OpLe && (Before(a, b) || a == b))
      || (op == OpGt && Before(b, a)) || (op == OpGe && (Before(b, a) || a == b))
      || (op == OpEq && a == b) || (op == OpNe && a != b)
    case (IntV(_), StrV(_)) => op == OpNe
    case (StrV(_), IntV(_)) => op == OpNe
    case _ => false
  }

  lemma StringsHold(a: Bytes, b: Bytes, op: CmpOp)
    ensures BySign(StrOrder(a, b), op) <==> Holds(StrV(a), op, StrV(b))
  {
    hide StrOrder, Before;
    StrOrderIsLexicographic(a, b);
  }

  lemma CompareMeans(l: Value, op: CmpOp, r: Value)
    ensures Compare(l, r, op) <==> Holds(l, op, r)
  {
    hide StrOrder, Before, BySign;
    if l.StrV? && r.StrV? { StringsHold(l.s, r.s, op); }
  }

  /** Which comparisons select a record, whatever their sides are. */
  lemma ComparisonMeans(op: CmpOp, a: Ast, b: Ast, r: Record)
    ensures Matches(Cmp(op, a, b), r) <==> Holds(Evaluate(a, r), op, Evaluate(b, r))
  {
    hide Compare, Holds;
    CompareMeans(Evaluate(a, r), op, Evaluate(b, r));
  }

  function Opposite(op: CmpOp): CmpOp {
    match op
    case OpEq => OpNe
    case OpNe => OpEq
    case OpLt => OpGe
    case OpGe => OpLt
    case OpGt => OpLe
    case OpLe => OpGt
  }

  /** Two values that the operator can tell apart in one direction or the other. */
  predicate Decidable(l: Value, r: Value, op: CmpOp) {
    l != Missing && r != Missing && (op == OpEq || op == OpNe || (l.IntV? <==> r.IntV?))
  }

  lemma CompareOpposite(l: Value, r: Value, op: CmpOp)
    ensures Compare(l, r, Opposite(op)) == !Compare(l, r, op) <==> Decidable(l, r, op)
  {
    hide StrOrder;
  }

  /** Negating a comparison agrees with the opposite operator exactly when both
      sides resolve, and for the ordering operators to values of the same kind. */
  lemma NegationAgrees(op: CmpOp, a: Ast, b: Ast, r: Record)
    ensures Matches(Not(Cmp(op, a, b)), r) == Matches(Cmp(Opposite(op), a, b), r)
       <==> Decidable(Evaluate(a, r), Evaluate(b, r), op)
  {
    hide Compare, Decidable;
    CompareOpposite(Evaluate(a, r), Evaluate(b, r), op);
    MatchesParts(Cmp(op, a, b), a, r);
  }

  /** In particular `!(a == b)` and `a != b` differ exactly on a missing side. */
  lemma NotEqualAgrees(a: Ast, b: Ast, r: Record)
    ensures Matches(Not(Cmp(OpEq, a, b)), r) == Matches(Cmp(OpNe, a, b), r)
       <==> Evaluate(a, r) != Missing && Evaluate(b, r) != Missing
  {
    NegationAgrees(OpEq, a, b, r);
  }
}

/** Selecting with a textual query (src/report/select.c, src/query/query.c). */
module QuerySelect {
  import opened Core
  import opened Records
  import opened Walk
  import opened Replay
  import opened Tools
  import opened Pipeline
  import opened Eval
  import opened QueryGrammar
  import opened QueryParser
  import QueryText

  function SelectQuery(data: Bytes, query: Bytes, mac: (Bytes, Bytes) -> Bytes): Result<Bytes> {
    var ast :- Compile(query);
    Select(data, r => Matches(ast, r), mac)
  }

  /** From query text to output container: the output carries, in order, exactly the
      records on which the query's tree evaluates to true. */
  lemma SelectQueryFaithful(data: Bytes, query: Bytes, mac: (Bytes, Bytes) -> Bytes)
    requires IsMac(mac) && SelectQuery(data, query, mac).Ok?
    ensures var es := Walk.Walk(data, 0).value.events;
            Carries(SelectQuery(data, query, mac).value,
                    Kept(es, Chosen(es, r => Matches(Compile(query).value, r))))
  {
    hide Carries, Rewrite, Walk.Walk, Compile, Matches, Replayable;
    var ast := Compile(query).value;
    SelectFaithful(data, r => Matches(ast, r), mac);
    var es := Walk.Walk(data, 0).value.events;
    assert Chosen(es, r => Matches(ast, r)) == Chosen(es, r => Matches(Compile(query).value, r));
  }

  /** The same from the characters of the query: it may be any spelling of a derivation,
      and what decides is that derivation's tree. */
  lemma SelectSpelt(data: Bytes, query: Bytes, o: Disj, mac: (Bytes, Bytes) -> Bytes)
    requires IsMac(mac) && QueryText.Spelt(query, o) && FitsO(o, 0) && SelectQuery(data, query, mac).Ok?
    ensures var es := Walk.Walk(data, 0).value.events;
            Carries(SelectQuery(data, query, mac).value, Kept(es, Chosen(es, r => Matches(TreeO(o), r))))
  {
    hide Carries, Rewrite, Walk.Walk, Compile, Matches, Replayable, TreeO, FitsO, QueryText.Spelt;
    QueryText.CompileTextIff(query, TreeO(o));
    SelectQueryFaithful(data, query, mac);
    var es := Walk.Walk(data, 0).value.events;
    assert Chosen(es, r => Matches(TreeO(o), r)) == Chosen(es, r => Matches(Compile(query).value, r));
  }

  method SelectQueryMemory(data: Bytes, query: Bytes, mac: (Bytes, Bytes) -> Bytes)
    returns (r: Result<Bytes>, ghost lapsed: bool)
    requires IsMac(mac)
    ensures lapsed ==> r.Error?
    ensures !lapsed ==> r == SelectQuery(data, query, mac)
  {
    hide Select, Compile, Matches;
    var ast := ParseQuery(query);
    if ast.Error? {
      return Error(ast.err), false;
    }
    r, lapsed := SelectMemory(data, x => Matches(ast.value, x), mac);
  }
}
