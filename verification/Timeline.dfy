/** Sessions of a record stream, opened by heartbeats, and the anomaly counters
    (src/report/timeline.c). */
module Timeline {
  import opened Core
  import opened Records
  import Vectors

  const HEARTBEAT: byte := 0x10
  const U64 := 0x1_0000_0000_0000_0000

  type u64 = x: int | 0 <= x < 0x1_0000_0000_0000_0000
  type Histogram = h: seq<u64> | |h| == 256 witness seq(256, _ => 0)

  datatype Session = Session(uptime: u32, seqNo: u32, count: nat, first: nat, perTag: Histogram)

  datatype Table = Table(sessions: seq<Session>, gaps: nat, orderings: nat, unattributed: nat)

  /** Zero selects the default. */
  datatype Options = Options(interval: u32, tolerance: u32)

  function Interval(o: Option<Options>): u32 { if o.Some? && o.value.interval != 0 then o.value.interval else 60 }

  function Tolerance(o: Option<Options>): u32 { if o.Some? && o.value.tolerance != 0 then o.value.tolerance else 2 }

  /** The largest step between heartbeats that is not a gap, in 64-bit arithmetic. */
  function Allowed(o: Option<Options>): nat { Tolerance(o) * Interval(o) }

  // ---- one record ----

  function Backwards(prev: u32, next: u32): nat { if next < prev then 1 else 0 }

  function Gap(prev: u32, next: u32, allowed: nat): nat { if next >= prev && next - prev > allowed then 1 else 0 }

  /** `junk` is what the new session's memory held: only one entry of the histogram
      is assigned. */
  function Opened(t: Table, r: Record, index: nat, allowed: nat, junk: Histogram): Table
    requires r.Heartbeat?
  {
    var s := Session(r.uptime, r.seqNo, 1, index, junk[HEARTBEAT := 1]);
    var n := |t.sessions|;
    var t' := t.(sessions := t.sessions + [s]);
    if n == 0 then t'
    else
      var prev := t.sessions[n - 1].uptime;
      t'.(orderings := t.orderings + Backwards(prev, r.uptime), gaps := t.gaps + Gap(prev, r.uptime, allowed))
  }

  function Bumped(s: Session, tag: byte): Session {
    s.(count := s.count + 1, perTag := s.perTag[tag := (s.perTag[tag] + 1) % U64])
  }

  function Step(t: Table, r: Record, index: nat, allowed: nat, junk: Histogram): Table {
    var n := |t.sessions|;
    if r.Heartbeat? then Opened(t, r, index, allowed, junk)
    else if n == 0 then t.(unattributed := t.unattributed + 1)
    else t.(sessions := t.sessions[n - 1 := Bumped(t.sessions[n - 1], TagOf(r))])
  }

  /** The whole stream; `junk(i)` is what the memory of session `i` held. */
  function Build(rs: seq<Record>, allowed: nat, junk: nat -> Histogram): Table {
    if rs == [] then Table([], 0, 0, 0)
    else
      var n := |rs| - 1;
      var t := Build(rs[..n], allowed, junk);
      Step(t, rs[n], n, allowed, junk(|t.sessions|))
  }

  // ---- what print recomputes ----

  function GapsOf(ss: seq<Session>, allowed: nat): nat {
    if |ss| < 2 then 0
    else var n := |ss| - 1; GapsOf(ss[..n], allowed) + Gap(ss[n - 1].uptime, ss[n].uptime, allowed)
  }

  function OrderingsOf(ss: seq<Session>): nat {
    if |ss| < 2 then 0
    else var n := |ss| - 1; OrderingsOf(ss[..n]) + Backwards(ss[n - 1].uptime, ss[n].uptime)
  }

  lemma {:induction false} SameUptimes(a: seq<Session>, b: seq<Session>, allowed: nat)
    requires |a| == |b| && forall i | 0 <= i < |a| :: a[i].uptime == b[i].uptime
    ensures GapsOf(a, allowed) == GapsOf(b, allowed) && OrderingsOf(a) == OrderingsOf(b)
  {
    if |a| >= 2 { SameUptimes(a[..|a| - 1], b[..|a| - 1], allowed); }
  }

  /** The incremental counters equal what is recomputed from the finished table. */
  lemma {:induction false} CountersAgree(rs: seq<Record>, allowed: nat, junk: nat -> Histogram)
    ensures var t := Build(rs, allowed, junk); t.gaps == GapsOf(t.sessions, allowed) && t.orderings == OrderingsOf(t.sessions)
  {
    if rs != [] {
      var n := |rs| - 1;
      CountersAgree(rs[..n], allowed, junk);
      var t, t' := Build(rs[..n], allowed, junk), Build(rs, allowed, junk);
      if rs[n].Heartbeat? {
        assert t'.sessions[..|t.sessions|] == t.sessions;
      } else if t.sessions != [] {
        SameUptimes(t.sessions, t'.sessions, allowed);
      }
    }
  }

  // ---- the anomalies, on the record stream ----

  /** Records `j` and `k` are heartbeats with none between them. */
  ghost predicate Consecutive(rs: seq<Record>, j: nat, k: nat) {
    && j < k < |rs| && rs[j].Heartbeat? && rs[k].Heartbeat?
    && forall m | j < m < k :: !rs[m].Heartbeat?
  }

  /** The nominal period in seconds and its multiplier, each with its documented
      default for an option that is absent or zero. */
  ghost predicate Threshold(o: Option<Options>, interval: nat, tolerance: nat) {
    && interval == (match o case None => 60 case Some(v) => if v.interval == 0 then 60 else v.interval)
    && tolerance == (match o case None => 2 case Some(v) => if v.tolerance == 0 then 2 else v.tolerance)
  }

  /** Heartbeats, by position, whose uptime exceeds that of the heartbeat before by more
      than `most` seconds. */
  ghost function Late(rs: seq<Record>, most: nat): set<nat> {
    set j: nat, k: nat | j < k < |rs| && Consecutive(rs, j, k) && rs[k].uptime > rs[j].uptime + most :: k
  }

  /** Heartbeats whose uptime is below that of the heartbeat before. */
  ghost function Reset(rs: seq<Record>): set<nat> {
    set j: nat, k: nat | j < k < |rs| && Consecutive(rs, j, k) && rs[k].uptime < rs[j].uptime :: k
  }

  /** The last heartbeat is where the last session begins. */
  ghost predicate LastBeat(t: Table, rs: seq<Record>) {
    if t.sessions == [] then forall k | 0 <= k < |rs| :: !rs[k].Heartbeat?
    else
      var s := t.sessions[|t.sessions| - 1];
      && s.first < |rs| && rs[s.first].Heartbeat? && rs[s.first].uptime == s.uptime
      && forall k | s.first < k < |rs| :: !rs[k].Heartbeat?
  }

  lemma {:induction false} BuildLastBeat(rs: seq<Record>, allowed: nat, junk: nat -> Histogram)
    ensures LastBeat(Build(rs, allowed, junk), rs)
  {
    if rs != [] {
      var n := |rs| - 1;
      BuildLastBeat(rs[..n], allowed, junk);
      assert forall k | 0 <= k < n :: rs[..n][k] == rs[k];
    }
  }

  lemma StillConsecutive(rs: seq<Record>, n: nat, j: nat, k: nat)
    requires k < n <= |rs|
    ensures Consecutive(rs[..n], j, k) <==> Consecutive(rs, j, k)
  {
    assert forall m | 0 <= m < n :: rs[..n][m] == rs[m];
  }

  /** A record that is no heartbeat adds no anomaly. */
  lemma NothingLate(rs: seq<Record>, n: nat, most: nat)
    requires |rs| == n + 1 && !rs[n].Heartbeat?
    ensures Late(rs, most) == Late(rs[..n], most) && Reset(rs) == Reset(rs[..n])
  {
    forall j: nat, k: nat | j < k < n ensures Consecutive(rs[..n], j, k) <==> Consecutive(rs, j, k) {
      StillConsecutive(rs, n, j, k);
    }
    assert forall j: nat :: !Consecutive(rs, j, n);
  }

  /** The first heartbeat adds none. */
  lemma FirstBeat(rs: seq<Record>, n: nat, most: nat)
    requires |rs| == n + 1 && forall k | 0 <= k < n :: !rs[k].Heartbeat?
    ensures Late(rs, most) == Late(rs[..n], most) == {} && Reset(rs) == Reset(rs[..n]) == {}
  {
    assert forall j: nat, k: nat :: !Consecutive(rs, j, k) && !Consecutive(rs[..n], j, k);
  }

  /** A heartbeat is compared with the last one before it. */
  lemma NextBeat(rs: seq<Record>, n: nat, p: nat, most: nat)
    requires |rs| == n + 1 && rs[n].Heartbeat? && p < n && rs[p].Heartbeat?
    requires forall k | p < k < n :: !rs[k].Heartbeat?
    ensures Late(rs, most) == Late(rs[..n], most) + (if rs[n].uptime > rs[p].uptime + most then {n} else {})
    ensures Reset(rs) == Reset(rs[..n]) + (if rs[n].uptime < rs[p].uptime then {n} else {})
    ensures n !in Late(rs[..n], most) && n !in Reset(rs[..n])
  {
    forall j: nat, k: nat | j < k < n ensures Consecutive(rs[..n], j, k) <==> Consecutive(rs, j, k) {
      StillConsecutive(rs, n, j, k);
    }
    assert Consecutive(rs, p, n);
    assert forall j: nat | Consecutive(rs, j, n) :: j == p;
  }

  lemma {:induction false} AnomaliesCount(rs: seq<Record>, allowed: nat, junk: nat -> Histogram)
    ensures var t := Build(rs, allowed, junk); t.gaps == |Late(rs, allowed)| && t.orderings == |Reset(rs)|
  {
    hide Late, Reset, LastBeat;
    if rs == [] {
      NoRecords(allowed);
    } else {
      var n := |rs| - 1;
      var t := Build(rs[..n], allowed, junk);
      AnomaliesCount(rs[..n], allowed, junk);
      BuildLastBeat(rs[..n], allowed, junk);
      LastBeatMeans(t, rs, n);
      if !rs[n].Heartbeat? {
        NothingLate(rs, n, allowed);
      } else if t.sessions == [] {
        FirstBeat(rs, n, allowed);
      } else {
        NextBeat(rs, n, t.sessions[|t.sessions| - 1].first, allowed);
      }
    }
  }

  lemma NoRecords(allowed: nat)
    ensures Late([], allowed) == {} && Reset([]) == {}
  {
  }

  lemma LastBeatMeans(t: Table, rs: seq<Record>, n: nat)
    requires n <= |rs| && LastBeat(t, rs[..n])
    ensures if t.sessions == [] then forall k | 0 <= k < n :: !rs[k].Heartbeat?
            else var s := t.sessions[|t.sessions| - 1];
                 && s.first < n && rs[s.first].Heartbeat? && rs[s.first].uptime == s.uptime
                 && forall k | s.first < k < n :: !rs[k].Heartbeat?
  {
    assert forall k | 0 <= k < n :: rs[..n][k] == rs[k];
  }

  /** The counters on every record stream and under every option: a gap for each
      heartbeat whose uptime rises by more than tolerance times interval over the
      heartbeat before, an ordering violation for each whose uptime falls. */
  lemma AnomaliesMean(rs: seq<Record>, opts: Option<Options>, interval: nat, tolerance: nat, junk: nat -> Histogram)
    requires Threshold(opts, interval, tolerance)
    ensures var t := Build(rs, Allowed(opts), junk);
            && t.gaps == |Late(rs, tolerance * interval)| && t.orderings == |Reset(rs)|
            && GapsOf(t.sessions, Allowed(opts)) == t.gaps && OrderingsOf(t.sessions) == t.orderings
  {
    hide Late, Reset, Build;
    AnomaliesCount(rs, Allowed(opts), junk);
    CountersAgree(rs, Allowed(opts), junk);
  }

  /** A record between two heartbeats; `step` seconds pass. */
  ghost function TwoBeats(step: u32): seq<Record> { [Heartbeat(0, 0), Log(0, []), Heartbeat(step, 1)] }

  lemma TwoBeatsLate(step: u32, most: nat)
    ensures Late(TwoBeats(step), most) == if step > most then {2} else {}
  {
    hide Late, Reset, Consecutive;
    var rs := TwoBeats(step);
    NextBeat(rs, 2, 0, most);
    OneBeatOnly(rs[..2], most);
  }

  lemma TwoBeatsCount(step: u32, junk: nat -> Histogram)
    ensures Build(TwoBeats(step), Allowed(None), junk).gaps == if step > 120 then 1 else 0
  {
    hide Late, Reset, Build, Allowed, GapsOf, OrderingsOf, TwoBeats;
    AnomaliesMean(TwoBeats(step), None, 60, 2, junk);
    TwoBeatsLate(step, 120);
  }

  /** With default options 120 seconds are no gap, and 121 are one. */
  lemma GapExample(junk: nat -> Histogram)
    ensures Build(TwoBeats(120), Allowed(None), junk).gaps == 0
    ensures Build(TwoBeats(121), Allowed(None), junk).gaps == 1
  {
    hide Build, Allowed;
    TwoBeatsCount(120, junk);
    TwoBeatsCount(121, junk);
  }

  lemma OrderingExample(junk: nat -> Histogram)
    ensures Build([Heartbeat(1, 0), Heartbeat(0, 1)], Allowed(None), junk).orderings == 1
  {
    hide Late, Reset, Build, Allowed, GapsOf, OrderingsOf;
    var rs := [Heartbeat(1, 0), Heartbeat(0, 1)];
    AnomaliesMean(rs, None, 60, 2, junk);
    NextBeat(rs, 1, 0, 120);
    OneBeatOnly(rs[..1], 120);
  }

  lemma OneBeatOnly(rs: seq<Record>, most: nat)
    requires forall k | 0 < k < |rs| :: !rs[k].Heartbeat?
    ensures Late(rs, most) == {} && Reset(rs) == {}
  {
    assert forall j: nat, k: nat :: !Consecutive(rs, j, k);
  }

  // ---- sessions as intervals ----

  function CountTag(rs: seq<Record>, tag: byte): nat {
    if rs == [] then 0
    else CountTag(rs[..|rs| - 1], tag) + if TagOf(rs[|rs| - 1]) == tag then 1 else 0
  }

  /** Where session `i` ends: where the next one begins, or at the end. */
  function EndOf(ss: seq<Session>, i: nat, n: nat): nat { if i + 1 < |ss| then ss[i + 1].first else n }

  /** The session is the interval of its opener and the records up to `end`. */
  ghost predicate Spans(s: Session, end: nat, rs: seq<Record>) {
    && s.first < end <= |rs| && s.count == end - s.first
    && rs[s.first] == Heartbeat(s.uptime, s.seqNo)
    && forall k | s.first < k < end :: !rs[k].Heartbeat?
  }

  /** Its histogram is the true one on top of what the memory held. */
  ghost predicate Counts(s: Session, end: nat, rs: seq<Record>, junk: Histogram) {
    && s.first < end <= |rs| && s.perTag[HEARTBEAT] == 1
    && forall t: byte | t != HEARTBEAT :: s.perTag[t] == (junk[t] + CountTag(rs[s.first..end], t)) % U64
  }

  /** Sessions are consecutive intervals that, after the unattributed prefix, cover
      every record once. */
  ghost predicate Covers(t: Table, rs: seq<Record>, junk: nat -> Histogram) {
    var ss := t.sessions;
    && t.unattributed == (if ss == [] then |rs| else ss[0].first) <= |rs|
    && (forall k | 0 <= k < t.unattributed :: !rs[k].Heartbeat?)
    && forall i | 0 <= i < |ss| ::
         Spans(ss[i], EndOf(ss, i, |rs|), rs) && Counts(ss[i], EndOf(ss, i, |rs|), rs, junk(i))
  }

  lemma StillRight(s: Session, end: nat, rs: seq<Record>, r: Record, junk: Histogram)
    requires Spans(s, end, rs) && Counts(s, end, rs, junk)
    ensures Spans(s, end, rs + [r]) && Counts(s, end, rs + [r], junk)
  {
    assert (rs + [r])[s.first..end] == rs[s.first..end];
  }

  lemma OpensRight(r: Record, rs: seq<Record>, junk: Histogram)
    requires r.Heartbeat?
    ensures var s := Session(r.uptime, r.seqNo, 1, |rs|, junk[HEARTBEAT := 1]);
            Spans(s, |rs| + 1, rs + [r]) && Counts(s, |rs| + 1, rs + [r], junk)
  {
    var one := (rs + [r])[|rs|..|rs| + 1];
    assert one == [r] && one[..0] == [];
    assert forall t: byte | t != HEARTBEAT :: CountTag([], t) == 0 && CountTag(one, t) == 0;
  }

  lemma BumpsRight(s: Session, rs: seq<Record>, r: Record, junk: Histogram)
    requires !r.Heartbeat? && Representable(r) && Spans(s, |rs|, rs) && Counts(s, |rs|, rs, junk)
    ensures Spans(Bumped(s, TagOf(r)), |rs| + 1, rs + [r]) && Counts(Bumped(s, TagOf(r)), |rs| + 1, rs + [r], junk)
  {
    var span := (rs + [r])[s.first..|rs| + 1];
    assert span[..|span| - 1] == rs[s.first..|rs|] && span[|span| - 1] == r;
    assert TagOf(r) != HEARTBEAT;
    forall t: byte | t != HEARTBEAT
      ensures Bumped(s, TagOf(r)).perTag[t] == (junk[t] + CountTag(span, t)) % U64
    {
      Wraps(junk[t] + CountTag(rs[s.first..|rs|], t));
    }
  }

  lemma Wraps(x: nat)
    ensures (x % U64 + 1) % U64 == (x + 1) % U64
  {
  }

  lemma OpenedCovers(t: Table, rs: seq<Record>, r: Record, allowed: nat, junk: nat -> Histogram)
    requires r.Heartbeat? && Covers(t, rs, junk)
    ensures Covers(Step(t, r, |rs|, allowed, junk(|t.sessions|)), rs + [r], junk)
  {
    hide Spans, Counts, CountTag;
    var n := |t.sessions|;
    var t' := Step(t, r, |rs|, allowed, junk(n));
    OpensRight(r, rs, junk(n));
    forall i | 0 <= i < n
      ensures Spans(t'.sessions[i], EndOf(t'.sessions, i, |rs| + 1), rs + [r])
      ensures Counts(t'.sessions[i], EndOf(t'.sessions, i, |rs| + 1), rs + [r], junk(i))
    {
      assert EndOf(t'.sessions, i, |rs| + 1) == EndOf(t.sessions, i, |rs|);
      StillRight(t.sessions[i], EndOf(t.sessions, i, |rs|), rs, r, junk(i));
    }
  }

  lemma BumpedCovers(t: Table, rs: seq<Record>, r: Record, allowed: nat, junk: nat -> Histogram)
    requires !r.Heartbeat? && Representable(r) && Covers(t, rs, junk)
    ensures Covers(Step(t, r, |rs|, allowed, junk(|t.sessions|)), rs + [r], junk)
  {
    hide Spans, Counts, CountTag, TagOf, Representable;
    var n := |t.sessions|;
    var t' := Step(t, r, |rs|, allowed, junk(n));
    if n > 0 {
      BumpsRight(t.sessions[n - 1], rs, r, junk(n - 1));
      forall i | 0 <= i < n - 1
        ensures Spans(t'.sessions[i], EndOf(t'.sessions, i, |rs| + 1), rs + [r])
        ensures Counts(t'.sessions[i], EndOf(t'.sessions, i, |rs| + 1), rs + [r], junk(i))
      {
        assert EndOf(t'.sessions, i, |rs| + 1) == EndOf(t.sessions, i, |rs|);
        StillRight(t.sessions[i], EndOf(t.sessions, i, |rs|), rs, r, junk(i));
      }
    }
  }

  /** Over every record stream. */
  lemma {:induction false} BuildCovers(rs: seq<Record>, allowed: nat, junk: nat -> Histogram)
    requires forall r | r in rs :: Representable(r)
    ensures Covers(Build(rs, allowed, junk), rs, junk)
  {
    hide Covers, Step, Representable;
    if rs == [] {
      NothingCovers(junk);
    } else {
      var n := |rs| - 1;
      BuildCovers(rs[..n], allowed, junk);
      assert rs == rs[..n] + [rs[n]];
      var t := Build(rs[..n], allowed, junk);
      if rs[n].Heartbeat? {
        OpenedCovers(t, rs[..n], rs[n], allowed, junk);
      } else {
        BumpedCovers(t, rs[..n], rs[n], allowed, junk);
      }
    }
  }

  lemma NothingCovers(junk: nat -> Histogram)
    ensures Covers(Table([], 0, 0, 0), [], junk)
  {
  }

  /** Attributed and unattributed records add up to the stream. */
  function TotalCount(ss: seq<Session>): nat {
    if ss == [] then 0 else TotalCount(ss[..|ss| - 1]) + ss[|ss| - 1].count
  }

  lemma {:induction false} IntervalsAddUp(ss: seq<Session>, n: nat)
    requires ss != []
    requires forall i | 0 <= i < |ss| :: ss[i].first <= EndOf(ss, i, n) && ss[i].count == EndOf(ss, i, n) - ss[i].first
    ensures ss[0].first + TotalCount(ss) == n
  {
    var m := |ss| - 1;
    if m > 0 {
      var init := ss[..m];
      forall i | 0 <= i < m ensures EndOf(init, i, ss[m].first) == EndOf(ss, i, n) {}
      IntervalsAddUp(init, ss[m].first);
    } else {
      assert ss[..0] == [];
    }
  }

  lemma EveryRecordCounted(rs: seq<Record>, allowed: nat, junk: nat -> Histogram)
    requires forall r | r in rs :: Representable(r)
    ensures var t := Build(rs, allowed, junk); t.unattributed + TotalCount(t.sessions) == |rs|
  {
    hide Counts, Build, Representable;
    BuildCovers(rs, allowed, junk);
    var t := Build(rs, allowed, junk);
    if t.sessions != [] { IntervalsAddUp(t.sessions, |rs|); }
  }

  // ---- the documented histogram ----

  /** What the report promises: how many records of each type the session logged. */
  ghost predicate TrueHistogram(s: Session, end: nat, rs: seq<Record>)
    requires s.first <= end <= |rs|
  {
    forall t: byte :: s.perTag[t] == CountTag(rs[s.first..end], t)
  }

  lemma {:induction false} CountBound(rs: seq<Record>, tag: byte)
    ensures CountTag(rs, tag) <= |rs|
  {
    if rs != [] { CountBound(rs[..|rs| - 1], tag); }
  }

  lemma {:induction false} OneBeat(rs: seq<Record>)
    requires rs != [] && rs[0].Heartbeat? && forall k | 0 < k < |rs| :: !rs[k].Heartbeat? && Representable(rs[k])
    ensures CountTag(rs, HEARTBEAT) == 1
  {
    var n := |rs| - 1;
    if n > 0 {
      OneBeat(rs[..n]);
    } else {
      assert rs[..0] == [] && CountTag([], HEARTBEAT) == 0;
    }
  }

  lemma SessionBeat(s: Session, end: nat, rs: seq<Record>)
    requires Spans(s, end, rs) && forall r | r in rs :: Representable(r)
    ensures CountTag(rs[s.first..end], HEARTBEAT) == 1
  {
    hide CountTag, Representable;
    var span := rs[s.first..end];
    forall k | 0 < k < |span| ensures !span[k].Heartbeat? && Representable(span[k]) {
      assert span[k] == rs[s.first + k] && rs[s.first + k] in rs;
    }
    OneBeat(span);
  }

  lemma SessionHistogramIff(s: Session, end: nat, rs: seq<Record>, junk: Histogram)
    requires |rs| < U64 && Spans(s, end, rs) && Counts(s, end, rs, junk)
    requires CountTag(rs[s.first..end], HEARTBEAT) == 1
    ensures TrueHistogram(s, end, rs) <==> forall t: byte | t != HEARTBEAT :: junk[t] == 0
  {
    hide CountTag;
    var span := rs[s.first..end];
    forall t: byte | t != HEARTBEAT ensures s.perTag[t] == CountTag(span, t) <==> junk[t] == 0 {
      CountBound(span, t);
      Offset(junk[t], CountTag(span, t));
    }
  }

  /** A session's histogram is the documented one exactly when the memory it was
      given held zeros everywhere but in the heartbeat entry. */
  lemma HistogramIff(rs: seq<Record>, allowed: nat, junk: nat -> Histogram, i: nat)
    requires |rs| < U64 && forall r | r in rs :: Representable(r)
    requires i < |Build(rs, allowed, junk).sessions|
    ensures var ss := Build(rs, allowed, junk).sessions;
            && ss[i].first <= EndOf(ss, i, |rs|) <= |rs|
            && (TrueHistogram(ss[i], EndOf(ss, i, |rs|), rs) <==> forall t: byte | t != HEARTBEAT :: junk(i)[t] == 0)
  {
    hide Build, CountTag, Representable, TrueHistogram;
    BuildCovers(rs, allowed, junk);
    var ss := Build(rs, allowed, junk).sessions;
    SessionBeat(ss[i], EndOf(ss, i, |rs|), rs);
    SessionHistogramIff(ss[i], EndOf(ss, i, |rs|), rs, junk(i));
  }

  /** Memory that held a count of seven for the LOG type. */
  function Dirty(i: nat): Histogram { seq(256, _ => 0)[0x17 := 7] }

  /** One heartbeat and one LOG record in such memory: the session counts two records,
      and eight of type LOG. */
  lemma HistogramExample(allowed: nat)
    ensures var rs := [Heartbeat(0, 0), Log(0, [])];
            var ss := Build(rs, allowed, Dirty).sessions;
            && |ss| == 1 && ss[0].first == 0 && ss[0].count == 2 && ss[0].perTag[0x17] == 8
            && CountTag(rs, 0x17) == 1 && !TrueHistogram(ss[0], 2, rs)
  {
    var beat, log := Heartbeat(0, 0), Log(0, []);
    var rs := [beat, log];
    assert rs[..1] == [beat] && [beat][..0] == [];
    var t1 := Build([beat], allowed, Dirty);
    assert Build([], allowed, Dirty) == Table([], 0, 0, 0);
    assert t1 == Step(Table([], 0, 0, 0), beat, 0, allowed, Dirty(0));
    assert t1.sessions == [Session(0, 0, 1, 0, Dirty(0)[HEARTBEAT := 1])];
    assert rs[1] == log && Build(rs, allowed, Dirty) == Step(t1, log, 1, allowed, Dirty(|t1.sessions|));
    assert CountTag([], 0x17) == 0 && CountTag([beat], 0x17) == 0 && CountTag(rs, 0x17) == 1;
    assert rs[0..2] == rs;
  }

  lemma Offset(junk: u64, c: nat)
    requires c < U64
    ensures (junk + c) % U64 == c <==> junk == 0
  {
  }

  // ---- the builder ----

  class Builder {
    const sessions: Vectors.Vector<Session>
    var gaps: nat
    var orderings: nat
    var unattributed: nat
    /** Index of the session being filled. */
    var cur: Option<nat>
    const allowed: nat

    ghost predicate Valid()
      reads this, sessions
    {
      sessions.Valid() && cur == (if sessions.count == 0 then None else Some(sessions.count - 1))
    }

    ghost function View(): Table
      reads this, sessions, sessions.items
      requires Valid()
    {
      Table(sessions.Contents(), gaps, orderings, unattributed)
    }

    constructor (opts: Option<Options>)
      ensures Valid() && View() == Table([], 0, 0, 0) && allowed == Allowed(opts)
      ensures fresh(sessions) && fresh(sessions.items)
    {
      sessions := new Vectors.Vector<Session>(16);
      gaps, orderings, unattributed, cur := 0, 0, 0, None;
      allowed := Tolerance(opts) * Interval(opts);
    }

    /** `dtl_timeline_open_session` */
    method OpenSession(r: Record, index: nat, junk: Histogram) returns (ok: bool)
      requires Valid() && r.Heartbeat?
      modifies this, sessions, sessions.items
      ensures ok ==> Valid() && View() == Opened(old(View()), r, index, allowed, junk)
      ensures sessions.items == old(sessions.items) || fresh(sessions.items)
    {
      ok := sessions.Push(Session(r.uptime, r.seqNo, 1, index, junk[HEARTBEAT := 1]));
      if !ok {
        return;
      }
      ghost var before := old(sessions.Contents());
      if cur.Some? {
        var prev := sessions.items[cur.value].uptime;
        assert sessions.Contents()[cur.value] == before[cur.value];
        if r.uptime < prev {
          orderings := orderings + 1;
        } else if r.uptime - prev > allowed {
          gaps := gaps + 1;
        }
      }
      cur := Some(sessions.count - 1);
    }

    /** `dtl_timeline_on_record` */
    method OnRecord(r: Record, index: nat, junk: Histogram) returns (ok: bool)
      requires Valid()
      modifies this, sessions, sessions.items
      ensures ok ==> Valid() && View() == Step(old(View()), r, index, allowed, junk)
      ensures sessions.items == old(sessions.items) || fresh(sessions.items)
    {
      if r.Heartbeat? {
        ok := OpenSession(r, index, junk);
        return;
      }
      if cur.None? {
        unattributed := unattributed + 1;
        return true;
      }
      ghost var before := sessions.Contents();
      var k := cur.value;
      sessions.items[k] := Bumped(sessions.items[k], TagOf(r));
      assert sessions.Contents() == before[k := Bumped(before[k], TagOf(r))];
      return true;
    }
  }

  /** The walk's records, one callback each. */
  method BuildTimeline(rs: seq<Record>, opts: Option<Options>, junk: nat -> Histogram) returns (t: Table, ok: bool)
    ensures ok ==> t == Build(rs, Allowed(opts), junk)
  {
    var b := new Builder(opts);
    for i := 0 to |rs|
      invariant b.Valid() && fresh(b) && fresh(b.sessions) && fresh(b.sessions.items)
      invariant b.View() == Build(rs[..i], b.allowed, junk)
    {
      assert rs[..i + 1][..i] == rs[..i];
      ok := b.OnRecord(rs[i], i, junk(b.sessions.count));
      if !ok {
        return Table([], 0, 0, 0), false;
      }
    }
    assert rs[..|rs|] == rs;
    return Table(b.sessions.items[..b.sessions.count], b.gaps, b.orderings, b.unattributed), true;
  }

  /** The anomalies that `dtl_timeline_print` reports from a table. */
  method Recount(ss: seq<Session>, opts: Option<Options>) returns (gaps: nat, orderings: nat)
    ensures gaps == GapsOf(ss, Allowed(opts)) && orderings == OrderingsOf(ss)
  {
    gaps, orderings := 0, 0;
    var allowed := Tolerance(opts) * Interval(opts);
    for i := 0 to |ss|
      invariant gaps == GapsOf(ss[..i], allowed) && orderings == OrderingsOf(ss[..i])
    {
      assert ss[..i + 1][..i] == ss[..i];
      if i != 0 {
        var prev := ss[i - 1].uptime;
        if ss[i].uptime < prev {
          orderings := orderings + 1;
        } else if ss[i].uptime - prev > allowed {
          gaps := gaps + 1;
        }
      }
    }
    assert ss[..|ss|] == ss;
  }
}
