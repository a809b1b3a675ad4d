/** Range queries over all partitions: skipping and stopping early loses nothing. */
module StorageSelect {
  import opened Words
  import opened GorillaFormat
  import opened Metric
  import opened Rows
  import opened Memory
  import opened Disk
  import opened StorageModel

  /** What a partition returns on its own. */
  function PartRead(p: Part, name: Name, start: int, end: int, now: int): Selection
    requires p.MemPart? ==> MetricIn(p.m.metrics, name).size == |MetricIn(p.m.metrics, name).points|
  {
    match p
    case MemPart(m, _) => Found(Selected(MetricIn(m.metrics, name), start, end))
    case DiskPart(d) => Read(d, name, start, end, now)
  }

  /** The loop of Select from the newest partition on, with the points of the newer ones. */
  ghost function SelectFrom(parts: seq<Part>, name: Name, start: int, end: int, now: int, newer: seq<Point>): Selection
    requires Readable(parts)
    decreases |parts|
  {
    if parts == [] then Found(newer)
    else
      var p := parts[0];
      if p.MinT() == 0 then SelectFrom(parts[1..], name, start, end, now, newer)
      else if p.MaxT() < start then Found(newer)
      else if p.MinT() > end then SelectFrom(parts[1..], name, start, end, now, newer)
      else
        var r := PartRead(p, name, start, end, now);
        if r.NoDataPoints? then SelectFrom(parts[1..], name, start, end, now, newer)
        else if r.Undecoded? then r
        else SelectFrom(parts[1..], name, start, end, now, r.points + newer)
  }

  /** Every partition's points, oldest partition first. */
  ghost function NaiveScan(parts: seq<Part>, name: Name, start: int, end: int, now: int): seq<Point>
    requires Readable(parts)
    decreases |parts|
  {
    if parts == [] then []
    else
      var r := PartRead(parts[0], name, start, end, now);
      NaiveScan(parts[1..], name, start, end, now) + if r.Found? then r.points else []
  }

  /** A data file whose index entries all decode to sorted points within the partition's
      range, one of them up to its end. */
  ghost predicate Faithful(d: DiskPartition) {
    && (forall n | n in d.meta.metrics :: FaithfulEntry(d, n))
    && exists n :: n in d.meta.metrics && ReachesMax(d, n)
  }

  ghost predicate ReachesMax(d: DiskPartition, n: Name)
    requires n in d.meta.metrics
  {
    var s := SeriesAt(d.data, d.meta.metrics[n].offset, d.meta.metrics[n].numPoints);
    s.Points? && exists i :: 0 <= i < |s.points| && s.points[i].ts == d.meta.maxTs
  }

  ghost predicate FaithfulEntry(d: DiskPartition, n: Name)
    requires n in d.meta.metrics
  {
    var s := SeriesAt(d.data, d.meta.metrics[n].offset, d.meta.metrics[n].numPoints);
    s.Points? && Sorted(s.points) && Within(s.points, d.meta.minTs, d.meta.maxTs)
  }

  ghost predicate Within(ps: seq<Point>, lo: int, hi: int) {
    forall i | 0 <= i < |ps| :: lo <= ps[i].ts <= hi
  }

  ghost predicate AllFaithful(parts: seq<Part>) {
    forall i | 0 <= i < |parts| :: parts[i].DiskPart? ==> Faithful(parts[i].d)
  }

  // ----- What a single partition returns -----

  /** Sorted points inside both the range asked for (end included) and the partition's range. */
  ghost predicate Honest(r: Selection, p: Part, start: int, end: int) {
    && !r.Undecoded?
    && (r.Found? ==> Sorted(r.points) && Within(r.points, start, end))
    && (r.Found? && !p.Blank() ==> Within(r.points, p.MinT(), p.MaxT()))
    && (p.Blank() ==> r.Found? && r.points == [])
  }

  lemma MemReadHonest(p: Part, name: Name, start: int, end: int, now: int)
    requires p.MemPart? && Sound(p.m) && start <= end
    ensures MetricIn(p.m.metrics, name).size == |MetricIn(p.m.metrics, name).points|
    ensures Honest(PartRead(p, name, start, end, now), p, start, end)
  {
    hide Content;
    var m := MetricIn(p.m.metrics, name);
    NoPointsConsistent();
    assert Consistent(m);
    SelectedHonest(m, start, end);
    forall i | 0 <= i < |m.points|
      ensures Row(name, m.points[i]) in Content(p.m.metrics)
    {
      HeldPoint(p.m.metrics, name, i);
    }
  }

  /** A metric's own read is sorted, in range, and made of its in-order points. */
  lemma SelectedHonest(m: MetricState, start: int, end: int)
    requires Consistent(m) && start <= end
    ensures var r := Selected(m, start, end);
            Sorted(r) && Within(r, start, end) && forall i | 0 <= i < |r| :: r[i] in m.points
  {
    hide InRange;
    AscendingIsSorted(m.points);
    InRangeMembers(m.points, start, end);
    InRangeSorted(m.points, start, end);
    var inside := InRange(m.points, start, end);
    forall i | 0 <= i < |inside|
      ensures inside[i] in m.points && start <= inside[i].ts < end
    {
      assert inside[i] in inside;
    }
  }

  lemma HeldPoint(ms: map<Name, MetricState>, name: Name, i: nat)
    requires name in ms && i < |ms[name].points|
    ensures Row(name, ms[name].points[i]) in Content(ms)
  {
    hide Content;
    ContentSplit(ms, name);
    assert Tagged(name, ms[name].points)[i] == Row(name, ms[name].points[i]);
  }

  lemma DiskReadHonest(p: Part, name: Name, start: int, end: int, now: int)
    requires p.DiskPart? && Faithful(p.d)
    ensures Honest(PartRead(p, name, start, end, now), p, start, end)
  {
    hide SeriesAt, InRange;
    if !p.d.Expired(now) && name in p.d.meta.metrics {
      assert FaithfulEntry(p.d, name);
      var entry := p.d.meta.metrics[name];
      var ps := SeriesAt(p.d.data, entry.offset, entry.numPoints).points;
      ScanIsInRange(ps, start, end);
      InRangeMembers(ps, start, end);
      InRangeSorted(ps, start, end);
      var inside := InRange(ps, start, end);
      forall i | 0 <= i < |inside|
        ensures inside[i] in ps && start <= inside[i].ts < end
      {
        assert inside[i] in inside;
      }
    }
  }

  lemma ReadHonest(p: Part, name: Name, start: int, end: int, now: int)
    requires start <= end
    requires if p.MemPart? then Sound(p.m) else Faithful(p.d)
    ensures p.MemPart? ==> MetricIn(p.m.metrics, name).size == |MetricIn(p.m.metrics, name).points|
    ensures Honest(PartRead(p, name, start, end, now), p, start, end)
  {
    if p.MemPart? {
      MemReadHonest(p, name, start, end, now);
    } else {
      DiskReadHonest(p, name, start, end, now);
    }
  }

  // ----- All partitions -----

  ghost predicate Servable(parts: seq<Part>) {
    AllSound(parts) && AllFaithful(parts) && ProperRanges(parts) && Ordered(parts)
  }

  lemma ServableTail(parts: seq<Part>)
    requires Servable(parts) && parts != []
    ensures Servable(parts[1..]) && Readable(parts) && Readable(parts[1..])
    ensures if parts[0].MemPart? then Sound(parts[0].m) else Faithful(parts[0].d)
    ensures parts[0].MinT() == 0 <==> parts[0].Blank()
    ensures !parts[0].Blank() ==> parts[0].MinT() <= parts[0].MaxT() && Before(parts[1..], parts[0].MinT())
  {
    SoundSized(parts);
    var tail := parts[1..];
    assert forall i | 0 <= i < |tail| :: tail[i] == parts[i + 1];
    assert AllSound(tail);
    SoundSized(tail);
  }

  /** Every partition with rows ends before t. */
  ghost predicate Before(parts: seq<Part>, t: int) {
    forall i | 0 <= i < |parts| && !parts[i].Blank() :: parts[i].MaxT() < t
  }

  lemma BeforeTail(parts: seq<Part>, t: int)
    requires Before(parts, t) && parts != []
    ensures Before(parts[1..], t) && (!parts[0].Blank() ==> parts[0].MaxT() < t)
  {
    assert forall i | 0 <= i < |parts[1..]| :: parts[1..][i] == parts[i + 1];
  }

  /** Partitions that end before t contribute only points before t. */
  lemma {:induction false} NaiveBefore(parts: seq<Part>, name: Name, start: int, end: int, now: int, t: int)
    requires Sensible(parts) && Before(parts, t) && start <= end
    ensures Readable(parts)
    ensures Within(NaiveScan(parts, name, start, end, now), start, t - 1)
    decreases |parts|
  {
    hide Sensible, EndsDescend, NoneFromZero, Before, Readable, Sound, Faithful, PartRead;
    if parts == [] {
      ReadableNone();
    } else {
      SensibleTail(parts);
      BeforeTail(parts, t);
      NaiveBefore(parts[1..], name, start, end, now, t);
      ReadHonest(parts[0], name, start, end, now);
    }
  }

  lemma ReadableNone()
    ensures Readable([])
  {
  }

  // ----- When skipping and stopping early is right -----

  /** No partition reaches beyond a newer one's end. */
  ghost predicate EndsDescend(parts: seq<Part>) {
    forall i, j | 0 <= i < j < |parts| && !parts[i].Blank() && !parts[j].Blank() :: parts[j].MaxT() <= parts[i].MaxT()
  }

  /** No partition with rows starts at zero, which Select takes for "no points". */
  ghost predicate NoneFromZero(parts: seq<Part>) {
    forall i | 0 <= i < |parts| && !parts[i].Blank() :: parts[i].MinT() != 0
  }

  ghost predicate Sensible(parts: seq<Part>) {
    && AllSound(parts) && AllFaithful(parts)
    && forall i | 0 <= i < |parts| && !parts[i].Blank() :: parts[i].MinT() <= parts[i].MaxT() && 0 < parts[i].MaxT()
  }

  lemma SensibleTail(parts: seq<Part>)
    requires Sensible(parts) && parts != []
    ensures Sensible(parts[1..]) && Readable(parts) && Readable(parts[1..])
    ensures if parts[0].MemPart? then Sound(parts[0].m) else Faithful(parts[0].d)
    ensures parts[0].Blank() ==> parts[0].MinT() == 0
    ensures !parts[0].Blank() ==> parts[0].MinT() <= parts[0].MaxT()
    ensures NoneFromZero(parts) ==> NoneFromZero(parts[1..]) && (parts[0].MinT() == 0 ==> parts[0].Blank())
    ensures EndsDescend(parts) ==> EndsDescend(parts[1..])
    ensures EndsDescend(parts) && !parts[0].Blank() ==> Before(parts[1..], parts[0].MaxT() + 1)
  {
    hide Content, AllConsistent, AllSized, FaithfulEntry, MaxHeld, ReachesMax;
    var tail := parts[1..];
    assert forall i | 0 <= i < |tail| :: tail[i] == parts[i + 1];
    assert AllSound(tail);
    SoundSized(parts);
    SoundSized(tail);
    assert parts[0].MemPart? ==> Sound(parts[0].m);
  }

  /** Then skipping and stopping early returns what a scan of every partition would. */
  lemma {:induction false} SelectIsNaive(parts: seq<Part>, name: Name, start: int, end: int, now: int, newer: seq<Point>)
    requires Sensible(parts) && EndsDescend(parts) && NoneFromZero(parts) && start <= end
    ensures Readable(parts)
    ensures SelectFrom(parts, name, start, end, now, newer) == Found(NaiveScan(parts, name, start, end, now) + newer)
    decreases |parts|
  {
    hide Sensible, EndsDescend, NoneFromZero, Before, Readable, Sound, Faithful, PartRead, Within, Sorted;
    if parts == [] {
      ReadableNone();
    } else {
      var p, tail := parts[0], parts[1..];
      SensibleTail(parts);
      ReadHonest(p, name, start, end, now);
      var r := PartRead(p, name, start, end, now);
      var older := NaiveScan(tail, name, start, end, now);
      if p.MinT() != 0 && p.MaxT() < start {
        BeforeLater(tail, p.MaxT() + 1, start);
        NaiveBefore(tail, name, start, end, now, start);
        EmptyRange(older, start, start - 1);
        OutOfRange(r, p, start, end);
      } else if p.MinT() == 0 || p.MinT() > end || r.NoDataPoints? {
        SelectIsNaive(tail, name, start, end, now, newer);
        OutOfRange(r, p, start, end);
        assert older + [] == older;
      } else {
        SelectIsNaive(tail, name, start, end, now, r.points + newer);
        assert (older + r.points) + newer == older + (r.points + newer);
      }
    }
  }

  /** A partition's newest timestamp can be asked for. */
  lemma NewestIsRead(p: Part) returns (name: Name, now: int)
    requires !p.Blank() && 0 < p.MaxT() && if p.MemPart? then Sound(p.m) else Faithful(p.d)
    ensures p.MemPart? ==> MetricIn(p.m.metrics, name).size == |MetricIn(p.m.metrics, name).points|
    ensures var r := PartRead(p, name, p.MaxT(), p.MaxT() + 1, now); r.Found? && r.points != []
  {
    hide Sound, Faithful, Read, Selected;
    match p {
      case MemPart(m, _) =>
        name := NewestInMemory(m);
        now := 0;
      case DiskPart(d) =>
        name := NewestOnDisk(d);
        now := d.meta.createdAt + d.retention;
    }
  }

  lemma NewestInMemory(m: MemState) returns (name: Name)
    requires Sound(m) && m.started && 0 < m.maxT
    ensures MetricIn(m.metrics, name).size == |MetricIn(m.metrics, name).points|
    ensures Selected(MetricIn(m.metrics, name), m.maxT, m.maxT + 1) != []
  {
    hide Content, InRange;
    assert MaxHeld(m);
    var r :| r in Content(m.metrics) && r.point.ts == m.maxT;
    name := r.name;
    ContentCount(m.metrics, r);
    NoPointsConsistent();
    var mt := MetricIn(m.metrics, name);
    assert Consistent(mt);
    var last := mt.points[mt.size - 1];
    HeldPoint(m.metrics, name, mt.size - 1);
    assert Row(name, last) in Content(m.metrics);
    InRangeMultiset(mt.points, m.maxT, m.maxT + 1, last);
    assert last in multiset(InRange(mt.points, m.maxT, m.maxT + 1));
  }

  lemma NewestOnDisk(d: DiskPartition) returns (name: Name)
    requires Faithful(d)
    ensures var r := Read(d, name, d.meta.maxTs, d.meta.maxTs + 1, d.meta.createdAt + d.retention); r.Found? && r.points != []
  {
    hide SeriesAt, InRange, Within;
    name :| name in d.meta.metrics && ReachesMax(d, name);
    assert FaithfulEntry(d, name);
    var ps := SeriesAt(d.data, d.meta.metrics[name].offset, d.meta.metrics[name].numPoints).points;
    var i :| 0 <= i < |ps| && ps[i].ts == d.meta.maxTs;
    ScanIsInRange(ps, d.meta.maxTs, d.meta.maxTs + 1);
    InRangeMultiset(ps, d.meta.maxTs, d.meta.maxTs + 1, ps[i]);
    assert ps[i] in multiset(InRange(ps, d.meta.maxTs, d.meta.maxTs + 1));
  }

  lemma {:induction false} NaiveHas(parts: seq<Part>, j: nat, name: Name, start: int, end: int, now: int)
    requires Readable(parts) && j < |parts|
    requires parts[j].MemPart? ==> MetricIn(parts[j].m.metrics, name).size == |MetricIn(parts[j].m.metrics, name).points|
    requires var r := PartRead(parts[j], name, start, end, now); r.Found? && r.points != []
    ensures NaiveScan(parts, name, start, end, now) != []
    decreases |parts|
  {
    hide PartRead, AllSized;
    if j > 0 {
      NaiveHas(parts[1..], j - 1, name, start, end, now);
    }
  }

  /** A scan never returns more than every partition together. */
  lemma {:induction false} SelectAtMost(parts: seq<Part>, name: Name, start: int, end: int, now: int, newer: seq<Point>)
    requires Sensible(parts) && start <= end
    ensures Readable(parts)
    ensures var r := SelectFrom(parts, name, start, end, now, newer);
            r.Found? && |r.points| <= |NaiveScan(parts, name, start, end, now)| + |newer|
    decreases |parts|
  {
    hide Sensible, EndsDescend, NoneFromZero, Before, Readable, Sound, Faithful, PartRead, Within, Sorted;
    if parts == [] {
      ReadableNone();
    } else {
      var p, tail := parts[0], parts[1..];
      SensibleTail(parts);
      ReadHonest(p, name, start, end, now);
      var r := PartRead(p, name, start, end, now);
      SelectAtMost(tail, name, start, end, now, if r.Found? then r.points + newer else newer);
      SelectAtMost(tail, name, start, end, now, newer);
    }
  }

  /** The scan passes over partition j, or stops before it. */
  ghost predicate PassedOver(parts: seq<Part>, j: nat, start: int) {
    j < |parts| && (parts[j].MinT() == 0 || exists i :: 0 <= i < j && parts[i].MinT() != 0 && parts[i].MaxT() < start)
  }

  /** Then the answer lacks what partition j would have returned. */
  lemma {:induction false} PassingCosts(parts: seq<Part>, j: nat, name: Name, start: int, end: int, now: int, newer: seq<Point>)
    requires Sensible(parts) && j < |parts| && PassedOver(parts, j, start) && start <= end
    requires parts[j].MemPart? ==> MetricIn(parts[j].m.metrics, name).size == |MetricIn(parts[j].m.metrics, name).points|
    requires var r := PartRead(parts[j], name, start, end, now); r.Found? && r.points != []
    ensures Readable(parts)
    ensures var r := SelectFrom(parts, name, start, end, now, newer);
            r.Found? && |r.points| < |NaiveScan(parts, name, start, end, now)| + |newer|
    decreases |parts|
  {
    hide Sensible, EndsDescend, NoneFromZero, Before, Readable, Sound, Faithful, PartRead, Within, Sorted, PassedOver;
    var p, tail := parts[0], parts[1..];
    SensibleTail(parts);
    ReadHonest(p, name, start, end, now);
    NaiveHas(parts, j, name, start, end, now);
    PassedTail(parts, j, start);
    var r := PartRead(p, name, start, end, now);
    if p.MinT() != 0 && p.MaxT() < start {
      // the scan stops here
    } else if j == 0 {
      SelectAtMost(tail, name, start, end, now, newer);
    } else if p.MinT() == 0 || p.MinT() > end || r.NoDataPoints? {
      PassingCosts(tail, j - 1, name, start, end, now, newer);
    } else {
      PassingCosts(tail, j - 1, name, start, end, now, r.points + newer);
    }
  }

  lemma PassedTail(parts: seq<Part>, j: nat, start: int)
    requires PassedOver(parts, j, start)
    ensures j == 0 ==> parts[0].MinT() == 0
    ensures j > 0 && !(parts[0].MinT() != 0 && parts[0].MaxT() < start) ==> PassedOver(parts[1..], j - 1, start)
  {
    if j > 0 && parts[j].MinT() != 0 {
      var i :| 0 <= i < j && parts[i].MinT() != 0 && parts[i].MaxT() < start;
      if i > 0 {
        assert parts[1..][i - 1] == parts[i];
      }
    }
  }

  ghost predicate AllQueriesNaive(parts: seq<Part>)
    requires Readable(parts)
  {
    forall name, start, end, now | start < end ::
      SelectFrom(parts, name, start, end, now, []) == Found(NaiveScan(parts, name, start, end, now))
  }

  /** Every query returns all that a scan of every partition would, if and only if no
      partition reaches beyond a newer one's end and none with rows starts at zero. */
  lemma AllQueriesNaiveIff(parts: seq<Part>)
    requires Sensible(parts)
    ensures Readable(parts) && (AllQueriesNaive(parts) <==> EndsDescend(parts) && NoneFromZero(parts))
  {
    hide Sound, Faithful, SelectFrom, NaiveScan, PartRead;
    SoundSized(parts);
    if EndsDescend(parts) && NoneFromZero(parts) {
      forall name, start, end, now | start < end
        ensures SelectFrom(parts, name, start, end, now, []) == Found(NaiveScan(parts, name, start, end, now))
      {
        SelectIsNaive(parts, name, start, end, now, []);
        assert NaiveScan(parts, name, start, end, now) + [] == NaiveScan(parts, name, start, end, now);
      }
    } else {
      var j := SomePassedOver(parts);
      var start: int := parts[j].MaxT();
      var name, now := NewestIsRead(parts[j]);
      PassingCosts(parts, j, name, start, start + 1, now, []);
    }
  }

  lemma SomePassedOver(parts: seq<Part>) returns (j: nat)
    requires !(EndsDescend(parts) && NoneFromZero(parts))
    ensures j < |parts| && !parts[j].Blank() && PassedOver(parts, j, parts[j].MaxT())
  {
    if !NoneFromZero(parts) {
      j :| 0 <= j < |parts| && !parts[j].Blank() && parts[j].MinT() == 0;
    } else {
      var i, k :| 0 <= i < k < |parts| && !parts[i].Blank() && !parts[k].Blank() && parts[k].MaxT() > parts[i].MaxT();
      j := k;
      assert parts[i].MinT() != 0 && parts[i].MaxT() < parts[j].MaxT();
    }
  }

  lemma OrderedDescends(parts: seq<Part>)
    requires Servable(parts)
    ensures Sensible(parts) && EndsDescend(parts) && NoneFromZero(parts)
  {
    hide Sound, Faithful;
  }

  lemma BeforeLater(parts: seq<Part>, t: int, t': int)
    requires Before(parts, t) && t <= t'
    ensures Before(parts, t')
  {
  }

  lemma EmptyRange(ps: seq<Point>, lo: int, hi: int)
    requires Within(ps, lo, hi) && hi < lo
    ensures ps == []
  {
    hide Within;
    if ps != [] {
      RangeOfPoint(ps, lo, hi);
    }
  }

  lemma RangeOfPoint(ps: seq<Point>, lo: int, hi: int)
    requires Within(ps, lo, hi) && ps != []
    ensures lo <= hi
  {
    assert lo <= ps[0].ts <= hi;
  }

  /** A partition outside the range has nothing to return. */
  lemma OutOfRange(r: Selection, p: Part, start: int, end: int)
    requires Honest(r, p, start, end)
    ensures p.Blank() || p.MaxT() < start || p.MinT() > end ==> r.Found? ==> r.points == []
  {
    if r.Found? && r.points != [] && !p.Blank() {
      assert start <= r.points[0].ts <= end && p.MinT() <= r.points[0].ts <= p.MaxT();
    }
  }

  /** The result of a query is in ascending order. */
  lemma {:induction false} NaiveSorted(parts: seq<Part>, name: Name, start: int, end: int, now: int)
    requires Servable(parts) && start <= end
    ensures Readable(parts)
    ensures Sorted(NaiveScan(parts, name, start, end, now))
    decreases |parts|
  {
    hide Servable, Sensible, EndsDescend, NoneFromZero, Before, Readable, Sound, Faithful, PartRead;
    if parts == [] {
      ReadableNone();
    } else {
      var p, tail := parts[0], parts[1..];
      ServableTail(parts);
      ReadHonest(p, name, start, end, now);
      NaiveSorted(tail, name, start, end, now);
      if !p.Blank() {
        OrderedDescends(tail);
        NaiveBefore(tail, name, start, end, now, p.MinT());
      }
    }
  }

  /** The first batch of a head leaves every query complete if and only if each of its rows
      has a timestamp and no partition behind reaches beyond the newest of them. */
  lemma FirstBatchQueriesIff(s: StorageState, rows: seq<Row>, now: int64)
    requires Good(s) && AllFaithful(s.parts) && s.parts != [] && s.parts[0].Blank()
    requires (forall i | 0 <= i < |rows| :: rows[i].point.ts >= 0) && rows != [] && now > 0
    ensures Readable(s.parts) && Readable(Cascade(s, rows, now, 0).state.parts)
    ensures AllQueriesNaive(Cascade(s, rows, now, 0).state.parts)
       <==> AllPositive(rows) && forall i | 0 < i < |s.parts| :: ReachedBy(rows, s.parts[i].MaxT())
  {
    hide Sound, Faithful, Ingested, Outdated, LowerBound, AllSized, Cascade, AllQueriesNaive, ReachedBy, Readable, AllPositive, Ordered, ProperRanges, OnlyHeadBlank, EndsDescend, NoneFromZero;
    SoundSized(s.parts);
    HeadSized(s);
    var p := s.parts[0];
    var p' := p.(m := Ingested(p.m, rows, now));
    FirstBatchTaken(s, rows, now);
    IngestKeeps(p.m, rows, now);
    FirstBatchRange(p.m, rows, now);
    BehindHead(s, p', rows);
    AllQueriesNaiveIff(s.parts[0 := p']);
    if AllPositive(rows) {
      FirstBatchEnd(p.m, rows, now);
      HeadDescends(s.parts, p', rows);
    }
  }

  lemma FirstBatchRange(m: MemState, rows: seq<Row>, now: int64)
    requires Sound(m) && !m.started && rows != [] && now > 0 && AllSized(m.metrics)
    requires forall i | 0 <= i < |rows| :: rows[i].point.ts >= 0
    ensures var m' := Ingested(m, rows, now);
            m'.started && 0 <= m'.minT <= m'.maxT && 0 < m'.maxT && (0 < m'.minT <==> AllPositive(rows))
  {
    hide Content, Stored, AllConsistent, Oldest, Accepted, NewestOf, MaxHeld;
    var minT := LowerBound(m, rows);
    AcceptedHas(rows, minT, now, 0);
    var accepted := Accepted(rows, minT, now);
    var i :| 0 <= i < |accepted| && accepted[i] == Stamped(rows[0], now);
  }

  lemma BehindHead(s: StorageState, p: Part, rows: seq<Row>)
    requires Good(s) && AllFaithful(s.parts) && s.parts != []
    requires p.MemPart? && Sound(p.m) && !p.Blank() && p.MinT() <= p.MaxT() && 0 < p.MaxT()
    ensures Sensible(s.parts[0 := p]) && Ordered(s.parts) && ProperRanges(s.parts) && OnlyHeadBlank(s.parts)
    ensures NoneFromZero(s.parts[0 := p]) <==> p.MinT() != 0
  {
    hide Sound, Faithful;
    var parts := s.parts[0 := p];
    assert parts[0] == p;
  }

  lemma HeadSized(s: StorageState)
    requires Good(s) && s.parts != [] && s.parts[0].MemPart?
    ensures Sound(s.parts[0].m) && AllSized(s.parts[0].m.metrics)
  {
    hide Content, AllConsistent, MaxHeld;
    assert Sound(s.parts[0].m);
  }

  /** A blank head takes its whole first batch. */
  lemma FirstBatchTaken(s: StorageState, rows: seq<Row>, now: int64)
    requires Readable(s.parts) && s.parts != [] && s.parts[0].Blank() && rows != [] && AllSized(s.parts[0].m.metrics)
    ensures var p := s.parts[0];
            Cascade(s, rows, now, 0).state.parts == s.parts[0 := p.(m := Ingested(p.m, rows, now))]
            && Outdated(rows, LowerBound(p.m, rows)) == []
  {
    hide Ingested, Outdated, Oldest, Cascade, AllSized;
    NothingOutdated(rows, LowerBound(s.parts[0].m, rows));
    CascadeOnce(s, rows, now);
  }

  lemma CascadeOnce(s: StorageState, rows: seq<Row>, now: int64)
    requires Readable(s.parts) && s.parts != [] && s.parts[0].MemPart? && rows != [] && AllSized(s.parts[0].m.metrics)
    requires Outdated(rows, LowerBound(s.parts[0].m, rows)) == []
    ensures var p := s.parts[0];
            Cascade(s, rows, now, 0).state.parts == s.parts[0 := p.(m := Ingested(p.m, rows, now))]
  {
    hide Ingested, Outdated, LowerBound, AllSized;
    IngestedSized(s.parts[0].m, rows, now);
  }

  /** Some row is at t or later. */
  ghost predicate ReachedBy(rows: seq<Row>, t: int) {
    exists k :: 0 <= k < |rows| && t <= rows[k].point.ts
  }

  /** A head's end is the newest row of its first batch. */
  lemma FirstBatchEnd(m: MemState, rows: seq<Row>, now: int64)
    requires Sound(m) && !m.started && rows != [] && AllPositive(rows) && now > 0
    ensures AllSized(m.metrics)
    ensures forall t: int :: t <= Ingested(m, rows, now).maxT <==> ReachedBy(rows, t)
  {
    hide Content, Stored, Oldest, NewestOf, Accepted, AllConsistent, MaxHeld;
    var minT := LowerBound(m, rows);
    var accepted := Accepted(rows, minT, now);
    var newest := NewestOf(rows[0].point.ts, accepted);
    IngestSplits(rows, minT, now);
    forall k | 0 <= k < |rows|
      ensures rows[k].point.ts <= newest
    {
      AcceptedHas(rows, minT, now, k);
      assert Stamped(rows[k], now) == rows[k];
    }
    if newest != rows[0].point.ts {
      var i :| 0 <= i < |accepted| && accepted[i].point.ts == newest;
      assert accepted[i] in rows;
    }
    var k :| 0 <= k < |rows| && rows[k].point.ts == newest;
    assert Ingested(m, rows, now).maxT == newest;
    forall t: int
      ensures t <= newest <==> ReachedBy(rows, t)
    {
      if t <= newest {
        assert t <= rows[k].point.ts;
      }
    }
  }

  lemma HeadDescends(parts: seq<Part>, p: Part, rows: seq<Row>)
    requires Ordered(parts) && ProperRanges(parts) && OnlyHeadBlank(parts) && parts != [] && !p.Blank()
    requires forall t: int :: t <= p.MaxT() <==> ReachedBy(rows, t)
    ensures EndsDescend(parts[0 := p]) <==> forall i | 0 < i < |parts| :: ReachedBy(rows, parts[i].MaxT())
  {
    hide ReachedBy;
    var parts' := parts[0 := p];
    if EndsDescend(parts') {
      forall i | 0 < i < |parts|
        ensures ReachedBy(rows, parts[i].MaxT())
      {
        assert parts'[i].MaxT() <= parts'[0].MaxT();
      }
    }
    if forall i | 0 < i < |parts| :: ReachedBy(rows, parts[i].MaxT()) {
      forall i, j | 0 <= i < j < |parts'| && !parts'[i].Blank() && !parts'[j].Blank()
        ensures parts'[j].MaxT() <= parts'[i].MaxT()
      {
        if i == 0 {
          assert ReachedBy(rows, parts[j].MaxT());
        } else {
          assert parts[j].MaxT() < parts[i].MinT();
        }
      }
    }
  }

  /** When the first batch of a head is older than `start`, the early stop hides
      every stored point from `start` on, although no partition has lost any. */
  lemma LateFirstBatchHidesAll(s: StorageState, rows: seq<Row>, now: int64, name: Name, start: int, end: int)
    requires Good(s) && AllFaithful(s.parts) && s.parts != [] && s.parts[0].Blank()
    requires AllPositive(rows) && rows != [] && now > 0 && start <= end
    requires forall i | 0 <= i < |rows| :: rows[i].point.ts < start
    ensures Readable(s.parts) && Readable(Cascade(s, rows, now, 0).state.parts)
    ensures SelectFrom(s.parts, name, start, end, now, []) == Found(NaiveScan(s.parts, name, start, end, now))
    ensures var after := Cascade(s, rows, now, 0).state.parts;
            && SelectFrom(after, name, start, end, now, []) == Found([])
            && NaiveScan(after, name, start, end, now) == NaiveScan(s.parts, name, start, end, now)
  {
    hide Sound, Ingested, Outdated, LowerBound, AllSized, PartRead, Faithful, Held, Newer, Oldest, Sorted, Within;
    SoundSized(s.parts);
    OrderedDescends(s.parts);
    SelectIsNaive(s.parts, name, start, end, now, []);
    var s1, taken, late := CascadeStep(s, rows, now, 0);
    FirstBatch(s, rows, now);
    var p := s1.parts[0];
    IngestRange(s.parts[0].m, rows, now);
    BlankMax(s.parts[0].m);
    ReadHonest(p, name, start, end, now);
    OutOfRange(PartRead(p, name, start, end, now), p, start, end);
    ReadHonest(s.parts[0], name, start, end, now);
    assert s1.parts[1..] == s.parts[1..];
  }

  lemma BlankMax(m: MemState)
    requires Sound(m) && !m.started
    ensures m.maxT == 0
  {
  }

  /** A first batch whose oldest row has no timestamp is stamped and stored whole,
      yet its partition starts at zero, and every query passes over it. */
  lemma UnstampedHidesHead(p: Part, rows: seq<Row>, now: int64, rest: seq<Part>, name: Name, start: int, end: int, at: int)
    requires p.Blank() && Sound(p.m) && rows != [] && Oldest(rows) == 0 && now > 0 && Readable(rest)
    ensures AllSized(p.m.metrics)
    ensures var p' := p.(m := Ingested(p.m, rows, now));
            && |Held(p')| == |rows| && Readable([p'] + rest)
            && SelectFrom([p'] + rest, name, start, end, at, []) == SelectFrom(rest, name, start, end, at, [])
  {
    hide Content, Stored, Accepted, AllConsistent, NewestOf, Oldest, AllSized;
    IngestKeeps(p.m, rows, now);
    AcceptedRange(rows, 0, now);
    NothingOutdated(rows, 0);
    var parts := [p.(m := Ingested(p.m, rows, now))] + rest;
    assert parts[1..] == rest;
  }

  /** A query over the head alone always comes back empty if and only if the oldest row of
      its first batch had no timestamp. */
  lemma UnstampedHidesHeadIff(p: Part, rows: seq<Row>, now: int64)
    requires p.Blank() && Sound(p.m) && rows != [] && now > 0
    ensures AllSized(p.m.metrics) && Readable([p.(m := Ingested(p.m, rows, now))])
    ensures NeverAnswers([p.(m := Ingested(p.m, rows, now))]) <==> Oldest(rows) == 0
  {
    hide Sound, SelectFrom, Ingested, Content, Oldest, AllSized;
    SoundIsSized(p.m);
    IngestKeeps(p.m, rows, now);
    IngestBounds(p.m, rows, now);
    var p' := p.(m := Ingested(p.m, rows, now));
    SoundIsSized(p'.m);
    SoundSized([p']);
    if p'.m.minT == 0 {
      forall name, start, end, at | start < end
        ensures SelectFrom([p'], name, start, end, at, []) == Found([])
      {
        SkipsZero(p', name, start, end, at);
      }
    } else {
      var name, t := SomePointRead(p'.m);
      ReadsAlone(p', name, t);
    }
  }

  ghost predicate NeverAnswers(parts: seq<Part>)
    requires Readable(parts)
  {
    forall name, start, end, now | start < end :: SelectFrom(parts, name, start, end, now, []) == Found([])
  }

  lemma SoundIsSized(m: MemState)
    requires Sound(m)
    ensures AllSized(m.metrics)
  {
  }

  lemma SkipsZero(p: Part, name: Name, start: int, end: int, now: int)
    requires Readable([p]) && p.MinT() == 0
    ensures SelectFrom([p], name, start, end, now, []) == Found([])
  {
    hide Readable;
    assert [p][1..] == [];
    ReadableNone();
    assert SelectFrom([], name, start, end, now, []) == Found([]);
  }

  /** Some held point can be asked for. */
  lemma SomePointRead(m: MemState) returns (name: Name, t: int)
    requires Sound(m) && m.started
    ensures MetricIn(m.metrics, name).size == |MetricIn(m.metrics, name).points|
    ensures m.minT <= t <= m.maxT && Selected(MetricIn(m.metrics, name), t, t + 1) != []
  {
    hide Content, InRange, MaxHeld;
    assert Content(m.metrics) != multiset{};
    var r :| r in Content(m.metrics);
    name := r.name;
    ContentCount(m.metrics, r);
    NoPointsConsistent();
    var mt := MetricIn(m.metrics, name);
    assert Consistent(mt);
    var first := mt.points[0];
    t := first.ts;
    HeldPoint(m.metrics, name, 0);
    assert Row(name, first) in Content(m.metrics);
    InRangeMultiset(mt.points, t, t + 1, first);
    assert first in multiset(InRange(mt.points, t, t + 1));
  }

  lemma ReadsAlone(p: Part, name: Name, t: int)
    requires p.MemPart? && Readable([p]) && p.MinT() != 0 && p.MinT() <= t <= p.MaxT()
    requires MetricIn(p.m.metrics, name).size == |MetricIn(p.m.metrics, name).points|
    requires Selected(MetricIn(p.m.metrics, name), t, t + 1) != []
    ensures SelectFrom([p], name, t, t + 1, 0, []) != Found([])
  {
    hide Readable, Selected;
    assert [p][1..] == [];
    ReadableNone();
    var r := PartRead(p, name, t, t + 1, 0);
    assert SelectFrom([], name, t, t + 1, 0, r.points + []) == Found(r.points + []);
  }

  // ----- What a read leaves behind -----

  /** A memory partition after a read of metric `name`: there may be an empty metric more. */
  function Touched(p: Part, name: Name): Part {
    if p.DiskPart? then p else p.(m := p.m.(metrics := p.m.metrics[name := MetricIn(p.m.metrics, name)]))
  }

  /** A read leaves no trace in what the partition holds. */
  lemma TouchKeepsContent(m: MemState, name: Name)
    ensures Content(m.metrics[name := MetricIn(m.metrics, name)]) == Content(m.metrics)
  {
    hide Content;
    var ms := m.metrics[name := MetricIn(m.metrics, name)];
    if name in m.metrics {
      assert ms == m.metrics;
    } else {
      ContentSplit(ms, name);
      RowsOfNone(name);
      assert ms - {name} == m.metrics;
    }
  }

  /** Each partition is as before, or has been read. */
  ghost predicate OnlyTouched(before: seq<Part>, after: seq<Part>, name: Name) {
    |after| == |before| && forall i | 0 <= i < |before| :: after[i] == before[i] || after[i] == Touched(before[i], name)
  }

  lemma TouchKeepsSound(m: MemState, name: Name)
    requires Sound(m)
    ensures Sound(m.(metrics := m.metrics[name := MetricIn(m.metrics, name)]))
  {
    hide Content, Consistent;
    TouchKeepsContent(m, name);
    NoPointsConsistent();
  }
}
