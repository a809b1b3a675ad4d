/** No row appears or vanishes: over every run the rows held in memory and in
    files, together with those that were dropped, are the rows that came in. */
module StorageConservation {
  import opened Words
  import opened GorillaFormat
  import opened Metric
  import opened Rows
  import opened Memory
  import opened Disk
  import opened StorageModel
  import opened StorageSelect
  import opened StorageFlush
  import opened StorageExpiry
  import opened StorageRuns

  // ----- What a file holds -----

  ghost function DecodedEntry(d: DiskPartition, n: Name): MetricState
    requires n in d.meta.metrics
  {
    var s := SeriesAt(d.data, d.meta.metrics[n].offset, d.meta.metrics[n].numPoints);
    NO_POINTS.(points := if s.Points? then s.points else [])
  }

  /** All rows that decode from a data file under its index. */
  ghost function FileContent(d: DiskPartition): multiset<Row> {
    Content(map n | n in d.meta.metrics :: DecodedEntry(d, n))
  }

  /** The rows of a metric do not depend on how its points are arranged. */
  lemma SameRows(name: Name, m: MetricState, m': MetricState)
    requires multiset(m.points) + multiset(m.outOfOrder) == multiset(m'.points) + multiset(m'.outOfOrder)
    ensures RowsOf(name, m) == RowsOf(name, m')
  {
    forall r: Row
      ensures RowsOf(name, m)[r] == RowsOf(name, m')[r]
    {
      TaggedCount(name, m.points, r);
      TaggedCount(name, m.outOfOrder, r);
      TaggedCount(name, m'.points, r);
      TaggedCount(name, m'.outOfOrder, r);
      assert (multiset(m.points) + multiset(m.outOfOrder))[r.point] == (multiset(m'.points) + multiset(m'.outOfOrder))[r.point];
    }
  }

  lemma {:induction false} SameContent(ms: map<Name, MetricState>, ms': map<Name, MetricState>)
    requires ms.Keys == ms'.Keys && forall n | n in ms :: RowsOf(n, ms[n]) == RowsOf(n, ms'[n])
    ensures Content(ms) == Content(ms')
    decreases |ms|
  {
    hide RowsOf, Content;
    if ms != map[] {
      var n :| n in ms;
      ContentSplit(ms, n);
      ContentSplit(ms', n);
      SameContent(ms - {n}, ms' - {n});
    } else {
      assert ms' == map[];
    }
  }

  /** A file holds exactly the rows of the partition it was written from. */
  lemma FlushKeepsContent(m: MemState, o: FlushOutcome)
    requires Sound(m) && 0 < m.minT && FlushedAs(m, o)
    ensures FileContent(o.disk) == Content(m.metrics) && o.disk.meta.numPoints == |FileContent(o.disk)|
    ensures forall n | n in m.metrics :: n in o.disk.meta.metrics && EntryFits(o.disk.meta.metrics[n], n, m.metrics[n])
  {
    hide Content, RowsOf, Indexed, BufferSorted, Consistent, SeriesAt, EntryFits;
    var d := o.disk;
    forall n | n in m.metrics
      ensures n in d.meta.metrics && EntryFits(d.meta.metrics[n], n, m.metrics[n])
    {
      IndexFits(d, n, m.metrics[n], o.sorted.metrics[n]);
    }
    var file := map n | n in d.meta.metrics :: DecodedEntry(d, n);
    forall n | n in m.metrics
      ensures RowsOf(n, file[n]) == RowsOf(n, m.metrics[n])
    {
      EntryDecodes(m, o, n);
      SameRows(n, file[n], m.metrics[n]);
    }
    SameContent(file, m.metrics);
  }

  /** An index entry gives the metric's name, the number of its points and the range of
      those in order. */
  ghost predicate EntryFits(entry: DiskMetric, n: Name, m: MetricState) {
    && entry.name == n && entry.numPoints == |m.points| + |m.outOfOrder|
    && (m.points != [] ==> entry.minTs == m.points[0].ts && entry.maxTs == m.points[|m.points| - 1].ts)
  }

  lemma IndexFits(d: DiskPartition, n: Name, m: MetricState, m': MetricState)
    requires n in d.meta.metrics && d.meta.metrics[n].name == n
    requires Consistent(m) && BufferSorted(m, m') && Indexed(d.data, d.meta.metrics[n], m')
    ensures EntryFits(d.meta.metrics[n], n, m)
  {
    hide HoldsAt, Sorted, Ascending;
    SameSize(m.outOfOrder, m'.outOfOrder);
  }

  lemma SameSize(a: seq<Point>, b: seq<Point>)
    requires multiset(a) == multiset(b)
    ensures |a| == |b|
  {
    assert |multiset(a)| == |a| && |multiset(b)| == |b|;
  }

  lemma EntryDecodes(m: MemState, o: FlushOutcome, n: Name)
    requires Sound(m) && 0 < m.minT && FlushedAs(m, o) && n in m.metrics
    ensures n in o.disk.meta.metrics
    ensures var e := DecodedEntry(o.disk, n);
            multiset(e.points) + multiset(e.outOfOrder) == multiset(m.metrics[n].points) + multiset(m.metrics[n].outOfOrder)
  {
    hide Content, Indexed, BufferSorted, Consistent, SeriesAt, Within, MaxHeld;
    PointsWithin(m, n);
    var s := EntrySeries(o.disk, n, m.metrics[n], o.sorted.metrics[n]);
  }

  // ----- All partitions -----

  ghost function StoredIn(p: Part): multiset<Row> {
    if p.MemPart? then Content(p.m.metrics) else FileContent(p.d)
  }

  ghost function Total(parts: seq<Part>): multiset<Row> {
    if parts == [] then multiset{} else StoredIn(parts[0]) + Total(parts[1..])
  }

  lemma {:induction false} TotalUpdate(parts: seq<Part>, i: nat, p: Part, more: multiset<Row>)
    requires i < |parts| && StoredIn(p) == StoredIn(parts[i]) + more
    ensures Total(parts[i := p]) == Total(parts) + more
    decreases |parts|
  {
    hide StoredIn;
    var parts' := parts[i := p];
    if i == 0 {
      assert parts'[1..] == parts[1..];
    } else {
      assert parts'[1..] == parts[1..][i - 1 := p];
      TotalUpdate(parts[1..], i - 1, p, more);
    }
  }

  lemma {:induction false} TotalConcat(a: seq<Part>, b: seq<Part>)
    ensures Total(a + b) == Total(a) + Total(b)
    decreases |a|
  {
    hide StoredIn;
    if a == [] {
      assert a + b == b;
    } else {
      assert (a + b)[1..] == a[1..] + b;
      TotalConcat(a[1..], b);
    }
  }

  // ----- A batch -----

  /** Older than the head and, if there is a second writable partition, older than that. */
  predicate TooOld(r: Row, parts: seq<Part>)
    requires parts != []
  {
    && r.point.ts < parts[0].MinT()
    && (|parts| == 1 || parts[1].DiskPart? || r.point.ts < parts[1].MinT())
  }

  function Late(rows: seq<Row>, parts: seq<Part>): seq<Row>
    requires parts != []
  {
    if rows == [] then [] else (if TooOld(rows[0], parts) then [rows[0]] else []) + Late(rows[1..], parts)
  }

  lemma {:induction false} LateCount(rows: seq<Row>, parts: seq<Part>, r: Row)
    requires parts != []
    ensures multiset(Late(rows, parts))[r] == if TooOld(r, parts) then multiset(rows)[r] else 0
    decreases |rows|
  {
    if rows != [] {
      LateCount(rows[1..], parts, r);
      assert rows == [rows[0]] + rows[1..];
    }
  }

  lemma LateIs(rows: seq<Row>, parts: seq<Part>, taken: multiset<Row>, lost: multiset<Row>)
    requires parts != [] && taken + lost == multiset(rows)
    requires forall r | r in taken :: !TooOld(r, parts)
    requires forall r | r in lost :: TooOld(r, parts)
    ensures multiset(Late(rows, parts)) == lost
  {
    forall r: Row
      ensures multiset(Late(rows, parts))[r] == lost[r]
    {
      LateCount(rows, parts, r);
      assert multiset(rows)[r] == (taken + lost)[r];
    }
  }

  /** A cascade loses exactly the rows that no writable partition reaches back to. */
  lemma CascadeConservesTotal(s: StorageState, rows: seq<Row>, now: int64)
    requires s.parts != [] && s.parts[0].MemPart? && AllSound(s.parts) && AllPositive(rows) && now > 0
    ensures Readable(s.parts)
    ensures var parts := Cascade(s, rows, now, 0).state.parts;
            parts != [] && Total(parts) + multiset(Late(rows, parts)) == Total(s.parts) + multiset(rows)
  {
    hide Sound, Ingested, Outdated, LowerBound, AllSized, Total, TooOld, Cascade, StoredIn, Held, Late, AllPositive;
    SoundSized(s.parts);
    if rows == [] {
      CascadeStops(s, rows, now, 0);
      LateIs(rows, s.parts, multiset{}, multiset{});
    } else {
      var s1, taken, late := CascadeStep(s, rows, now, 0);
      HeldIsStored(s.parts[0], s1.parts[0]);
      TotalUpdate(s.parts, 0, s1.parts[0], taken);
      if late != [] && |s.parts| > 1 && s.parts[1].MemPart? {
        var s2, taken', rest := CascadeStep(s1, late, now, 1);
        HeldIsStored(s1.parts[1], s2.parts[1]);
        TotalUpdate(s1.parts, 1, s2.parts[1], taken');
        CascadeStops(s2, rest, now, 2);
        TooOldOf(s2.parts, taken, taken', multiset(rest));
        SplitTwice(rows, taken, late, taken', rest, Total(s.parts));
        LateIs(rows, s2.parts, taken + taken', multiset(rest));
      } else {
        CascadeStops(s1, late, now, 1);
        TooOldOf(s1.parts, taken, multiset{}, multiset(late));
        LateIs(rows, s1.parts, taken, multiset(late));
      }
    }
  }

  lemma SplitTwice(rows: seq<Row>, taken: multiset<Row>, late: seq<Row>, taken': multiset<Row>, rest: seq<Row>, t: multiset<Row>)
    requires taken + multiset(late) == multiset(rows) && taken' + multiset(rest) == multiset(late)
    ensures (taken + taken') + multiset(rest) == multiset(rows)
    ensures (t + taken + taken') + multiset(rest) == t + multiset(rows)
  {
  }

  lemma HeldIsStored(p: Part, q: Part)
    requires p.MemPart? && q.MemPart?
    ensures StoredIn(p) == Held(p) && StoredIn(q) == Held(q)
  {
  }

  lemma TooOldOf(parts: seq<Part>, taken0: multiset<Row>, taken1: multiset<Row>, lost: multiset<Row>)
    requires parts != []
    requires forall r | r in taken0 :: parts[0].MinT() <= r.point.ts
    requires |parts| > 1 && parts[1].MemPart? ==> forall r | r in taken1 :: parts[1].MinT() <= r.point.ts
    requires taken1 == multiset{} || (|parts| > 1 && parts[1].MemPart?)
    requires forall r | r in lost :: r.point.ts < parts[0].MinT()
    requires |parts| > 1 && parts[1].MemPart? ==> forall r | r in lost :: r.point.ts < parts[1].MinT()
    ensures forall r | r in taken0 + taken1 :: !TooOld(r, parts)
    ensures forall r | r in lost :: TooOld(r, parts)
  {
  }

  lemma BatchConserves(c: Config, s: StorageState, rows: seq<Row>, now: int64)
    requires Healthy(s) && c.duration >= 2 && Admissible(c, s, Batch(rows, now))
    ensures Readable(s.parts)
    ensures var parts := InsertedRows(s, rows, now, c.duration).state.parts;
            parts != [] && Total(parts) + multiset(Late(rows, parts)) == Total(s.parts) + multiset(rows)
  {
    hide Sound, Content, FileContent, Ordered, ProperRanges, Cascade, AllSized, Newer;
    ActiveHeadIsGood(s, c.duration);
    SoundSized(s.parts);
    var a := WithActiveHead(s, c.duration);
    if a != s {
      NothingHeld();
      assert a.parts[1..] == s.parts;
    }
    CascadeConservesTotal(a, rows, now);
  }

  // ----- A flush pass -----

  lemma {:induction false} RestConserved(rest: seq<Part>, rest': seq<Part>)
    requires FlushedOrKept(rest, rest') && AllSound(rest)
    requires forall i | 0 <= i < |rest| :: 0 < rest[i].MinT()
    ensures Total(rest') == Total(rest)
    decreases |rest|
  {
    hide Sound, Content, FileContent, FlushedAs;
    if rest != [] {
      var p, q := rest[0], rest'[0];
      assert FlushedInto(p, q) || q == p;
      if q != p {
        var o :| FlushedAs(p.m, o) && q.d == o.disk;
        FlushKeepsContent(p.m, o);
      }
      RestConserved(rest[1..], rest'[1..]);
    }
  }

  /** What a pass gives up: nothing with a data directory, else the partitions it drops. */
  ghost function GivenUp(inMemory: bool, s: StorageState): multiset<Row> {
    if inMemory then AllHeld(s.parts[Front(s.parts)..]) else multiset{}
  }

  ghost function AllHeld(parts: seq<Part>): multiset<Row> {
    if parts == [] then multiset{} else Held(parts[0]) + AllHeld(parts[1..])
  }

  lemma {:induction false} DisksKeepFiles(parts: seq<Part>)
    ensures Total(Disks(parts)) + AllHeld(parts) == Total(parts)
    decreases |parts|
  {
    hide Content, FileContent;
    if parts != [] {
      DisksKeepFiles(parts[1..]);
      if parts[0].DiskPart? {
        assert ([parts[0]] + Disks(parts[1..]))[1..] == Disks(parts[1..]);
      } else {
        assert [] + Disks(parts[1..]) == Disks(parts[1..]);
      }
    }
  }

  lemma PassConserves(c: Config, s: StorageState, outs: seq<FlushOutcome>, ok: bool, s': StorageState)
    requires Healthy(s) && FlushPass(s, c.inMemory, outs, ok, s')
    ensures Total(s'.parts) + GivenUp(c.inMemory, s) == Total(s.parts)
  {
    hide Sound, Faithful, Swept, Total, FlushedInto, AllHeld, Disks, Sweepable, NoTwin;
    var f := Front(s.parts);
    var kept, rest := s.parts[..f], s.parts[f..];
    assert s.parts == kept + rest;
    GoodIsSweepable(s, f);
    TotalConcat(kept, rest);
    if c.inMemory {
      SweepableNoTwin(kept, rest, true);
      SweepDrops(kept, rest, s.wal, outs, ok, s');
      TotalConcat(kept, Disks(rest));
      DisksKeepFiles(rest);
    } else {
      SweepSwaps(kept, rest, s.wal, outs, ok, s');
      var rest' := s'.parts[f..];
      assert s'.parts == kept + rest';
      RestPositive(s, f);
      RestConserved(rest, rest');
      TotalConcat(kept, rest');
    }
  }

  lemma RestPositive(s: StorageState, f: nat)
    requires Good(s) && 0 < f <= |s.parts|
    ensures AllSound(s.parts[f..]) && forall i | 0 <= i < |s.parts[f..]| :: 0 < s.parts[f..][i].MinT()
  {
    hide Sound;
    forall i | 0 <= i < |s.parts[f..]|
      ensures 0 < s.parts[f..][i].MinT()
    {
      assert !s.parts[f + i].Blank();
    }
  }

  // ----- A query -----

  lemma {:induction false} QueryConserves(parts: seq<Part>, parts': seq<Part>, name: Name)
    requires OnlyTouched(parts, parts', name)
    ensures Total(parts') == Total(parts)
    decreases |parts|
  {
    hide Content, FileContent;
    if parts != [] {
      if parts[0].MemPart? {
        TouchKeepsContent(parts[0].m, name);
      }
      QueryConserves(parts[1..], parts'[1..], name);
    }
  }

  // ----- Expiry -----

  lemma {:induction false} ExpireConserves(parts: seq<Part>, now: int)
    ensures Total(Unexpired(parts, now)) + Total(ExpiredOf(parts, now)) == Total(parts)
    decreases |parts|
  {
    hide StoredIn, Expired, ExpiredOf, Unexpired;
    if parts == [] {
      NoneExpired(parts, now);
    } else {
      var p, later := parts[0], parts[1..];
      assert parts == [p] + later;
      ExpiredCons([], p, later, now);
      ExpireConserves(later, now);
      TotalCons(p, later);
      TotalCons(p, Unexpired(later, now));
      TotalCons(p, ExpiredOf(later, now));
    }
  }

  lemma TotalCons(p: Part, later: seq<Part>)
    ensures Total([p] + later) == StoredIn(p) + Total(later)
  {
    hide StoredIn;
    assert ([p] + later)[1..] == later;
  }

  // ----- Whole runs -----

  /** The rows that came in with the first n events. */
  ghost function Arrived(events: seq<Event>, n: nat): multiset<Row>
    requires n <= |events|
  {
    if n == 0 then multiset{}
    else
      var e := events[n - 1];
      Arrived(events, n - 1) + if e.Batch? then multiset(e.rows) else multiset{}
  }

  /** The rows the first n events dropped: too old on arrival, or given up by a pass. */
  ghost function Dropped(c: Config, states: seq<StorageState>, events: seq<Event>, n: nat): multiset<Row>
    requires n <= |events| && |states| == |events| + 1
    requires forall i | 0 <= i < |states| :: states[i].parts != []
  {
    if n == 0 then multiset{}
    else
      var e := events[n - 1];
      var lost :=
        match e
        case Batch(rows, _) => multiset(Late(rows, states[n].parts))
        case Pass(_, _) => GivenUp(c.inMemory, states[n - 1])
        case Query(_) => multiset{}
        case Expire(now) => Total(ExpiredOf(states[n - 1].parts, now));
      Dropped(c, states, events, n - 1) + lost
  }

  lemma RunNeverEmpty(c: Config, states: seq<StorageState>, events: seq<Event>)
    requires Run(c, states, events) && c.duration >= 2
    requires forall i | 0 <= i < |events| :: Admissible(c, states[i], events[i])
    ensures forall i | 0 <= i < |states| :: states[i].parts != []
  {
    hide Run, Admissible, Good, AllFaithful;
    forall i | 0 <= i < |states|
      ensures states[i].parts != []
    {
      RunLength(c, states, events);
      RunStaysHealthy(c, states, events, i);
    }
  }

  lemma RunLength(c: Config, states: seq<StorageState>, events: seq<Event>)
    requires Run(c, states, events)
    ensures |states| == |events| + 1
  {
  }

  /** Over every run: stored rows and dropped rows are the rows that arrived. */
  lemma {:induction false} RunConserves(c: Config, states: seq<StorageState>, events: seq<Event>, n: nat)
    requires Run(c, states, events) && c.duration >= 2 && n <= |events|
    requires forall i | 0 <= i < |events| :: Admissible(c, states[i], events[i])
    ensures forall i | 0 <= i < |states| :: states[i].parts != []
    ensures Total(states[n].parts) + Dropped(c, states, events, n) == Arrived(events, n)
  {
    hide Healthy, Admissible, FlushPass, InsertedRows, Readable, Total, Late, GivenUp, OnlyTouched, Purged;
    RunNeverEmpty(c, states, events);
    if n == 0 {
      StartHoldsNothing(c);
    } else {
      RunConserves(c, states, events, n - 1);
      RunStaysHealthy(c, states, events, n - 1);
      var s := states[n - 1];
      assert Transition(c, s, events[n - 1], states[n - 1 + 1]);
      var dropped := Dropped(c, states, events, n - 1);
      match events[n - 1] {
        case Batch(rows, now) =>
          BatchConserves(c, s, rows, now);
          Rebalanced(Total(s.parts), multiset(rows), dropped, Total(states[n].parts), multiset(Late(rows, states[n].parts)));
        case Pass(outs, ok) =>
          PassConserves(c, s, outs, ok, states[n]);
          Rebalanced(Total(s.parts), multiset{}, dropped, Total(states[n].parts), GivenUp(c.inMemory, s));
        case Query(name) =>
          QueryConserves(s.parts, states[n].parts, name);
        case Expire(now) =>
          ExpireKeepsHealthy(s, now);
          ExpireConserves(s.parts, now);
          Rebalanced(Total(s.parts), multiset{}, dropped, Total(states[n].parts), Total(ExpiredOf(s.parts, now)));
      }
    }
  }

  lemma Rebalanced(before: multiset<Row>, arrived: multiset<Row>, dropped: multiset<Row>, after: multiset<Row>, lost: multiset<Row>)
    requires after + lost == before + arrived
    ensures after + (dropped + lost) == (before + dropped) + arrived
  {
    assert after + (dropped + lost) == (after + lost) + dropped;
  }

  lemma StartHoldsNothing(c: Config)
    ensures Total(Start(c).parts) == multiset{}
  {
    NothingHeld();
    assert Start(c).parts[1..] == [];
  }
}
