/** What a query answers, row by row: over every run each arrived row of the
    range is returned, or is accounted for by name. */
module StorageAnswers {
  import opened GorillaFormat
  import opened Metric
  import opened Rows
  import opened Memory
  import opened Disk
  import opened StorageModel
  import opened StorageSelect
  import opened StorageFlush
  import opened StorageRuns
  import opened StorageConservation

  // ----- One partition -----

  /** The rows of a partition that no query for `name` returns: those still in a
      metric's out-of-order buffer, and those in an expired file. */
  ghost function Unseen(p: Part, name: Name, now: int): multiset<Row> {
    match p
    case MemPart(m, _) => multiset(Tagged(name, MetricIn(m.metrics, name).outOfOrder))
    case DiskPart(d) => if d.Expired(now) then FileContent(d) else multiset{}
  }

  function Answer(r: Selection): seq<Point> {
    if r.Found? then r.points else []
  }

  /** The point a memory partition returns although its time is `end` itself. */
  ghost function Edge(p: Part, name: Name, end: int): multiset<Row> {
    if p.DiskPart? then multiset{}
    else
      var m := MetricIn(p.m.metrics, name);
      if OnEdge(m, end) then multiset{Row(name, m.points[m.size - 1])} else multiset{}
  }

  /** How often a row is in an answer: inside the range as often as it is stored and
      seen, at `end` as often as it is on the edge, nowhere else. */
  ghost predicate Accounts(answer: seq<Point>, unseen: multiset<Row>, edge: multiset<Row>, stored: multiset<Row>, r: Row, start: int, end: int) {
    && (start <= r.point.ts < end ==> multiset(answer)[r.point] + unseen[r] == stored[r])
    && (r.point.ts == end ==> multiset(answer)[r.point] == edge[r])
    && (r.point.ts < start || r.point.ts > end ==> multiset(answer)[r.point] == 0)
    && edge[r] <= stored[r]
  }

  ghost predicate OnEdge(m: MetricState, end: int) {
    0 < m.size <= |m.points| && end == m.maxTs && end > m.minTs
  }

  lemma SelectedCount(m: MetricState, p: Point, start: int, end: int)
    requires Consistent(m) && start <= end
    ensures multiset(Selected(m, start, end))[p]
         == if start <= p.ts < end then multiset(m.points)[p]
            else if p.ts == end && OnEdge(m, end) && p == m.points[m.size - 1] then 1
            else 0
  {
    hide InRange, Ascending;
    InRangeMultiset(m.points, start, end, p);
  }

  lemma MemAnswers(p: Part, r: Row, start: int, end: int, now: int)
    requires p.MemPart? && Sound(p.m) && start <= end
    ensures MetricIn(p.m.metrics, r.name).size == |MetricIn(p.m.metrics, r.name).points|
    ensures Accounts(Answer(PartRead(p, r.name, start, end, now)), Unseen(p, r.name, now), Edge(p, r.name, end), StoredIn(p), r, start, end)
  {
    hide Content, Selected, MaxHeld, Consistent, AllSized;
    var m := MetricIn(p.m.metrics, r.name);
    NoPointsConsistent();
    assert Consistent(m);
    ConsistentSized(m);
    ContentCount(p.m.metrics, r);
    TaggedCount(r.name, m.outOfOrder, r);
    SelectedCount(m, r.point, start, end);
    if m.size > 0 {
      assert m.points[m.size - 1] in multiset(m.points);
    }
  }

  lemma DiskAnswers(p: Part, r: Row, start: int, end: int, now: int)
    requires p.DiskPart? && Faithful(p.d) && start <= end
    ensures Accounts(Answer(PartRead(p, r.name, start, end, now)), Unseen(p, r.name, now), Edge(p, r.name, end), StoredIn(p), r, start, end)
  {
    hide Content, InRange, ReachesMax, SeriesAt, Sorted, Within;
    var file := map n | n in p.d.meta.metrics :: DecodedEntry(p.d, n);
    ContentCount(file, r);
    if !p.d.Expired(now) && r.name in p.d.meta.metrics {
      assert FaithfulEntry(p.d, r.name);
      var entry := p.d.meta.metrics[r.name];
      var ps := SeriesAt(p.d.data, entry.offset, entry.numPoints).points;
      ScanIsInRange(ps, start, end);
      InRangeMultiset(ps, start, end, r.point);
    }
  }

  // ----- All partitions -----

  ghost function UnseenIn(parts: seq<Part>, name: Name, now: int): multiset<Row> {
    if parts == [] then multiset{} else Unseen(parts[0], name, now) + UnseenIn(parts[1..], name, now)
  }

  ghost function EdgeIn(parts: seq<Part>, name: Name, end: int): multiset<Row> {
    if parts == [] then multiset{} else Edge(parts[0], name, end) + EdgeIn(parts[1..], name, end)
  }

  lemma {:induction false} NaiveAnswers(parts: seq<Part>, r: Row, start: int, end: int, now: int)
    requires AllSound(parts) && AllFaithful(parts) && start <= end
    ensures Readable(parts)
    ensures Accounts(NaiveScan(parts, r.name, start, end, now), UnseenIn(parts, r.name, now), EdgeIn(parts, r.name, end), Total(parts), r, start, end)
    decreases |parts|
  {
    hide Sound, Faithful, PartRead, Unseen, Edge, StoredIn, AllSized;
    SoundSized(parts);
    if parts != [] {
      var p, tail := parts[0], parts[1..];
      NaiveAnswers(tail, r, start, end, now);
      if p.MemPart? {
        MemAnswers(p, r, start, end, now);
      } else {
        DiskAnswers(p, r, start, end, now);
      }
    }
  }

  // ----- What a flush changes -----

  lemma {:induction false} UnseenUpdate(parts: seq<Part>, k: nat, q: Part, name: Name, end: int, now: int)
    requires k < |parts|
    ensures UnseenIn(parts[k := q], name, now) + Unseen(parts[k], name, now) == UnseenIn(parts, name, now) + Unseen(q, name, now)
    ensures EdgeIn(parts[k := q], name, end) + Edge(parts[k], name, end) == EdgeIn(parts, name, end) + Edge(q, name, end)
    decreases |parts|
  {
    hide Unseen, Edge;
    var parts' := parts[k := q];
    if k == 0 {
      assert parts'[1..] == parts[1..];
    } else {
      assert parts'[1..] == parts[1..][k - 1 := q];
      UnseenUpdate(parts[1..], k - 1, q, name, end, now);
      Shifted(Unseen(parts[0], name, now), UnseenIn(parts'[1..], name, now), Unseen(parts[k], name, now),
              UnseenIn(parts[1..], name, now), Unseen(q, name, now));
      Shifted(Edge(parts[0], name, end), EdgeIn(parts'[1..], name, end), Edge(parts[k], name, end),
              EdgeIn(parts[1..], name, end), Edge(q, name, end));
    }
  }

  lemma Shifted(a: multiset<Row>, b: multiset<Row>, c: multiset<Row>, d: multiset<Row>, e: multiset<Row>)
    requires b + c == d + e
    ensures (a + b) + c == (a + d) + e
  {
    assert (a + b) + c == a + (b + c);
  }

  /** Swapping a partition of the list for its file changes a query in two ways only: the
      partition's buffered rows of the range come in, its point at `end` goes out. */
  lemma FlushChangesQuery(parts: seq<Part>, k: nat, o: FlushOutcome, r: Row, start: int, end: int, now: int)
    requires Servable(parts) && k < |parts| && parts[k].MemPart? && !parts[k].Blank() && start <= end
    requires FlushedAs(parts[k].m, o) && !o.disk.Expired(now)
    ensures Readable(parts) && Readable(parts[k := DiskPart(o.disk)])
    ensures var before := SelectFrom(parts, r.name, start, end, now, []);
            var after := SelectFrom(parts[k := DiskPart(o.disk)], r.name, start, end, now, []);
            && before.Found? && after.Found?
            && multiset(after.points)[r.point] + (if r.point.ts == end then Edge(parts[k], r.name, end)[r] else 0)
            == multiset(before.points)[r.point] + if start <= r.point.ts < end then Unseen(parts[k], r.name, now)[r] else 0
  {
    hide Sound, Faithful, FlushedAs, NaiveScan, SelectFrom, Total, UnseenIn, EdgeIn, Edge, Sensible, EndsDescend, NoneFromZero, Content, Sorted;
    var p, q := parts[k], DiskPart(o.disk);
    var parts' := parts[k := q];
    assert Sound(p.m) && 0 < p.MinT();
    StartedIsSound(p);
    FlushedIsFaithful(p.m, o);
    SameRange(p.m, o);
    ReplaceInOrder(parts, k, q);
    FlushKeepsContent(p.m, o);
    TotalUpdate(parts, k, q, multiset{});
    NaiveSelect(parts, r.name, start, end, now);
    NaiveSelect(parts', r.name, start, end, now);
    NaiveAnswers(parts, r, start, end, now);
    NaiveAnswers(parts', r, start, end, now);
    UnseenUpdate(parts, k, q, r.name, end, now);
    NoEdge(q, r.name, end);
    Counted(UnseenIn(parts', r.name, now), Unseen(p, r.name, now), UnseenIn(parts, r.name, now), r);
    Counted(EdgeIn(parts', r.name, end), Edge(p, r.name, end), EdgeIn(parts, r.name, end), r);
  }

  lemma StartedIsSound(p: Part)
    requires p.MemPart? && !p.Blank()
    ensures p.m.started
  {
  }

  lemma NoEdge(q: Part, name: Name, end: int)
    requires q.DiskPart?
    ensures Edge(q, name, end) == multiset{}
  {
  }

  lemma Counted(a: multiset<Row>, b: multiset<Row>, c: multiset<Row>, r: Row)
    requires a + b == c + multiset{}
    ensures a[r] + b[r] == c[r]
  {
    assert (a + b)[r] == c[r];
  }

  lemma NaiveSelect(parts: seq<Part>, name: Name, start: int, end: int, now: int)
    requires Servable(parts) && start <= end
    ensures Readable(parts)
    ensures SelectFrom(parts, name, start, end, now, []) == Found(NaiveScan(parts, name, start, end, now))
  {
    hide Servable, Sensible, EndsDescend, NoneFromZero, NaiveScan, SelectFrom;
    OrderedDescends(parts);
    SelectIsNaive(parts, name, start, end, now, []);
    assert NaiveScan(parts, name, start, end, now) + [] == NaiveScan(parts, name, start, end, now);
  }

  // ----- Whole runs -----

  /** In every run whose fresh heads start with newer rows, a query answers in
      ascending order, and every row of its range that has arrived is in the answer,
      or has been dropped, or waits in an out-of-order buffer, or lies in an expired
      file: each exactly as often as it came in. Beyond the range there is only the
      newest point of a metric in memory, when the range ends on it. */
  lemma RunAnswersQueries(c: Config, states: seq<StorageState>, events: seq<Event>, n: nat,
                          r: Row, start: int, end: int, now: int)
    requires Run(c, states, events) && c.duration >= 2 && n <= |events| && start <= end
    requires forall i | 0 <= i < |events| :: Admissible(c, states[i], events[i])
    ensures forall i | 0 <= i < |states| :: states[i].parts != []
    ensures Readable(states[n].parts)
    ensures var answer := SelectFrom(states[n].parts, r.name, start, end, now, []);
            && answer.Found? && Sorted(answer.points)
            && (start <= r.point.ts < end ==>
                  multiset(answer.points)[r.point] + UnseenIn(states[n].parts, r.name, now)[r] + Dropped(c, states, events, n)[r]
                    == Arrived(events, n)[r])
            && (r.point.ts == end ==> multiset(answer.points)[r.point] == EdgeIn(states[n].parts, r.name, end)[r])
            && (r.point.ts < start || r.point.ts > end ==> multiset(answer.points)[r.point] == 0)
            && multiset(answer.points)[r.point] <= Arrived(events, n)[r]
  {
    hide Run, Admissible, Good, AllFaithful, NaiveScan, SelectFrom, Total, UnseenIn, EdgeIn, Dropped, Arrived, Readable, AllSound;
    RunLength(c, states, events);
    RunServesQueries(c, states, events, n, r.name, start, end, now);
    RunConserves(c, states, events, n);
    RunStaysHealthy(c, states, events, n);
    GoodIsSound(states[n]);
    NaiveAnswers(states[n].parts, r, start, end, now);
    var stored, dropped := Total(states[n].parts), Dropped(c, states, events, n);
    assert (stored + dropped)[r] == stored[r] + dropped[r];
  }

  lemma GoodIsSound(s: StorageState)
    requires Good(s)
    ensures AllSound(s.parts)
  {
  }
}
