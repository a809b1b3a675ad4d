/** Whole runs of batches, queries, flush passes and expiry: range order is kept, files read
    back, and every query is the naive scan. */
module StorageRuns {
  import opened Words
  import opened Metric
  import opened Rows
  import opened WalSegments
  import opened Memory
  import opened Disk
  import opened StorageModel
  import opened StorageSelect
  import opened StorageFlush
  import opened StorageExpiry

  /** Calls of InsertRows, flushPartitions, Select and removeExpiredPartitions. */
  datatype Event = Batch(rows: seq<Row>, now: int64) | Pass(outs: seq<FlushOutcome>, ok: bool) | Query(name: Name) | Expire(at: int)

  /** `logged`: a data directory comes with a log. */
  datatype Config = Config(duration: int, inMemory: bool, logged: bool)

  ghost predicate Transition(c: Config, s: StorageState, e: Event, s': StorageState) {
    match e
    case Batch(rows, now) => Readable(s.parts) && s' == InsertedRows(s, rows, now, c.duration).state
    case Pass(outs, ok) => FlushPass(s, c.inMemory, outs, ok, s')
    case Query(name) => OnlyTouched(s.parts, s'.parts, name) && s'.wal == s.wal
    case Expire(now) => s' == s.(parts := Purged(s.parts, now).parts)
  }

  /** Positive timestamps, and a batch that opens a head is newer than all before. */
  ghost predicate Admissible(c: Config, s: StorageState, e: Event) {
    e.Batch? ==>
      && AllPositive(e.rows) && e.now > 0
      && var a := WithActiveHead(s, c.duration);
         (a.parts[0].Blank() ==> Newer(e.rows, a.parts))
  }

  /** A serialized run: states[i] is the state before events[i]. */
  ghost predicate Run(c: Config, states: seq<StorageState>, events: seq<Event>) {
    && |states| == |events| + 1
    && states[0] == Start(c)
    && forall i | 0 <= i < |events| :: Transition(c, states[i], events[i], states[i + 1])
  }

  function Start(c: Config): StorageState {
    StorageState([MemPart(NO_ROWS, 0)],
                 if c.inMemory || !c.logged then WalState(true, map[], 0, 0) else WalState(false, map[0 := []], 0, 1))
  }

  // ----- Range order -----

  ghost predicate Healthy(s: StorageState) {
    Good(s) && AllFaithful(s.parts) && s.parts != [] && s.parts[0].MemPart?
  }

  lemma StartHealthy(c: Config)
    ensures Healthy(Start(c))
  {
    hide Sound;
    NoRowsSound();
  }

  lemma BatchKeepsHealthy(c: Config, s: StorageState, rows: seq<Row>, now: int64)
    requires Healthy(s) && c.duration >= 2 && Admissible(c, s, Batch(rows, now))
    ensures Readable(s.parts)
    ensures Healthy(InsertedRows(s, rows, now, c.duration).state)
  {
    hide Sound, Faithful, AllSound, ProperRanges, Ordered, OnlyHeadBlank, Newer, AllPositive, Ingested, Outdated, LowerBound, Appended, Readable;
    InsertKeepsOrderIff(s, rows, now, c.duration);
    var a := WithActiveHead(s, c.duration);
    ActiveHeadIsGood(s, c.duration);
    SoundSized(a.parts);
    SoundSized(s.parts);
    CascadeKeepsDisks(a, rows, now, 0);
  }

  /** A cascade touches memory partitions only. */
  lemma {:induction false} CascadeKeepsDisks(s: StorageState, rows: seq<Row>, now: int64, i: nat)
    requires Readable(s.parts)
    ensures var s' := Cascade(s, rows, now, i).state;
            |s'.parts| == |s.parts| && forall k | 0 <= k < |s.parts| ::
              if s.parts[k].DiskPart? then s'.parts[k] == s.parts[k] else s'.parts[k].MemPart? && s'.parts[k].segment == s.parts[k].segment
    ensures var w' := Cascade(s, rows, now, i).state.wal;
            w'.segments.Keys == s.wal.segments.Keys && w'.index == s.wal.index && w'.nop == s.wal.nop
    decreases WRITABLE_PARTITIONS - i
  {
    hide Ingested, Outdated, LowerBound, Appended;
    if i < |s.parts| && i < WRITABLE_PARTITIONS && rows != [] && s.parts[i].MemPart? {
      var p := s.parts[i];
      IngestedSized(p.m, rows, now);
      var s1 := StorageState(s.parts[i := p.(m := Ingested(p.m, rows, now))], Appended(s.wal, rows));
      AppendKeepsSegments(s.wal, rows);
      CascadeKeepsDisks(s1, Outdated(rows, LowerBound(p.m, rows)), now, i + 1);
    }
  }

  lemma AppendKeepsSegments(w: WalState, rows: seq<Row>)
    ensures var w' := Appended(w, rows);
            w'.segments.Keys == w.segments.Keys && w'.index == w.index && w'.nop == w.nop
  {
  }

  lemma PassKeepsHealthy(c: Config, s: StorageState, outs: seq<FlushOutcome>, ok: bool, s': StorageState)
    requires Healthy(s) && FlushPass(s, c.inMemory, outs, ok, s')
    ensures Healthy(s')
  {
    hide Sound, Faithful, Swept, Sweepable, FlushedOrKept, NoTwin;
    var f := Front(s.parts);
    var kept, rest := s.parts[..f], s.parts[f..];
    assert s.parts == kept + rest;
    GoodIsSweepable(s, f);
    if c.inMemory {
      SweepableNoTwin(kept, rest, true);
      SweepDrops(kept, rest, s.wal, outs, ok, s');
      DropsKeepGood(kept, rest);
      SweepableIsGood(kept, Disks(rest), s'.wal);
    } else {
      SweepSwaps(kept, rest, s.wal, outs, ok, s');
      assert s'.parts == kept + s'.parts[f..];
      SweepableIsGood(kept, s'.parts[f..], s'.wal);
    }
  }

  lemma {:induction false} DropsKeepGood(kept: seq<Part>, rest: seq<Part>)
    requires Sweepable(kept, rest)
    ensures Sweepable(kept, Disks(rest))
    decreases |rest|
  {
    hide Sweepable;
    if rest != [] {
      var p, later := rest[0], rest[1..];
      assert rest == [p] + later;
      if p.DiskPart? {
        GoodSplit(kept, p, later);
        DropsKeepGood(kept + [p], later);
        SweepableJoin(kept, p, Disks(later));
      } else {
        GoodDrop(kept, p, later);
        DropsKeepGood(kept, later);
        assert [] + Disks(later) == Disks(later);
      }
    }
  }

  lemma QueryKeepsHealthy(s: StorageState, name: Name, s': StorageState)
    requires Healthy(s) && OnlyTouched(s.parts, s'.parts, name)
    ensures Healthy(s')
  {
    hide Sound, Faithful;
    forall i | 0 <= i < |s.parts|
      ensures s'.parts[i].MemPart? == s.parts[i].MemPart? && (s.parts[i].DiskPart? ==> s'.parts[i] == s.parts[i])
      ensures s'.parts[i].MinT() == s.parts[i].MinT() && s'.parts[i].MaxT() == s.parts[i].MaxT()
      ensures s'.parts[i].Blank() == s.parts[i].Blank() && (s'.parts[i].MemPart? ==> Sound(s'.parts[i].m))
    {
      if s.parts[i].MemPart? {
        TouchKeepsSound(s.parts[i].m, name);
      }
    }
  }

  /** Expiry takes exactly the expired partitions out and keeps the rest in order. */
  lemma ExpireKeepsHealthy(s: StorageState, now: int)
    requires Healthy(s)
    ensures Purged(s.parts, now) == Purge(Unexpired(s.parts, now), true)
    ensures Healthy(s.(parts := Unexpired(s.parts, now)))
  {
    hide Sound, AllFaithful, AllSound, ProperRanges, Ordered, Sweepable, NoLiveTwin;
    var head, tail := s.parts[0], s.parts[1..];
    GoodIsSweepable(s, 1);
    assert s.parts == [head] + tail && s.parts[..1] == [head];
    ExpiredCons([], head, tail, now);
    UnexpiredInOrder([head], tail, now);
    RemovesExpired([head], tail, now);
    SweepableIsGood([head], Unexpired(tail, now), s.wal);
  }

  /** In every run whose fresh heads start with newer rows, all states are in range
      order and all flushed files read back. */
  lemma {:induction false} RunStaysHealthy(c: Config, states: seq<StorageState>, events: seq<Event>, n: nat)
    requires Run(c, states, events) && c.duration >= 2 && n <= |events|
    requires forall i | 0 <= i < |events| :: Admissible(c, states[i], events[i])
    ensures Healthy(states[n])
  {
    hide Healthy, Admissible, FlushPass, InsertedRows, Readable, OnlyTouched, Purged;
    if n == 0 {
      StartHealthy(c);
    } else {
      RunStaysHealthy(c, states, events, n - 1);
      assert Transition(c, states[n - 1], events[n - 1], states[n - 1 + 1]);
      match events[n - 1] {
        case Batch(rows, now) => BatchKeepsHealthy(c, states[n - 1], rows, now);
        case Pass(outs, ok) => PassKeepsHealthy(c, states[n - 1], outs, ok, states[n]);
        case Query(name) => QueryKeepsHealthy(states[n - 1], name, states[n]);
        case Expire(now) => ExpireKeepsHealthy(states[n - 1], now);
      }
    }
  }

  /** So in every such run every query returns the naive scan, in ascending order. */
  lemma RunServesQueries(c: Config, states: seq<StorageState>, events: seq<Event>, n: nat, name: Name, start: int, end: int, now: int)
    requires Run(c, states, events) && c.duration >= 2 && n <= |events| && start <= end
    requires forall i | 0 <= i < |events| :: Admissible(c, states[i], events[i])
    ensures Readable(states[n].parts)
    ensures var all := NaiveScan(states[n].parts, name, start, end, now);
            SelectFrom(states[n].parts, name, start, end, now, []) == Found(all) && Sorted(all)
  {
    hide Transition, Admissible, AllSound, AllFaithful, ProperRanges, Ordered, NaiveScan, SelectFrom, Sensible, EndsDescend, NoneFromZero;
    RunStaysHealthy(c, states, events, n);
    var parts := states[n].parts;
    OrderedDescends(parts);
    SelectIsNaive(parts, name, start, end, now, []);
    NaiveSorted(parts, name, start, end, now);
    var all := NaiveScan(parts, name, start, end, now);
    assert all + [] == all;
  }
}
