/** When the head rolls over: it takes batches while it spans less than the partition
    duration, so every partition behind it spans at least that much. */
module StorageSpans {
  import opened Words
  import opened Rows
  import opened WalSegments
  import opened Memory
  import opened Disk
  import opened StorageModel
  import opened StorageSelect
  import opened StorageFlush
  import opened StorageExpiry
  import opened StorageRuns

  ghost predicate Wide(p: Part, duration: int) {
    p.Blank() || p.MaxT() - p.MinT() + 1 >= duration
  }

  /** Every started partition behind the head spans at least the duration. */
  ghost predicate WideBehind(parts: seq<Part>, duration: int) {
    forall i | 0 < i < |parts| :: Wide(parts[i], duration)
  }

  // ----- Batches -----

  lemma HeadRollsWide(s: StorageState, duration: int)
    requires WideBehind(s.parts, duration) && (s.parts != [] ==> s.parts[0].MemPart?)
    ensures WideBehind(WithActiveHead(s, duration).parts, duration)
  {
    ActiveHeadIff(s, duration);
    var e := WithActiveHead(s, duration);
    if e != s {
      assert forall i | 0 < i < |e.parts| :: e.parts[i] == e.parts[1..][i - 1];
    }
  }

  /** Taking rows never narrows a started partition. */
  lemma IngestWidens(m: MemState, rows: seq<Row>, now: int64)
    requires rows != [] && m.started && AllSized(m.metrics)
    ensures var m' := Ingested(m, rows, now); m'.started && m'.minT == m.minT && m'.maxT >= m.maxT
  {
    hide Stored, Accepted, NewestOf;
  }

  lemma {:induction false} CascadeWidens(s: StorageState, rows: seq<Row>, now: int64, i: nat, duration: int)
    requires Readable(s.parts) && OnlyHeadBlank(s.parts) && WideBehind(s.parts, duration)
    ensures WideBehind(Cascade(s, rows, now, i).state.parts, duration)
    decreases WRITABLE_PARTITIONS - i
  {
    hide Ingested, Outdated, LowerBound, Appended, AllSized;
    if i < |s.parts| && i < WRITABLE_PARTITIONS && rows != [] && s.parts[i].MemPart? {
      var p := s.parts[i];
      IngestedSized(p.m, rows, now);
      IngestBounds(p.m, rows, now);
      if i > 0 {
        IngestWidens(p.m, rows, now);
      }
      var s1 := StorageState(s.parts[i := p.(m := Ingested(p.m, rows, now))], Appended(s.wal, rows));
      CascadeWidens(s1, Outdated(rows, LowerBound(p.m, rows)), now, i + 1, duration);
    }
  }

  lemma BatchKeepsWide(s: StorageState, rows: seq<Row>, now: int64, duration: int)
    requires Healthy(s) && duration >= 2 && WideBehind(s.parts, duration)
    ensures Readable(s.parts) && WideBehind(InsertedRows(s, rows, now, duration).state.parts, duration)
  {
    hide Sound, Cascade, WithActiveHead, ProperRanges, Ordered, AllFaithful, WideBehind;
    SoundSized(s.parts);
    ActiveHeadIsGood(s, duration);
    SoundSized(WithActiveHead(s, duration).parts);
    HeadRollsWide(s, duration);
    CascadeWidens(WithActiveHead(s, duration), rows, now, 0, duration);
  }

  // ----- Passes and expiry -----

  ghost predicate AllWide(parts: seq<Part>, duration: int) {
    forall i | 0 <= i < |parts| :: Wide(parts[i], duration)
  }

  lemma WideSplit(kept: seq<Part>, rest: seq<Part>, duration: int)
    requires kept != []
    ensures WideBehind(kept + rest, duration) <==> WideBehind(kept, duration) && AllWide(rest, duration)
  {
    hide Wide;
    var parts := kept + rest;
    assert forall i | 0 <= i < |kept| :: parts[i] == kept[i];
    assert forall i | 0 <= i < |rest| :: parts[|kept| + i] == rest[i];
    if WideBehind(parts, duration) {
      forall i | 0 <= i < |rest|
        ensures Wide(rest[i], duration)
      {
        assert Wide(parts[|kept| + i], duration);
      }
    }
  }

  lemma {:induction false} DisksWide(rest: seq<Part>, duration: int)
    requires AllWide(rest, duration)
    ensures AllWide(Disks(rest), duration)
    decreases |rest|
  {
    hide Wide;
    if rest != [] {
      DisksWide(rest[1..], duration);
    }
  }

  lemma {:induction false} UnexpiredWide(rest: seq<Part>, now: int, duration: int)
    requires AllWide(rest, duration)
    ensures AllWide(Unexpired(rest, now), duration)
    decreases |rest|
  {
    hide Wide, Expired;
    if rest != [] {
      UnexpiredWide(rest[1..], now, duration);
    }
  }

  lemma FlushedWide(rest: seq<Part>, rest': seq<Part>, duration: int)
    requires FlushedOrKept(rest, rest') && AllWide(rest, duration) && forall i | 0 <= i < |rest| :: !rest[i].Blank()
    ensures AllWide(rest', duration)
  {
    hide FlushedAs;
    forall i | 0 <= i < |rest'|
      ensures Wide(rest'[i], duration)
    {
      var p, q := rest[i], rest'[i];
      assert Wide(p, duration) && (FlushedInto(p, q) || q == p);
      if q != p {
        var o :| FlushedAs(p.m, o) && q.d == o.disk;
        SameRange(p.m, o);
      }
    }
  }

  lemma PassKeepsWide(c: Config, s: StorageState, outs: seq<FlushOutcome>, ok: bool, s': StorageState)
    requires Healthy(s) && FlushPass(s, c.inMemory, outs, ok, s') && WideBehind(s.parts, c.duration)
    ensures WideBehind(s'.parts, c.duration)
  {
    hide Sound, Faithful, Swept, WideBehind, AllWide, FlushedOrKept, NoTwin, Disks, ProperRanges, Ordered;
    var f := Front(s.parts);
    var kept, rest := s.parts[..f], s.parts[f..];
    assert s.parts == kept + rest;
    GoodIsSweepable(s, f);
    WideSplit(kept, rest, c.duration);
    if c.inMemory {
      SweepableNoTwin(kept, rest, true);
      SweepDrops(kept, rest, s.wal, outs, ok, s');
      DisksWide(rest, c.duration);
      WideSplit(kept, Disks(rest), c.duration);
    } else {
      SweepSwaps(kept, rest, s.wal, outs, ok, s');
      var rest' := s'.parts[f..];
      assert s'.parts == kept + rest';
      FlushedWide(rest, rest', c.duration);
      WideSplit(kept, rest', c.duration);
    }
  }

  lemma ExpireKeepsWide(s: StorageState, now: int, duration: int)
    requires Healthy(s) && WideBehind(s.parts, duration)
    ensures WideBehind(Unexpired(s.parts, now), duration)
  {
    hide Good, AllFaithful, WideBehind, AllWide, Unexpired, ExpiredOf;
    var head, tail := s.parts[0], s.parts[1..];
    assert s.parts == [head] + tail;
    ExpiredCons([], head, tail, now);
    WideSplit([head], tail, duration);
    UnexpiredWide(tail, now, duration);
    WideSplit([head], Unexpired(tail, now), duration);
  }

  lemma QueryKeepsWide(parts: seq<Part>, name: Name, parts': seq<Part>, duration: int)
    requires OnlyTouched(parts, parts', name) && WideBehind(parts, duration)
    ensures WideBehind(parts', duration)
  {
    forall i | 0 < i < |parts'|
      ensures Wide(parts'[i], duration)
    {
      assert Wide(parts[i], duration);
    }
  }

  // ----- Runs -----

  /** In every admissible run each started partition behind the head spans at least the
      duration, and the head that a batch is offered to spans less. */
  lemma {:induction false} RunRollsOver(c: Config, states: seq<StorageState>, events: seq<Event>, n: nat)
    requires Run(c, states, events) && c.duration >= 2 && n <= |events|
    requires forall i | 0 <= i < |events| :: Admissible(c, states[i], events[i])
    ensures forall i | 0 < i < |states[n].parts| && !states[n].parts[i].Blank() ::
              states[n].parts[i].MaxT() - states[n].parts[i].MinT() + 1 >= c.duration
    ensures n < |events| && events[n].Batch? ==>
      var e := WithActiveHead(states[n], c.duration);
      && e.parts != [] && e.parts[0].MemPart? && e.parts[0].m.maxT - e.parts[0].m.minT + 1 < c.duration
      && forall i | 0 < i < |e.parts| && !e.parts[i].Blank() :: e.parts[i].MaxT() - e.parts[i].MinT() + 1 >= c.duration
  {
    hide Healthy, Admissible, Transition, WithActiveHead, Wide;
    RunStaysWide(c, states, events, n);
    RunStaysHealthy(c, states, events, n);
    HealthyHead(states[n]);
    HeadRollsWide(states[n], c.duration);
    ActiveHeadIff(states[n], c.duration);
    WideMeans(states[n].parts, c.duration);
    WideMeans(WithActiveHead(states[n], c.duration).parts, c.duration);
  }

  lemma HealthyHead(s: StorageState)
    requires Healthy(s)
    ensures s.parts != [] && s.parts[0].MemPart?
  {
  }

  lemma WideMeans(parts: seq<Part>, duration: int)
    requires WideBehind(parts, duration)
    ensures forall i | 0 < i < |parts| && !parts[i].Blank() :: parts[i].MaxT() - parts[i].MinT() + 1 >= duration
  {
    forall i | 0 < i < |parts| && !parts[i].Blank()
      ensures parts[i].MaxT() - parts[i].MinT() + 1 >= duration
    {
      assert Wide(parts[i], duration);
    }
  }

  lemma {:induction false} RunStaysWide(c: Config, states: seq<StorageState>, events: seq<Event>, n: nat)
    requires Run(c, states, events) && c.duration >= 2 && n <= |events|
    requires forall i | 0 <= i < |events| :: Admissible(c, states[i], events[i])
    ensures WideBehind(states[n].parts, c.duration)
  {
    hide Healthy, Admissible, FlushPass, InsertedRows, Readable, OnlyTouched, Purged, Wide;
    if n > 0 {
      RunStaysWide(c, states, events, n - 1);
      RunStaysHealthy(c, states, events, n - 1);
      var s := states[n - 1];
      assert Transition(c, s, events[n - 1], states[n - 1 + 1]);
      match events[n - 1] {
        case Batch(rows, now) => BatchKeepsWide(s, rows, now, c.duration);
        case Pass(outs, ok) => PassKeepsWide(c, s, outs, ok, states[n]);
        case Query(name) => QueryKeepsWide(s.parts, name, states[n].parts, c.duration);
        case Expire(at) =>
          ExpireKeepsHealthy(s, at);
          ExpireKeepsWide(s, at, c.duration);
      }
    }
  }
}
