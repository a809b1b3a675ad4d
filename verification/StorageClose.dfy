/** Close: two fresh heads push every partition behind the writable ones, a flush
    pass writes them all to disk, and only then the log is thrown away. */
module StorageClose {
  import opened Words
  import opened Metric
  import opened Rows
  import opened WalSegments
  import opened Memory
  import opened Disk
  import opened StorageModel
  import opened StorageSelect
  import opened StorageFlush
  import opened StorageExpiry
  import opened StorageRuns
  import opened StorageConservation

  function ReadOnly(s: StorageState): StorageState {
    WithNewHead(WithNewHead(s))
  }

  ghost predicate BlankPair(parts: seq<Part>) {
    |parts| == 2 && forall i | 0 <= i < 2 :: parts[i].Blank() && Sound(parts[i].m)
  }

  // ----- A blank partition leaves no file -----

  lemma BlankIsEmpty(m: MemState, n: Name)
    requires Sound(m) && !m.started && n in m.metrics
    ensures m.metrics[n] == NO_POINTS
  {
    hide Content, Ascending;
    var mt := m.metrics[n];
    if mt.points != [] {
      HeldPoint(m.metrics, n, 0);
    }
    assert Consistent(mt);
  }

  lemma BlankFlushes(m: MemState, o: FlushOutcome)
    requires Sound(m) && !m.started && FlushedAs(m, o)
    ensures o.disk.data == [] && o.sorted == m && m.minT == 0 && Content(m.metrics) == multiset{}
  {
    hide Content, Indexed, Consistent, Sorted;
    forall n | n in m.metrics
      ensures m.metrics[n].size == 0 && o.sorted.metrics[n] == m.metrics[n]
    {
      BlankIsEmpty(m, n);
    }
    assert o.sorted.metrics == m.metrics;
  }

  /** A blank old head is removed, or rather the newest blank partition in its stead. */
  lemma SweepPastBlank(b1: Part, b2: Part, h: Part, tail: seq<Part>, wal: WalState, outs: seq<FlushOutcome>, ok: bool, final: StorageState)
    requires b1.Blank() && Sound(b1.m) && h.Blank() && Sound(h.m)
    requires Swept([b1, b2], [h] + tail, wal, false, outs, ok, final)
    ensures outs != [] && Swept([b2, h], tail, wal, false, outs[1..], ok, final)
  {
    hide Content, FlushedAs, Shortened, AllConsistent, AllSized;
    var rest := [h] + tail;
    assert rest[0] == h && rest[1..] == tail;
    BlankFlushes(h.m, outs[0]);
    var here := [b1, b2] + [h];
    assert here == [b1, b2, h];
    assert FirstStart(here, 0) == 0;
    assert WithoutFirst(here, 0) == [b2, h];
  }

  // ----- Everything is on disk -----

  lemma SweepToDisk(kept: seq<Part>, rest: seq<Part>, wal: WalState, outs: seq<FlushOutcome>, ok: bool, final: StorageState)
    requires BlankPair(kept) && Sweepable(kept, rest) && Swept(kept, rest, wal, false, outs, ok, final)
    requires wal.nop || MemCount(rest) <= |wal.segments|
    ensures ok && |final.parts| >= 2 && final.parts[..2] == kept && AllOnDisk(final.parts[2..])
    ensures Sweepable(kept, final.parts[2..]) && Total(final.parts[2..]) == Total(rest)
  {
    hide Swept, Total, FlushedOrKept, AllOnDisk;
    SweepSwaps(kept, rest, wal, outs, ok, final);
    RestIsSound(kept, rest);
    RestConserved(rest, final.parts[2..]);
  }

  lemma RestIsSound(kept: seq<Part>, rest: seq<Part>)
    requires Sweepable(kept, rest)
    ensures AllSound(rest) && forall i | 0 <= i < |rest| :: 0 < rest[i].MinT()
  {
    hide Sound;
    assert forall i | 0 <= i < |rest| :: rest[i] == (kept + rest)[|kept| + i];
  }

  lemma FreshHeadsSweepable(s: StorageState, kept: seq<Part>, f: nat)
    requires Good(s) && AllFaithful(s.parts) && BlankPair(kept) && f <= |s.parts|
    requires f == 0 && s.parts != [] ==> !s.parts[0].Blank()
    ensures Sweepable(kept, s.parts[f..])
  {
    hide Sound, Faithful;
    var rest := s.parts[f..];
    assert forall i | 0 <= i < |rest| :: rest[i] == s.parts[f + i];
  }

  // ----- There is a segment to remove for every partition to flush -----

  ghost predicate Budgeted(s: StorageState) {
    !s.wal.nop ==> (forall k | k in s.wal.segments :: k < s.wal.index) && MemCount(s.parts) <= |s.wal.segments|
  }

  lemma HeadKeepsBudget(s: StorageState)
    requires Budgeted(s)
    ensures Budgeted(WithNewHead(s))
  {
    var s' := WithNewHead(s);
    assert s'.parts[1..] == s.parts;
    if !s.wal.nop {
      assert s.wal.index !in s.wal.segments;
      assert s'.wal.segments.Keys == s.wal.segments.Keys + {s.wal.index};
    }
  }

  lemma {:induction false} MemCountSame(a: seq<Part>, b: seq<Part>)
    requires |a| == |b| && forall i | 0 <= i < |a| :: a[i].MemPart? == b[i].MemPart?
    ensures MemCount(a) == MemCount(b)
    decreases |a|
  {
    if a != [] {
      MemCountSame(a[1..], b[1..]);
    }
  }

  lemma {:induction false} MemCountConcat(a: seq<Part>, b: seq<Part>)
    ensures MemCount(a + b) == MemCount(a) + MemCount(b)
    decreases |a|
  {
    if a == [] {
      assert a + b == b;
    } else {
      assert (a + b)[1..] == a[1..] + b;
      MemCountConcat(a[1..], b);
    }
  }

  lemma {:induction false} NoneInMemory(parts: seq<Part>)
    requires AllOnDisk(parts)
    ensures MemCount(parts) == 0
    decreases |parts|
  {
    if parts != [] {
      NoneInMemory(parts[1..]);
    }
  }

  lemma {:induction false} UnexpiredCount(parts: seq<Part>, now: int)
    ensures MemCount(Unexpired(parts, now)) == MemCount(parts)
    decreases |parts|
  {
    if parts != [] {
      UnexpiredCount(parts[1..], now);
      MemCountConcat(if Expired(parts[0], now) then [] else [parts[0]], Unexpired(parts[1..], now));
    }
  }

  lemma BatchKeepsBudget(s: StorageState, rows: seq<Row>, now: int64, duration: int)
    requires Budgeted(s) && Readable(s.parts)
    ensures Budgeted(InsertedRows(s, rows, now, duration).state)
  {
    hide Cascade, MemCount;
    HeadKeepsBudget(s);
    var a := WithActiveHead(s, duration);
    CascadeKeepsDisks(a, rows, now, 0);
    MemCountSame(a.parts, Cascade(a, rows, now, 0).state.parts);
    assert |a.wal.segments.Keys| == |Cascade(a, rows, now, 0).state.wal.segments.Keys|;
  }

  lemma PassKeepsBudget(s: StorageState, outs: seq<FlushOutcome>, ok: bool, s': StorageState)
    requires Budgeted(s) && Healthy(s) && FlushPass(s, false, outs, ok, s')
    ensures ok && Budgeted(s')
  {
    hide Good, AllFaithful, Swept, Sweepable, FlushedOrKept, MemCount, AllOnDisk;
    var f := Front(s.parts);
    var kept, rest := s.parts[..f], s.parts[f..];
    GoodIsSweepable(s, f);
    SweepSwaps(kept, rest, s.wal, outs, ok, s');
    MemCountConcat(kept, rest);
    assert kept + rest == s.parts;
    if !s.wal.nop {
      NoneInMemory(s'.parts[f..]);
      MemCountConcat(kept, s'.parts[f..]);
      assert kept + s'.parts[f..] == s'.parts;
    }
  }

  /** Whatever the order of segment names, in every run the log has a segment left for
      every memory partition, and every flush pass succeeds. */
  lemma {:induction false} RunStaysBudgeted(c: Config, states: seq<StorageState>, events: seq<Event>, n: nat)
    requires Run(c, states, events) && c.duration >= 2 && !c.inMemory && n <= |events|
    requires forall i | 0 <= i < |events| :: Admissible(c, states[i], events[i])
    ensures Budgeted(states[n]) && forall i | 0 <= i < n && events[i].Pass? :: events[i].ok
  {
    hide Healthy, Admissible, FlushPass, InsertedRows, Readable, OnlyTouched, Purged, Budgeted;
    if n == 0 {
      StartBudgeted(c);
    } else {
      RunStaysBudgeted(c, states, events, n - 1);
      RunStaysHealthy(c, states, events, n - 1);
      var s, s' := states[n - 1], states[n - 1 + 1];
      assert Transition(c, s, events[n - 1], s');
      match events[n - 1] {
        case Batch(rows, now) => BatchKeepsBudget(s, rows, now, c.duration);
        case Pass(outs, ok) => PassKeepsBudget(s, outs, ok, s');
        case Query(name) => QueryKeepsBudget(s, name, s');
        case Expire(now) =>
          ExpireKeepsHealthy(s, now);
          ExpireKeepsBudget(s, now);
      }
    }
  }

  lemma StartBudgeted(c: Config)
    ensures Budgeted(Start(c))
  {
    assert Start(c).parts[1..] == [];
  }

  lemma QueryKeepsBudget(s: StorageState, name: Name, s': StorageState)
    requires Budgeted(s) && OnlyTouched(s.parts, s'.parts, name) && s'.wal == s.wal
    ensures Budgeted(s')
  {
    hide MemCount;
    MemCountSame(s.parts, s'.parts);
  }

  lemma ExpireKeepsBudget(s: StorageState, now: int)
    requires Budgeted(s)
    ensures Budgeted(s.(parts := Unexpired(s.parts, now)))
  {
    hide MemCount, Unexpired;
    UnexpiredCount(s.parts, now);
  }

  // ----- Close -----

  /** Closing a storage with a data directory leaves two blank partitions in front of
      disk partitions that hold every row there was: the log is not needed any more. */
  lemma CloseFlushesAll(s: StorageState, outs: seq<FlushOutcome>, ok: bool, s': StorageState)
    requires Healthy(s) && Budgeted(s) && FlushPass(ReadOnly(s), false, outs, ok, s')
    ensures ok && |s'.parts| >= 2 && BlankPair(s'.parts[..2]) && AllOnDisk(s'.parts[2..])
    ensures Sweepable(s'.parts[..2], s'.parts[2..])
    ensures Total(s'.parts[2..]) == Total(s.parts)
  {
    hide Good, AllFaithful, Swept, Sweepable, MemCount, Sound, Total, AllOnDisk, BlankPair;
    var r, h, tail := ReadOnly(s), s.parts[0], s.parts[1..];
    HeadKeepsBudget(s);
    HeadKeepsBudget(WithNewHead(s));
    var b1, b2 := r.parts[0], r.parts[1];
    assert s.parts == [h] + tail && r.parts == [b1, b2] + s.parts;
    assert r.parts[..2] == [b1, b2] && r.parts[2..] == s.parts;
    NoRowsSound();
    BlankPairOf(b1, b2);
    MemCountConcat([b1, b2], s.parts);
    if h.Blank() {
      HeadIsSound(s);
      SweepPastBlank(b1, b2, h, tail, r.wal, outs, ok, s');
      BlankPairOf(b2, h);
      MemCountConcat([h], tail);
      FreshHeadsSweepable(s, [b2, h], 1);
      SweepToDisk([b2, h], tail, r.wal, outs[1..], ok, s');
      TotalCons(h, tail);
      BlankHolds(h);
    } else {
      FreshHeadsSweepable(s, [b1, b2], 0);
      assert s.parts[0..] == s.parts;
      SweepToDisk([b1, b2], s.parts, r.wal, outs, ok, s');
    }
  }

  lemma BlankPairOf(a: Part, b: Part)
    requires a.Blank() && Sound(a.m) && b.Blank() && Sound(b.m)
    ensures BlankPair([a, b])
  {
    hide Sound;
  }

  lemma HeadIsSound(s: StorageState)
    requires Good(s) && s.parts != [] && s.parts[0].MemPart?
    ensures Sound(s.parts[0].m)
  {
    hide Sound;
  }

  lemma BlankHolds(p: Part)
    requires p.Blank() && Sound(p.m)
    ensures StoredIn(p) == multiset{}
  {
    hide Content;
  }

  /** Where Close ends when pass and expiry have succeeded. */
  function Closed(flushed: StorageState, now: int): StorageState {
    StorageState(Purged(flushed.parts, now).parts, Emptied(flushed.wal))
  }

  /** In every run with a data directory, closing the storage at any moment succeeds. It
      leaves two blank partitions and on disk exactly the rows that arrived, were not
      dropped and have not expired, and no row in the log. */
  lemma RunClosesSafely(c: Config, states: seq<StorageState>, events: seq<Event>, n: nat, outs: seq<FlushOutcome>, ok: bool, s': StorageState, now: int)
    requires Run(c, states, events) && c.duration >= 2 && !c.inMemory && n <= |events|
    requires forall i | 0 <= i < |events| :: Admissible(c, states[i], events[i])
    requires FlushPass(ReadOnly(states[n]), false, outs, ok, s')
    ensures forall i | 0 <= i < |states| :: states[i].parts != []
    ensures ok && |s'.parts| >= 2 && AllOnDisk(s'.parts[2..])
    ensures Total(s'.parts[2..]) + Dropped(c, states, events, n) == Arrived(events, n)
    ensures Purged(s'.parts, now) == Purge(s'.parts[..2] + Unexpired(s'.parts[2..], now), true)
    ensures var final := Closed(s', now);
            && |final.parts| >= 2 && BlankPair(final.parts[..2]) && AllOnDisk(final.parts[2..])
            && (final.wal.nop || final.wal.segments == map[])
            && Total(final.parts[2..]) + Total(ExpiredOf(s'.parts[2..], now)) + Dropped(c, states, events, n) == Arrived(events, n)
  {
    hide Run, Admissible, Healthy, Budgeted, FlushPass, Total, Dropped, Arrived, AllOnDisk, BlankPair, Sweepable, Purged, ReadOnly, Emptied, Unexpired, ExpiredOf;
    RunLength(c, states, events);
    RunStaysHealthy(c, states, events, n);
    RunStaysBudgeted(c, states, events, n);
    RunConserves(c, states, events, n);
    CloseFlushesAll(states[n], outs, ok, s');
    PurgesClosed(s'.parts, now);
    NothingLogged(s'.wal);
    var front, disks := s'.parts[..2], s'.parts[2..];
    var left := Unexpired(disks, now);
    assert (front + left)[..2] == front && (front + left)[2..] == left;
    UnexpiredOnDisk(disks, now);
    ExpireConserves(disks, now);
  }

  lemma {:induction false} UnexpiredOnDisk(parts: seq<Part>, now: int)
    requires AllOnDisk(parts)
    ensures AllOnDisk(Unexpired(parts, now))
    decreases |parts|
  {
    if parts != [] {
      UnexpiredOnDisk(parts[1..], now);
    }
  }

  lemma PurgesClosed(parts: seq<Part>, now: int)
    requires |parts| >= 2 && BlankPair(parts[..2]) && Sweepable(parts[..2], parts[2..])
    ensures Purged(parts, now) == Purge(parts[..2] + Unexpired(parts[2..], now), true)
  {
    hide Sound, Sweepable, RemovedAll, NoLiveTwin;
    var a, b, rest := parts[0], parts[1], parts[2..];
    assert parts == [a] + ([b] + rest) && parts[..2] == [a, b] && parts == parts[..2] + rest;
    assert parts[..2][0] == a && parts[..2][1] == b;
    ExpiredCons([], a, [b] + rest, now);
    ExpiredCons([], b, rest, now);
    UnexpiredInOrder(parts[..2], rest, now);
    RemovesExpired(parts[..2], rest, now);
  }
}
