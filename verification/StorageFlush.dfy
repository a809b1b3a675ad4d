/** flushPartitions as a sweep over the list: everything behind the writable
    partitions is swapped for its disk form, or dropped in the in-memory mode. */
module StorageFlush {
  import opened GorillaFormat
  import opened GorillaRoundTrip
  import opened Metric
  import opened Rows
  import opened WalSegments
  import opened Memory
  import opened Disk
  import opened StorageModel
  import opened StorageSelect

  // ----- One partition -----

  /** Flushing leaves the partition's buffers sorted and yields a disk partition. */
  datatype FlushOutcome = FlushOutcome(sorted: MemState, disk: DiskPartition)

  ghost predicate FlushedAs(m: MemState, o: FlushOutcome) {
    && o.sorted == m.(metrics := o.sorted.metrics)
    && o.sorted.metrics.Keys == m.metrics.Keys
    && (forall n | n in m.metrics :: BufferSorted(m.metrics[n], o.sorted.metrics[n]))
    && o.disk.meta.minTs == m.minT && o.disk.meta.maxTs == m.maxT && o.disk.meta.numPoints == m.numPoints
    && o.disk.meta.metrics.Keys == m.metrics.Keys
    && (forall n | n in m.metrics :: o.disk.meta.metrics[n].name == n)
    && (forall n | n in m.metrics :: Indexed(o.disk.data, o.disk.meta.metrics[n], o.sorted.metrics[n]))
    && (o.disk.data == [] <==> forall n | n in m.metrics :: m.metrics[n].size == 0)
  }

  /** The files carry the time of the pass and the storage's retention. */
  ghost predicate Dated(outs: seq<FlushOutcome>, now: int, retention: int) {
    forall i | 0 <= i < |outs| :: outs[i].disk.meta.createdAt == now && outs[i].disk.retention == retention
  }

  lemma DatedNone(now: int, retention: int)
    ensures Dated([], now, retention)
  {
  }

  lemma DatedConcat(a: seq<FlushOutcome>, b: seq<FlushOutcome>, now: int, retention: int)
    requires Dated(a, now, retention) && Dated(b, now, retention)
    ensures Dated(a + b, now, retention)
  {
  }

  /** The flushed form of a partition with positive timestamps reads back soundly. */
  lemma FlushedIsFaithful(m: MemState, o: FlushOutcome)
    requires Sound(m) && m.started && 0 < m.minT && FlushedAs(m, o)
    ensures Faithful(o.disk) && o.disk.data != []
  {
    hide Content, Indexed, BufferSorted, Consistent, MaxHeld, ReachesMax, FaithfulEntry, SeriesAt, Within, AllSized;
    forall n | n in o.disk.meta.metrics
      ensures FaithfulEntry(o.disk, n)
    {
      PointsWithin(m, n);
      EntryIsFaithful(o.disk, n, m.metrics[n], o.sorted.metrics[n]);
    }
    var n := NewestFiled(m, o);
    if forall n | n in m.metrics :: m.metrics[n].size == 0 {
      AllEmptyNoContent(m.metrics);
    }
  }

  /** The newest row is in the file. */
  lemma NewestFiled(m: MemState, o: FlushOutcome) returns (n: Name)
    requires Sound(m) && m.started && 0 < m.minT && FlushedAs(m, o)
    ensures n in o.disk.meta.metrics && ReachesMax(o.disk, n)
  {
    hide Content, Indexed, BufferSorted, Consistent, SeriesAt, Within, AllSized;
    assert MaxHeld(m);
    var r :| r in Content(m.metrics) && r.point.ts == m.maxT;
    n := r.name;
    ContentCount(m.metrics, r);
    PointsWithin(m, n);
    var s := EntrySeries(o.disk, n, m.metrics[n], o.sorted.metrics[n]);
    assert r.point in multiset(s);
    var i :| 0 <= i < |s| && s[i] == r.point;
  }

  lemma PointsWithin(m: MemState, n: Name)
    requires Sound(m) && n in m.metrics
    ensures Within(m.metrics[n].points, m.minT, m.maxT) && Within(m.metrics[n].outOfOrder, m.minT, m.maxT)
  {
    hide Content, Consistent, MaxHeld;
    forall i | 0 <= i < |m.metrics[n].points|
      ensures m.minT <= m.metrics[n].points[i].ts <= m.maxT
    {
      HeldPoint(m.metrics, n, i);
      assert Row(n, m.metrics[n].points[i]) in Content(m.metrics);
    }
    forall i | 0 <= i < |m.metrics[n].outOfOrder|
      ensures m.minT <= m.metrics[n].outOfOrder[i].ts <= m.maxT
    {
      HeldBuffered(m.metrics, n, i);
      assert Row(n, m.metrics[n].outOfOrder[i]) in Content(m.metrics);
    }
  }

  lemma HeldBuffered(ms: map<Name, MetricState>, name: Name, i: nat)
    requires name in ms && i < |ms[name].outOfOrder|
    ensures Row(name, ms[name].outOfOrder[i]) in Content(ms)
  {
    hide Content;
    ContentSplit(ms, name);
    assert Tagged(name, ms[name].outOfOrder)[i] == Row(name, ms[name].outOfOrder[i]);
  }

  lemma {:induction false} AllEmptyNoContent(ms: map<Name, MetricState>)
    requires AllConsistent(ms) && forall n | n in ms :: ms[n].size == 0
    ensures Content(ms) == multiset{}
    decreases |ms|
  {
    if ms != map[] {
      var n :| n in ms;
      ContentSplit(ms, n);
      assert ms[n] == NO_POINTS;
      RowsOfNone(n);
      AllEmptyNoContent(ms - {n});
    }
  }

  /** An entry decodes to the points of its metric, sorted. */
  lemma EntrySeries(d: DiskPartition, n: Name, m: MetricState, m': MetricState) returns (s: seq<Point>)
    requires n in d.meta.metrics && Consistent(m) && BufferSorted(m, m') && Indexed(d.data, d.meta.metrics[n], m')
    requires 0 < d.meta.minTs
    requires Within(m.points, d.meta.minTs, d.meta.maxTs) && Within(m.outOfOrder, d.meta.minTs, d.meta.maxTs)
    ensures SeriesAt(d.data, d.meta.metrics[n].offset, d.meta.metrics[n].numPoints) == Points(s)
    ensures Sorted(s) && Within(s, d.meta.minTs, d.meta.maxTs) && multiset(s) == multiset(m.points) + multiset(m.outOfOrder)
  {
    hide SeriesAt, HoldsAt, Merge, Encodable, Sorted, Ascending, Within;
    s := Merge(m'.points, m'.outOfOrder);
    AscendingIsSorted(m.points);
    MergeSorted(m'.points, m'.outOfOrder);
    MergeLength(m'.points, m'.outOfOrder);
    WithinMerged(s, m.points, m.outOfOrder, d.meta.minTs, d.meta.maxTs);
    NonZeroSeries(s, d.meta.minTs, d.meta.maxTs);
    HoldsAtDecodes(d.data, d.meta.metrics[n].offset, s);
  }

  lemma EntryIsFaithful(d: DiskPartition, n: Name, m: MetricState, m': MetricState)
    requires n in d.meta.metrics && Consistent(m) && BufferSorted(m, m') && Indexed(d.data, d.meta.metrics[n], m')
    requires 0 < d.meta.minTs
    requires Within(m.points, d.meta.minTs, d.meta.maxTs) && Within(m.outOfOrder, d.meta.minTs, d.meta.maxTs)
    ensures FaithfulEntry(d, n)
  {
    hide SeriesAt, Sorted, Within, Consistent, BufferSorted, Indexed;
    var s := EntrySeries(d, n, m, m');
  }

  lemma NonZeroSeries(ps: seq<Point>, lo: int, hi: int)
    requires Within(ps, lo, hi) && 0 < lo
    ensures Encodable(ps)
  {
  }

  lemma WithinMerged(all: seq<Point>, ps: seq<Point>, os: seq<Point>, lo: int, hi: int)
    requires multiset(all) == multiset(ps) + multiset(os)
    requires Within(ps, lo, hi) && Within(os, lo, hi)
    ensures Within(all, lo, hi)
  {
    forall i | 0 <= i < |all|
      ensures lo <= all[i].ts <= hi
    {
      assert all[i] in multiset(all);
      if all[i] in multiset(ps) {
        assert all[i] in ps;
      } else {
        assert all[i] in multiset(os);
        assert all[i] in os;
      }
    }
  }

  // ----- The sweep -----

  /** The first partition that starts at t, as the list's remove and swap find it. */
  function FirstStart(parts: seq<Part>, t: int): (k: nat)
    ensures k <= |parts|
    ensures k < |parts| ==> parts[k].MinT() == t
    ensures forall i | 0 <= i < k :: parts[i].MinT() != t
  {
    if parts == [] || parts[0].MinT() == t then 0 else 1 + FirstStart(parts[1..], t)
  }

  function WithoutFirst(parts: seq<Part>, t: int): seq<Part> {
    var k := FirstStart(parts, t);
    if k < |parts| then parts[..k] + parts[k + 1..] else parts
  }

  function WithFirst(parts: seq<Part>, t: int, q: Part): seq<Part> {
    var k := FirstStart(parts, t);
    if k < |parts| then parts[k := q] else parts
  }

  /** The iterator has passed what is now `kept` and will still visit `rest`. */
  ghost predicate Swept(kept: seq<Part>, rest: seq<Part>, wal: WalState, inMemory: bool, outs: seq<FlushOutcome>, ok: bool, final: StorageState)
    decreases |rest|
  {
    if rest == [] then outs == [] && ok && final == StorageState(kept, wal)
    else
      var p, later := rest[0], rest[1..];
      if p.DiskPart? then Swept(kept + [p], later, wal, inMemory, outs, ok, final)
      else if inMemory then Swept(WithoutFirst(kept + [p], p.MinT()), later, wal, inMemory, outs, ok, final)
      else
        && outs != [] && FlushedAs(p.m, outs[0])
        && var here := kept + [p.(m := outs[0].sorted)];
           if outs[0].disk.data == [] then
             Swept(WithoutFirst(here, p.MinT()), later, wal, inMemory, outs[1..], ok, final)
           else
             var there := WithFirst(here, p.MinT(), DiskPart(outs[0].disk));
             if !wal.nop && wal.segments == map[] then outs == [outs[0]] && !ok && final == StorageState(there + later, wal)
             else exists wal' :: Shortened(wal, wal') && Swept(there, later, wal', inMemory, outs[1..], ok, final)
  }

  function Front(parts: seq<Part>): nat {
    if |parts| < WRITABLE_PARTITIONS then |parts| else WRITABLE_PARTITIONS
  }

  ghost predicate FlushPass(s: StorageState, inMemory: bool, outs: seq<FlushOutcome>, ok: bool, s': StorageState) {
    Swept(s.parts[..Front(s.parts)], s.parts[Front(s.parts)..], s.wal, inMemory, outs, ok, s')
  }

  // ----- The sweep, one partition at a time -----

  /** A sweep from (kept, rest, wal) that comes by (kept', rest', wal') has flushed `outs` so far. */
  ghost predicate Leads(kept: seq<Part>, rest: seq<Part>, wal: WalState, inMemory: bool, outs: seq<FlushOutcome>,
                        kept': seq<Part>, rest': seq<Part>, wal': WalState)
  {
    forall more, ok, final :: Swept(kept', rest', wal', inMemory, more, ok, final) ==> Swept(kept, rest, wal, inMemory, outs + more, ok, final)
  }

  lemma LeadsNowhere(kept: seq<Part>, rest: seq<Part>, wal: WalState, inMemory: bool)
    ensures Leads(kept, rest, wal, inMemory, [], kept, rest, wal)
  {
    hide Swept;
    assert forall more: seq<FlushOutcome> :: [] + more == more;
  }

  lemma LeadsOn(kept: seq<Part>, rest: seq<Part>, wal: WalState, inMemory: bool, outs: seq<FlushOutcome>,
                kept': seq<Part>, rest': seq<Part>, wal': WalState, outs': seq<FlushOutcome>,
                kept'': seq<Part>, rest'': seq<Part>, wal'': WalState)
    requires Leads(kept, rest, wal, inMemory, outs, kept', rest', wal')
    requires Leads(kept', rest', wal', inMemory, outs', kept'', rest'', wal'')
    ensures Leads(kept, rest, wal, inMemory, outs + outs', kept'', rest'', wal'')
  {
    hide Swept;
    assert forall more: seq<FlushOutcome> :: (outs + outs') + more == outs + (outs' + more);
  }

  lemma LeadsPastDisk(kept: seq<Part>, rest: seq<Part>, wal: WalState, inMemory: bool)
    requires rest != [] && rest[0].DiskPart?
    ensures Leads(kept, rest, wal, inMemory, [], kept + [rest[0]], rest[1..], wal)
  {
    hide FlushedAs, Shortened;
    assert forall more: seq<FlushOutcome> :: [] + more == more;
  }

  lemma LeadsPastDropped(kept: seq<Part>, rest: seq<Part>, wal: WalState)
    requires rest != [] && rest[0].MemPart?
    ensures Leads(kept, rest, wal, true, [], WithoutFirst(kept + [rest[0]], rest[0].MinT()), rest[1..], wal)
  {
    hide FlushedAs, Shortened, WithoutFirst;
    assert forall more: seq<FlushOutcome> :: [] + more == more;
  }

  lemma LeadsPastEmpty(kept: seq<Part>, rest: seq<Part>, wal: WalState, o: FlushOutcome)
    requires rest != [] && rest[0].MemPart? && FlushedAs(rest[0].m, o) && o.disk.data == []
    ensures var p := rest[0];
            Leads(kept, rest, wal, false, [o], WithoutFirst(kept + [p.(m := o.sorted)], p.MinT()), rest[1..], wal)
  {
    hide FlushedAs, Shortened, WithoutFirst;
    assert forall more: seq<FlushOutcome> :: ([o] + more)[0] == o && ([o] + more)[1..] == more;
  }

  lemma LeadsPastSwapped(kept: seq<Part>, rest: seq<Part>, wal: WalState, o: FlushOutcome, wal': WalState)
    requires rest != [] && rest[0].MemPart? && FlushedAs(rest[0].m, o) && o.disk.data != []
    requires (wal.nop || wal.segments != map[]) && Shortened(wal, wal')
    ensures var p := rest[0];
            Leads(kept, rest, wal, false, [o], WithFirst(kept + [p.(m := o.sorted)], p.MinT(), DiskPart(o.disk)), rest[1..], wal')
  {
    hide FlushedAs, Shortened, WithFirst;
    assert forall more: seq<FlushOutcome> :: ([o] + more)[0] == o && ([o] + more)[1..] == more;
  }

  lemma StopsWithoutSegments(kept: seq<Part>, rest: seq<Part>, wal: WalState, o: FlushOutcome)
    requires rest != [] && rest[0].MemPart? && FlushedAs(rest[0].m, o) && o.disk.data != []
    requires !wal.nop && wal.segments == map[]
    ensures var p := rest[0];
            Swept(kept, rest, wal, false, [o], false,
                  StorageState(WithFirst(kept + [p.(m := o.sorted)], p.MinT(), DiskPart(o.disk)) + rest[1..], wal))
  {
    hide FlushedAs, Shortened, WithFirst;
  }

  /** A search that ends at p or before does not look at what lies behind. */
  lemma SearchEndsEarly(kept: seq<Part>, p: Part, later: seq<Part>)
    ensures FirstStart(kept + [p] + later, p.MinT()) == FirstStart(kept + [p], p.MinT()) <= |kept|
  {
    hide FirstStart, Part.MinT;
    var t, front, parts := p.MinT(), kept + [p], kept + [p] + later;
    var i, j := FirstStart(front, t), FirstStart(parts, t);
    assert front[|kept|] == p && parts[|kept|] == p;
    assert parts[i] == front[i];
    assert parts[j] == front[j];
  }

  lemma FoundBefore(kept: seq<Part>, p: Part, later: seq<Part>, q: Part)
    ensures var t, parts := p.MinT(), kept + [p] + later;
            && FirstStart(parts, t) <= |kept|
            && WithoutFirst(parts, t) == WithoutFirst(kept + [p], t) + later
            && WithFirst(parts, t, q) == WithFirst(kept + [p], t, q) + later
  {
    hide FirstStart;
    var t, front, parts := p.MinT(), kept + [p], kept + [p] + later;
    SearchEndsEarly(kept, p, later);
    var k := FirstStart(front, t);
    assert parts[..k] == front[..k] && parts[k + 1..] == front[k + 1..] + later;
    assert parts[k := q] == front[k := q] + later;
  }

  /** One turn of the sweep at place k of s ends in s', with the next place at c. */
  ghost predicate Turned(s: StorageState, k: nat, inMemory: bool, stop: bool, outs: seq<FlushOutcome>, s': StorageState, c: nat) {
    && k < |s.parts| && c <= |s'.parts| && s'.parts[c..] == s.parts[k + 1..]
    && if stop then Swept(s.parts[..k], s.parts[k..], s.wal, inMemory, outs, false, s')
       else Leads(s.parts[..k], s.parts[k..], s.wal, inMemory, outs, s'.parts[..c], s'.parts[c..], s'.wal)
  }

  lemma TurnedFrom(s: StorageState, k: nat, inMemory: bool, outs: seq<FlushOutcome>, s': StorageState, kept: seq<Part>)
    requires k < |s.parts| && s'.parts == kept + s.parts[k + 1..]
    requires Leads(s.parts[..k], s.parts[k..], s.wal, inMemory, outs, kept, s.parts[k + 1..], s'.wal)
    ensures Turned(s, k, inMemory, false, outs, s', |kept|)
  {
    hide Leads, Swept;
    assert s'.parts[..|kept|] == kept && s'.parts[|kept|..] == s.parts[k + 1..];
  }

  lemma TurnedPastDisk(s: StorageState, k: nat, inMemory: bool)
    requires k < |s.parts| && s.parts[k].DiskPart?
    ensures Turned(s, k, inMemory, false, [], s, k + 1)
  {
    hide Leads, Swept, FlushedAs;
    LeadsPastDisk(s.parts[..k], s.parts[k..], s.wal, inMemory);
    assert s.parts[k..][0] == s.parts[k] && s.parts[k..][1..] == s.parts[k + 1..];
    assert s.parts == s.parts[..k] + [s.parts[k]] + s.parts[k + 1..];
    TurnedFrom(s, k, inMemory, [], s, s.parts[..k] + [s.parts[k]]);
  }

  lemma TurnedPastDropped(s: StorageState, k: nat)
    requires k < |s.parts| && s.parts[k].MemPart?
    ensures Turned(s, k, true, false, [], s.(parts := WithoutFirst(s.parts, s.parts[k].MinT())), k)
  {
    hide Leads, Swept, FlushedAs, FirstStart;
    var kept, p, later := s.parts[..k], s.parts[k], s.parts[k + 1..];
    LeadsPastDropped(kept, s.parts[k..], s.wal);
    assert s.parts[k..][0] == p && s.parts[k..][1..] == later && s.parts == kept + [p] + later;
    FoundBefore(kept, p, later, p);
    SearchEndsEarly(kept, p, []);
    assert kept + [p] + [] == kept + [p];
    TurnedFrom(s, k, true, [], s.(parts := WithoutFirst(s.parts, p.MinT())), WithoutFirst(kept + [p], p.MinT()));
  }

  lemma TurnedPastEmpty(s: StorageState, k: nat, o: FlushOutcome)
    requires k < |s.parts| && s.parts[k].MemPart? && FlushedAs(s.parts[k].m, o) && o.disk.data == []
    ensures var sorted := s.parts[k := s.parts[k].(m := o.sorted)];
            Turned(s, k, false, false, [o], s.(parts := WithoutFirst(sorted, s.parts[k].MinT())), k)
  {
    hide Leads, Swept, FlushedAs, FirstStart;
    var kept, p, later := s.parts[..k], s.parts[k], s.parts[k + 1..];
    var p' := p.(m := o.sorted);
    SameRange(p.m, o);
    LeadsPastEmpty(kept, s.parts[k..], s.wal, o);
    assert s.parts[k..][0] == p && s.parts[k..][1..] == later && s.parts[k := p'] == kept + [p'] + later;
    FoundBefore(kept, p', later, p');
    SearchEndsEarly(kept, p', []);
    assert kept + [p'] + [] == kept + [p'];
    TurnedFrom(s, k, false, [o], s.(parts := WithoutFirst(s.parts[k := p'], p.MinT())), WithoutFirst(kept + [p'], p.MinT()));
  }

  lemma TurnedPastSwapped(s: StorageState, k: nat, o: FlushOutcome, wal': WalState, stop: bool)
    requires k < |s.parts| && s.parts[k].MemPart? && FlushedAs(s.parts[k].m, o) && o.disk.data != []
    requires stop <==> !s.wal.nop && s.wal.segments == map[]
    requires if stop then wal' == s.wal else Shortened(s.wal, wal')
    ensures var sorted := s.parts[k := s.parts[k].(m := o.sorted)];
            Turned(s, k, false, stop, [o], StorageState(WithFirst(sorted, s.parts[k].MinT(), DiskPart(o.disk)), wal'), k + 1)
  {
    hide Leads, Swept, FlushedAs, FirstStart, Shortened;
    var kept, p, later, q := s.parts[..k], s.parts[k], s.parts[k + 1..], DiskPart(o.disk);
    var p' := p.(m := o.sorted);
    SameRange(p.m, o);
    assert s.parts[k..][0] == p && s.parts[k..][1..] == later && s.parts[k := p'] == kept + [p'] + later;
    FoundBefore(kept, p', later, q);
    SearchEndsEarly(kept, p', []);
    assert kept + [p'] + [] == kept + [p'];
    var kept' := WithFirst(kept + [p'], p.MinT(), q);
    if stop {
      StopsWithoutSegments(kept, s.parts[k..], s.wal, o);
      assert (kept' + later)[k + 1..] == later;
    } else {
      LeadsPastSwapped(kept, s.parts[k..], s.wal, o, wal');
      TurnedFrom(s, k, false, [o], StorageState(kept' + later, wal'), kept');
    }
  }

  /** A pass over s that has skipped `skipped` partitions stands at place c of s'. */
  ghost predicate Sweeping(s: StorageState, skipped: nat, inMemory: bool, outs: seq<FlushOutcome>, s': StorageState, c: nat) {
    && c <= |s'.parts|
    && if skipped < WRITABLE_PARTITIONS then c == skipped && s' == s && outs == []
       else
         && skipped == WRITABLE_PARTITIONS <= |s.parts|
         && Leads(s.parts[..skipped], s.parts[skipped..], s.wal, inMemory, outs, s'.parts[..c], s'.parts[c..], s'.wal)
  }

  lemma SweepingStarts(s: StorageState, inMemory: bool)
    ensures Sweeping(s, 0, inMemory, [], s, 0)
  {
  }

  lemma SweepingSkips(s: StorageState, skipped: nat, inMemory: bool, outs: seq<FlushOutcome>, s': StorageState, c: nat)
    requires Sweeping(s, skipped, inMemory, outs, s', c) && skipped < WRITABLE_PARTITIONS && c < |s'.parts|
    ensures Sweeping(s, skipped + 1, inMemory, outs, s', c + 1)
  {
    hide Leads;
    LeadsNowhere(s.parts[..skipped + 1], s.parts[skipped + 1..], s.wal, inMemory);
  }

  lemma SweepingTurns(s: StorageState, inMemory: bool, outs: seq<FlushOutcome>, s': StorageState, c: nat,
                      stop: bool, outs': seq<FlushOutcome>, s'': StorageState, c': nat)
    requires Sweeping(s, WRITABLE_PARTITIONS, inMemory, outs, s', c) && Turned(s', c, inMemory, stop, outs', s'', c')
    ensures if stop then FlushPass(s, inMemory, outs + outs', false, s'')
            else Sweeping(s, WRITABLE_PARTITIONS, inMemory, outs + outs', s'', c')
  {
    if stop {
      hide Swept;
    } else {
      hide Leads;
      var w := WRITABLE_PARTITIONS;
      LeadsOn(s.parts[..w], s.parts[w..], s.wal, inMemory, outs, s'.parts[..c], s'.parts[c..], s'.wal, outs',
              s''.parts[..c'], s''.parts[c'..], s''.wal);
    }
  }

  lemma SweepingEnds(s: StorageState, skipped: nat, inMemory: bool, outs: seq<FlushOutcome>, s': StorageState)
    requires Sweeping(s, skipped, inMemory, outs, s', |s'.parts|)
    ensures FlushPass(s, inMemory, outs, true, s')
  {
    var n := |s'.parts|;
    assert s'.parts[..n] == s'.parts && s'.parts[n..] == [];
    assert Swept(s'.parts, [], s'.wal, inMemory, [], true, s');
    assert outs + [] == outs;
  }

  // ----- The sweep on partitions in range order -----

  /** A partition behind the head is found at its own place. */
  lemma FoundInPlace(kept: seq<Part>, p: Part)
    requires ProperRanges(kept + [p]) && Ordered(kept + [p]) && AllSound(kept + [p]) && !p.Blank()
    ensures FirstStart(kept + [p], p.MinT()) == |kept|
  {
    hide Content, AllConsistent, AllSized;
    var parts := kept + [p];
    assert parts[|kept|] == p;
    forall i | 0 <= i < |kept|
      ensures parts[i].MinT() != p.MinT()
    {
      if parts[i].Blank() {
        assert Sound(parts[i].m);
      } else {
        assert p.MaxT() < parts[i].MinT();
      }
    }
  }

  /** What may stand where p stood: p itself if on disk, else its flushed form. */
  ghost predicate FlushedInto(p: Part, q: Part) {
    if p.DiskPart? then q == p
    else q.DiskPart? && exists o :: FlushedAs(p.m, o) && q.d == o.disk
  }

  ghost predicate FlushedOrKept(rest: seq<Part>, rest': seq<Part>) {
    |rest'| == |rest| && forall i | 0 <= i < |rest| :: FlushedInto(rest[i], rest'[i]) || rest'[i] == rest[i]
  }

  /** In range order and readable; only what has been passed may be blank. */
  ghost predicate Sweepable(kept: seq<Part>, rest: seq<Part>) {
    && AllSound(kept + rest) && ProperRanges(kept + rest) && Ordered(kept + rest) && AllFaithful(kept + rest)
    && forall i | 0 <= i < |rest| :: !rest[i].Blank()
  }

  lemma GoodIsSweepable(s: StorageState, f: nat)
    requires Good(s) && AllFaithful(s.parts) && 0 < f <= |s.parts|
    ensures Sweepable(s.parts[..f], s.parts[f..])
  {
    hide Sound, Faithful;
    assert s.parts[..f] + s.parts[f..] == s.parts;
  }

  lemma SweepableIsGood(kept: seq<Part>, rest: seq<Part>, wal: WalState)
    requires Sweepable(kept, rest) && kept != [] && OnlyHeadBlank(kept)
    ensures Good(StorageState(kept + rest, wal)) && AllFaithful(kept + rest)
  {
    hide Sound, Faithful;
  }

  function MemCount(parts: seq<Part>): nat {
    if parts == [] then 0 else (if parts[0].MemPart? then 1 else 0) + MemCount(parts[1..])
  }

  function Disks(parts: seq<Part>): seq<Part> {
    if parts == [] then [] else (if parts[0].DiskPart? then [parts[0]] else []) + Disks(parts[1..])
  }

  lemma GoodSplit(kept: seq<Part>, p: Part, later: seq<Part>)
    requires Sweepable(kept, [p] + later)
    ensures ProperRanges(kept + [p]) && Ordered(kept + [p]) && AllSound(kept + [p]) && !p.Blank()
    ensures Sweepable(kept + [p], later)
    ensures p.MemPart? ==> Sound(p.m) && p.m.started && 0 < p.m.minT
  {
    hide AllSound, ProperRanges, Ordered, AllFaithful;
    var parts, n := kept + ([p] + later), |kept| + 1;
    assert parts == (kept + [p]) + later && parts[..n] == kept + [p];
    assert ([p] + later)[0] == p && forall i | 0 <= i < |later| :: later[i] == ([p] + later)[i + 1];
    PrefixInOrder(parts, n);
    LastInOrder(kept, p);
  }

  lemma PrefixInOrder(parts: seq<Part>, n: nat)
    requires AllSound(parts) && ProperRanges(parts) && Ordered(parts) && n <= |parts|
    ensures AllSound(parts[..n]) && ProperRanges(parts[..n]) && Ordered(parts[..n])
  {
    hide Sound;
  }

  lemma LastInOrder(kept: seq<Part>, p: Part)
    requires AllSound(kept + [p]) && ProperRanges(kept + [p]) && !p.Blank()
    ensures p.MemPart? ==> Sound(p.m) && p.m.started && 0 < p.m.minT
  {
    hide Sound;
    assert (kept + [p])[|kept|] == p;
  }

  /** Swapping in the disk form of a partition keeps everything in order. */
  lemma GoodReplace(kept: seq<Part>, p: Part, q: Part, later: seq<Part>)
    requires Sweepable(kept, [p] + later) && q.DiskPart? && Faithful(q.d)
    requires q.MinT() == p.MinT() && q.MaxT() == p.MaxT()
    ensures Sweepable(kept + [q], later)
  {
    hide AllSound, ProperRanges, Ordered, AllFaithful, Faithful;
    ReplacePlace(kept, p, q, later);
    assert ([p] + later)[0] == p && forall i | 0 <= i < |later| :: later[i] == ([p] + later)[i + 1];
    ReplaceInOrder(kept + ([p] + later), |kept|, q);
  }

  lemma ReplacePlace(kept: seq<Part>, p: Part, q: Part, later: seq<Part>)
    ensures var parts := kept + ([p] + later);
            parts[|kept|] == p && parts[|kept| := q] == (kept + [q]) + later
  {
  }

  lemma ReplaceInOrder(parts: seq<Part>, k: nat, q: Part)
    requires AllSound(parts) && ProperRanges(parts) && Ordered(parts) && AllFaithful(parts)
    requires k < |parts| && !parts[k].Blank() && q.DiskPart? && Faithful(q.d)
    requires q.MinT() == parts[k].MinT() && q.MaxT() == parts[k].MaxT()
    ensures var parts' := parts[k := q];
            AllSound(parts') && ProperRanges(parts') && Ordered(parts') && AllFaithful(parts')
  {
    hide Sound, Faithful;
  }

  lemma GoodDrop(kept: seq<Part>, p: Part, later: seq<Part>)
    requires Sweepable(kept, [p] + later)
    ensures Sweepable(kept, later)
  {
    hide Sound, Faithful;
    assert forall i | 0 <= i < |later| :: later[i] == ([p] + later)[i + 1];
    var parts, parts' := kept + ([p] + later), kept + later;
    assert forall i | 0 <= i < |parts'| :: parts'[i] == parts[if i < |kept| then i else i + 1];
  }

  lemma SweepableJoin(kept: seq<Part>, p: Part, later: seq<Part>)
    requires Sweepable(kept + [p], later) && !p.Blank()
    ensures Sweepable(kept, [p] + later)
  {
    hide AllSound, ProperRanges, Ordered, AllFaithful;
    assert (kept + [p]) + later == kept + ([p] + later);
  }

  /** With a data directory the sweep puts each partition's disk form in its place
      and keeps range order; it gets to the end unless the log runs out of segments. */
  lemma {:induction false} SweepSwaps(kept: seq<Part>, rest: seq<Part>, wal: WalState, outs: seq<FlushOutcome>, ok: bool, final: StorageState)
    requires Sweepable(kept, rest) && Swept(kept, rest, wal, false, outs, ok, final)
    ensures |kept| <= |final.parts| && final.parts[..|kept|] == kept
    ensures Sweepable(kept, final.parts[|kept|..]) && FlushedOrKept(rest, final.parts[|kept|..])
    ensures ok <==> wal.nop || MemCount(rest) <= |wal.segments|
    ensures ok ==> AllOnDisk(final.parts[|kept|..])
    ensures ok && !wal.nop ==> |final.wal.segments| + MemCount(rest) == |wal.segments|
    ensures SubLog(final.wal, wal)
    decreases |rest|
  {
    hide Sound, Faithful, FlushedAs, Shortened, Sweepable, FirstStart, AllOnDisk, FlushedOrKept;
    if rest == [] {
      SweepDone(kept, rest, final);
    } else {
      var p, later := rest[0], rest[1..];
      assert rest == [p] + later;
      GoodSplit(kept, p, later);
      if p.DiskPart? {
        SweepSwaps(kept + [p], later, wal, outs, ok, final);
        SweepTail(kept, p, p, later, final);
      } else {
        var o := outs[0];
        var q, p' := DiskPart(o.disk), p.(m := o.sorted);
        FlushedIsFaithful(p.m, o);
        SameRange(p.m, o);
        FoundSorted(kept, p, p');
        GoodReplace(kept, p, q, later);
        assert WithFirst(kept + [p'], p.MinT(), q) == kept + [q];
        assert FlushedInto(p, q);
        if !wal.nop && wal.segments == map[] {
          SweepDone(kept + [q], later, final);
        } else {
          var wal' :| Shortened(wal, wal') && Swept(kept + [q], later, wal', false, outs[1..], ok, final);
          ShortenedSize(wal, wal');
          SweepSwaps(kept + [q], later, wal', outs[1..], ok, final);
        }
        SweepTail(kept, p, q, later, final);
      }
    }
  }

  /** Some segments have gone, nothing else. */
  ghost predicate SubLog(w': WalState, w: WalState) {
    w'.nop == w.nop && w'.index == w.index && w'.segments.Keys <= w.segments.Keys
  }

  ghost predicate AllOnDisk(parts: seq<Part>) {
    forall i | 0 <= i < |parts| :: parts[i].DiskPart?
  }

  lemma ShortenedSize(w: WalState, w': WalState)
    requires Shortened(w, w')
    ensures SubLog(w', w) && (!w.nop ==> |w'.segments| == |w.segments| - 1)
  {
    hide FirstByName;
    if !w.nop {
      var k :| FirstByName(w.segments.Keys, k) && w' == w.(segments := w.segments - {k});
      FirstListed(w.segments.Keys, k);
      assert w'.segments.Keys == w.segments.Keys - {k};
    }
  }

  lemma SameRange(m: MemState, o: FlushOutcome)
    requires FlushedAs(m, o)
    ensures o.disk.meta.minTs == m.minT && o.disk.meta.maxTs == m.maxT
    ensures o.sorted.minT == m.minT
  {
  }

  lemma FoundSorted(kept: seq<Part>, p: Part, p': Part)
    requires ProperRanges(kept + [p]) && Ordered(kept + [p]) && AllSound(kept + [p]) && !p.Blank()
    requires p'.MinT() == p.MinT()
    ensures FirstStart(kept + [p'], p.MinT()) == |kept|
  {
    hide Sound;
    FoundInPlace(kept, p);
    FirstStartAgree(kept, p, p', p.MinT());
  }

  lemma {:induction false} FirstStartAgree(kept: seq<Part>, p: Part, p': Part, t: int)
    requires p'.MinT() == p.MinT()
    ensures FirstStart(kept + [p'], t) == FirstStart(kept + [p], t)
  {
    if kept == [] {
      assert kept + [p] == [p] && kept + [p'] == [p'];
    } else {
      assert (kept + [p])[1..] == kept[1..] + [p] && (kept + [p'])[1..] == kept[1..] + [p'];
      FirstStartAgree(kept[1..], p, p', t);
    }
  }

  lemma SweepDone(kept: seq<Part>, rest: seq<Part>, final: StorageState)
    requires Sweepable(kept, rest) && final.parts == kept + rest
    ensures final.parts[..|kept|] == kept && final.parts[|kept|..] == rest
    ensures Sweepable(kept, final.parts[|kept|..]) && FlushedOrKept(rest, final.parts[|kept|..])
    ensures rest == [] ==> AllOnDisk(final.parts[|kept|..])
  {
    hide Sweepable;
  }

  lemma SweepTail(kept: seq<Part>, p: Part, q: Part, later: seq<Part>, final: StorageState)
    requires |kept| + 1 <= |final.parts| && final.parts[..|kept| + 1] == kept + [q]
    requires (FlushedInto(p, q) || q == p) && q.DiskPart?
    requires Sweepable(kept + [q], final.parts[|kept| + 1..]) && FlushedOrKept(later, final.parts[|kept| + 1..])
    ensures final.parts[..|kept|] == kept
    ensures Sweepable(kept, final.parts[|kept|..]) && FlushedOrKept([p] + later, final.parts[|kept|..])
    ensures AllOnDisk(final.parts[|kept| + 1..]) ==> AllOnDisk(final.parts[|kept|..])
  {
    hide FlushedInto, Sweepable;
    assert final.parts[..|kept| + 1][..|kept|] == kept;
    assert final.parts[|kept|] == final.parts[..|kept| + 1][|kept|] == q;
    assert final.parts[|kept|..] == [q] + final.parts[|kept| + 1..];
    SweepableJoin(kept, q, final.parts[|kept| + 1..]);
  }

  // ----- Partitions that share a lower bound -----

  /** Flushing a partition without points yields an empty file. */
  ghost predicate Hollow(p: Part) {
    p.MemPart? && forall n | n in p.m.metrics :: p.m.metrics[n].size == 0
  }

  /** After its turn something still stands in the place of p. */
  ghost predicate Stays(p: Part, inMemory: bool) {
    p.DiskPart? || (!inMemory && !Hollow(p))
  }

  ghost predicate NewStart(kept: seq<Part>, p: Part) {
    forall k | 0 <= k < |kept| :: kept[k].MinT() != p.MinT()
  }

  /** No memory partition of rest starts where a partition before it starts that is
      still in the list by then. */
  ghost predicate NoTwin(kept: seq<Part>, rest: seq<Part>, inMemory: bool) {
    && (forall j | 0 <= j < |rest| && rest[j].MemPart? :: NewStart(kept, rest[j]))
    && (forall i, j | 0 <= i < j < |rest| && Stays(rest[i], inMemory) && rest[j].MemPart? :: rest[i].MinT() != rest[j].MinT())
  }

  lemma NoTwinCons(kept: seq<Part>, p: Part, later: seq<Part>, q: Part, inMemory: bool)
    requires q.MinT() == p.MinT()
    ensures NoTwin(kept, [p] + later, inMemory)
       <==> (p.MemPart? ==> NewStart(kept, p)) && NoTwin(if Stays(p, inMemory) then kept + [q] else kept, later, inMemory)
  {
    hide Stays, NoTwin, NewStart;
    if NoTwin(kept, [p] + later, inMemory) {
      NoTwinTail(kept, p, later, q, inMemory);
    }
    if (p.MemPart? ==> NewStart(kept, p)) && NoTwin(if Stays(p, inMemory) then kept + [q] else kept, later, inMemory) {
      NoTwinJoin(kept, p, later, q, inMemory);
    }
  }

  lemma NoTwinTail(kept: seq<Part>, p: Part, later: seq<Part>, q: Part, inMemory: bool)
    requires q.MinT() == p.MinT() && NoTwin(kept, [p] + later, inMemory)
    ensures (p.MemPart? ==> NewStart(kept, p)) && NoTwin(if Stays(p, inMemory) then kept + [q] else kept, later, inMemory)
  {
    hide Stays, Part.MinT;
    var rest := [p] + later;
    assert rest[0] == p && forall j | 0 <= j < |later| :: later[j] == rest[j + 1];
    forall j | 0 <= j < |later| && later[j].MemPart?
      ensures NewStart(if Stays(p, inMemory) then kept + [q] else kept, later[j])
    {
      assert NewStart(kept, rest[j + 1]);
      assert Stays(p, inMemory) ==> rest[0].MinT() != rest[j + 1].MinT();
    }
  }

  lemma NoTwinJoin(kept: seq<Part>, p: Part, later: seq<Part>, q: Part, inMemory: bool)
    requires q.MinT() == p.MinT() && (p.MemPart? ==> NewStart(kept, p))
    requires NoTwin(if Stays(p, inMemory) then kept + [q] else kept, later, inMemory)
    ensures NoTwin(kept, [p] + later, inMemory)
  {
    hide Stays, NewStart, Part.MinT;
    var rest, kept' := [p] + later, if Stays(p, inMemory) then kept + [q] else kept;
    forall j | 0 <= j < |rest| && rest[j].MemPart?
      ensures NewStart(kept, rest[j])
    {
      if j > 0 {
        StillNew(kept, kept', later[j - 1]);
      }
    }
    forall i, j | 0 <= i < j < |rest| && Stays(rest[i], inMemory) && rest[j].MemPart?
      ensures rest[i].MinT() != rest[j].MinT()
    {
      assert rest[j] == later[j - 1];
      if i == 0 {
        NewAmong(kept', |kept|, later[j - 1]);
      } else {
        assert rest[i] == later[i - 1];
      }
    }
  }

  lemma NewAmong(kept: seq<Part>, k: nat, p: Part)
    requires NewStart(kept, p) && k < |kept|
    ensures kept[k].MinT() != p.MinT()
  {
  }

  lemma StillNew(kept: seq<Part>, kept': seq<Part>, p: Part)
    requires NewStart(kept', p) && kept <= kept'
    ensures NewStart(kept, p)
  {
    assert forall k | 0 <= k < |kept| :: kept[k] == kept'[k];
  }

  lemma NewIsLast(kept: seq<Part>, p: Part)
    ensures FirstStart(kept + [p], p.MinT()) == |kept| <==> NewStart(kept, p)
  {
    hide FirstStart, Part.MinT;
    var parts := kept + [p];
    assert parts[|kept|] == p && forall k | 0 <= k < |kept| :: parts[k] == kept[k];
  }

  /** Range order rules twins out. */
  lemma {:induction false} SweepableNoTwin(kept: seq<Part>, rest: seq<Part>, inMemory: bool)
    requires Sweepable(kept, rest)
    ensures NoTwin(kept, rest, inMemory)
    decreases |rest|
  {
    hide Sweepable, ProperRanges, Ordered, AllSound, NewStart, Stays, FirstStart;
    if rest != [] {
      var p, later := rest[0], rest[1..];
      assert rest == [p] + later;
      GoodSplit(kept, p, later);
      FoundInPlace(kept, p);
      NewIsLast(kept, p);
      GoodDrop(kept, p, later);
      SweepableNoTwin(if Stays(p, inMemory) then kept + [p] else kept, later, inMemory);
      NoTwinCons(kept, p, later, p, inMemory);
    }
  }

  /** Without twins the in-memory sweep leaves exactly the writable and the disk partitions. */
  lemma {:induction false} SweepDrops(kept: seq<Part>, rest: seq<Part>, wal: WalState, outs: seq<FlushOutcome>, ok: bool, final: StorageState)
    requires Swept(kept, rest, wal, true, outs, ok, final) && NoTwin(kept, rest, true)
    ensures ok && final == StorageState(kept + Disks(rest), wal)
    decreases |rest|
  {
    hide WithoutFirst, Swept, Disks, FirstStart, NoTwin, NewStart;
    if rest == [] {
      SweptNone(kept, wal, true, outs, ok, final);
    } else {
      var p, later := rest[0], rest[1..];
      assert rest == [p] + later;
      SweptInMemory(kept, p, later, wal, outs, ok, final);
      DisksCons(kept, p, later);
      NoTwinCons(kept, p, later, p, true);
      if p.DiskPart? {
        SweepDrops(kept + [p], later, wal, outs, ok, final);
      } else {
        NewIsLast(kept, p);
        DropsLast(kept, p);
        SweepDrops(kept, later, wal, outs, ok, final);
      }
    }
  }

  lemma DropsLast(kept: seq<Part>, p: Part)
    requires FirstStart(kept + [p], p.MinT()) == |kept|
    ensures WithoutFirst(kept + [p], p.MinT()) == kept
  {
    hide FirstStart;
  }

  lemma DisksCons(kept: seq<Part>, p: Part, later: seq<Part>)
    ensures kept + Disks([p] + later) == (if p.DiskPart? then kept + [p] else kept) + Disks(later)
  {
    assert ([p] + later)[1..] == later;
  }

  lemma SweptNone(kept: seq<Part>, wal: WalState, inMemory: bool, outs: seq<FlushOutcome>, ok: bool, final: StorageState)
    ensures Swept(kept, [], wal, inMemory, outs, ok, final) ==> ok && outs == [] && final == StorageState(kept + Disks([]), wal)
  {
    assert kept + [] == kept;
  }

  lemma SweptInMemory(kept: seq<Part>, p: Part, later: seq<Part>, wal: WalState, outs: seq<FlushOutcome>, ok: bool, final: StorageState)
    requires Swept(kept, [p] + later, wal, true, outs, ok, final)
    ensures Swept(if p.DiskPart? then kept + [p] else WithoutFirst(kept + [p], p.MinT()), later, wal, true, outs, ok, final)
  {
    hide FirstStart, FlushedAs, Shortened, WithoutFirst;
    assert ([p] + later)[1..] == later;
  }
}
