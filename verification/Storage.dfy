/** The storage object: the linked list of partitions and the log, driven by the
    loops of InsertRows, Select and flushPartitions. */
module Storage {
  import opened Words
  import opened GorillaFormat
  import Gorilla
  import opened Metric
  import opened Rows
  import opened WalSegments
  import opened Memory
  import opened Disk
  import opened PartitionList
  import opened StorageModel
  import opened StorageSelect
  import opened StorageFlush
  import opened StorageExpiry
  import opened StorageRuns
  import opened StorageClose

  // ----- The partitions of a list, as the state machine sees them -----

  /** R holds the memory partitions and their metrics, nothing else. */
  ghost predicate OnlyMemory(R: set<object>) {
    forall o: object | o in R :: o is MemoryPartition || o is MemoryMetric
  }

  ghost predicate Owned(p: Partition, R: set<object>, wal: DiskWal)
    reads R
  {
    match p
    case Mem(m) => m in R && m in m.Repr && m.Repr <= R && m.Valid() && m.wal == wal
    case Disk(_) => true
    case Absent => false
  }

  ghost predicate Apart(p: Partition, q: Partition, R: set<object>, wal: DiskWal)
    requires Owned(p, R, wal) && Owned(q, R, wal)
    reads R
  {
    p.Mem? && q.Mem? ==> p.mem.Repr !! q.mem.Repr
  }

  ghost predicate WellOwned(ps: seq<Partition>, R: set<object>, wal: DiskWal)
    reads R
  {
    && OnlyMemory(R)
    && (forall i | 0 <= i < |ps| :: Owned(ps[i], R, wal))
    && (forall i, j | 0 <= i < j < |ps| :: Apart(ps[i], ps[j], R, wal))
  }

  ghost predicate SameDuration(ps: seq<Partition>, duration: int) {
    forall i | 0 <= i < |ps| :: ps[i].Mem? ==> ps[i].mem.partitionDuration == duration
  }

  lemma DurationCons(m: MemoryPartition, ps: seq<Partition>, duration: int)
    requires SameDuration(ps, duration) && m.partitionDuration == duration
    ensures SameDuration([Mem(m)] + ps, duration)
  {
  }

  lemma DurationWithout(ps: seq<Partition>, k: nat, duration: int)
    requires SameDuration(ps, duration) && k < |ps|
    ensures SameDuration(ps[..k] + ps[k + 1..], duration)
  {
  }

  lemma DurationReplaced(ps: seq<Partition>, k: nat, d: DiskPartition, duration: int)
    requires SameDuration(ps, duration) && k < |ps|
    ensures SameDuration(ps[k := Disk(d)], duration)
  {
  }

  ghost function View(p: Partition, R: set<object>, wal: DiskWal): Part
    requires Owned(p, R, wal)
    reads R
  {
    match p
    case Mem(m) => MemPart(m.State(), m.segment)
    case Disk(d) => DiskPart(d)
  }

  ghost function Views(ps: seq<Partition>, R: set<object>, wal: DiskWal): (vs: seq<Part>)
    requires WellOwned(ps, R, wal)
    reads R
    ensures |vs| == |ps| && forall i | 0 <= i < |ps| :: vs[i] == View(ps[i], R, wal)
  {
    seq(|ps|, i requires 0 <= i < |ps| && WellOwned(ps, R, wal) reads R => View(ps[i], R, wal))
  }

  lemma OwnedCons(m: MemoryPartition, ps: seq<Partition>, R: set<object>, wal: DiskWal)
    requires WellOwned(ps, R, wal)
    requires m.Valid() && m.wal == wal && m.Repr !! R && m in m.Repr && OnlyMemory(m.Repr)
    ensures WellOwned([Mem(m)] + ps, R + m.Repr, wal)
    ensures Views([Mem(m)] + ps, R + m.Repr, wal) == [MemPart(m.State(), m.segment)] + Views(ps, R, wal)
  {
    hide MemoryPartition.Valid, MemoryPartition.State, Views;
    var all, S := [Mem(m)] + ps, R + m.Repr;
    forall i | 0 <= i < |ps|
      ensures all[i + 1] == ps[i] && Owned(ps[i], S, wal)
    {
      assert Owned(ps[i], R, wal);
    }
    forall i, j | 0 <= i < j < |all|
      ensures Apart(all[i], all[j], S, wal)
    {
      if i > 0 {
        assert Apart(ps[i - 1], ps[j - 1], R, wal);
      } else {
        assert Owned(ps[j - 1], R, wal);
      }
    }
  }

  /** insertRows on the i-th partition leaves all others as they are. */
  method InsertInto(m: MemoryPartition, rows: seq<Row>, now: int64, wal: DiskWal, ghost ps: seq<Partition>, ghost i: nat, ghost R: set<object>)
    returns (outdated: seq<Row>, ghost S: set<object>)
    requires WellOwned(ps, R, wal) && i < |ps| && ps[i] == Mem(m) && rows != []
    modifies R, wal
    ensures R <= S && fresh(S - R) && WellOwned(ps, S, wal)
    ensures var p := old(Views(ps, R, wal))[i];
            && p.MemPart? && AllSized(p.m.metrics)
            && outdated == Outdated(rows, LowerBound(p.m, rows))
            && Views(ps, S, wal) == old(Views(ps, R, wal))[i := p.(m := Ingested(p.m, rows, now))]
    ensures wal.State() == Appended(old(wal.State()), rows)
  {
    hide MemoryPartition.Valid, MemoryPartition.State, Views, Ingested, Outdated, LowerBound, Appended, AllSized;
    ghost var views := Views(ps, R, wal);
    var r := m.InsertRows(rows, now);
    outdated := r.outdated;
    S := R + m.Repr;
    m.ReprKinds();
    assert OnlyMemory(S);
    forall k | 0 <= k < |ps|
      ensures Owned(ps[k], S, wal) && (k != i ==> View(ps[k], S, wal) == views[k])
    {
      if k != i {
        assert old(Owned(ps[k], R, wal)) && old(Apart(ps[if k < i then k else i], ps[if k < i then i else k], R, wal));
      }
    }
    forall j, k | 0 <= j < k < |ps|
      ensures Apart(ps[j], ps[k], S, wal)
    {
      assert old(Apart(ps[j], ps[k], R, wal));
    }
  }

  method ReadFrom(m: MemoryPartition, name: Name, start: int64, end: int64, wal: DiskWal, ghost ps: seq<Partition>, ghost i: nat, ghost R: set<object>)
    returns (points: seq<Point>, ghost S: set<object>)
    requires WellOwned(ps, R, wal) && i < |ps| && ps[i] == Mem(m) && start <= end
    modifies R
    ensures R <= S && fresh(S - R) && WellOwned(ps, S, wal)
    ensures var p := old(Views(ps, R, wal))[i];
            && p.MemPart? && MetricIn(p.m.metrics, name).size == |MetricIn(p.m.metrics, name).points|
            && Found(points) == PartRead(p, name, start, end, 0)
            && Views(ps, S, wal) == old(Views(ps, R, wal))[i := Touched(p, name)]
  {
    hide MemoryPartition.Valid, Views, Selected, Metric.Consistent;
    ghost var views := Views(ps, R, wal);
    ghost var numPoints, minT, maxT, started := m.numPoints, m.minT, m.maxT, m.started;
    points := m.SelectDataPoints(name, start, end);
    S := R + m.Repr;
    m.ReprKinds();
    assert OnlyMemory(S);
    forall k | 0 <= k < |ps|
      ensures Owned(ps[k], S, wal) && (k != i ==> View(ps[k], S, wal) == views[k])
    {
      if k != i {
        assert old(Owned(ps[k], R, wal)) && old(Apart(ps[if k < i then k else i], ps[if k < i then i else k], R, wal));
      }
    }
    forall j, k | 0 <= j < k < |ps|
      ensures Apart(ps[j], ps[k], S, wal)
    {
      assert old(Apart(ps[j], ps[k], R, wal));
    }
  }

  // ----- Writing a memory partition to disk -----

  /** The metrics of a partition, in some order. */
  method InSomeOrder(m: MemoryPartition) returns (all: seq<MemoryMetric>)
    requires m.Valid()
    ensures DistinctNames(all) && Names(all) == m.metrics.Keys
    ensures forall i | 0 <= i < |all| :: all[i].name in m.metrics && m.metrics[all[i].name] == all[i]
  {
    hide MemoryPartition.Valid, Names;
    all := [];
    var rest := m.metrics.Keys;
    NamesNone();
    while rest != {}
      invariant rest <= m.metrics.Keys && Names(all) == m.metrics.Keys - rest && DistinctNames(all)
      invariant forall i | 0 <= i < |all| :: all[i].name in m.metrics - rest && m.metrics[all[i].name] == all[i]
      decreases rest
    {
      var n :| n in rest;
      NamedAs(m, n);
      ghost var before := all;
      all := all + [m.metrics[n]];
      assert all[..|before| + 1] == all && all[..|before|] == before;
      NamesSnoc(all, |before|);
      rest := rest - {n};
    }
  }

  lemma NamedAs(m: MemoryPartition, n: Name)
    requires m.Valid() && n in m.metrics
    ensures m.metrics[n].name == n && m.metrics[n] in m.Repr && Consistent(m.metrics[n].State())
  {
  }

  lemma SortedConsistent(m: MetricState, m': MetricState)
    requires Consistent(m) && BufferSorted(m, m')
    ensures Consistent(m')
  {
    forall i | 0 <= i < |m'.outOfOrder|
      ensures m'.outOfOrder[i] in m.outOfOrder
    {
      assert m'.outOfOrder[i] in multiset(m'.outOfOrder);
    }
  }

  lemma Listed(all: seq<MemoryMetric>, m: MemoryPartition, n: Name) returns (i: nat)
    requires Names(all) == m.metrics.Keys && n in m.metrics
    requires forall i | 0 <= i < |all| :: all[i].name in m.metrics && m.metrics[all[i].name] == all[i]
    ensures i < |all| && all[i] == m.metrics[n]
  {
    assert n in Names(all);
    var mt :| mt in all && mt.name == n;
    i :| 0 <= i < |all| && all[i] == mt;
  }

  lemma FlushedPieces(m: MemState, m': MemState, d: DiskPartition)
    requires m' == m.(metrics := m'.metrics) && m'.metrics.Keys == m.metrics.Keys == d.meta.metrics.Keys
    requires d.meta.minTs == m.minT && d.meta.maxTs == m.maxT && d.meta.numPoints == m.numPoints
    requires forall n | n in m.metrics :: BufferSorted(m.metrics[n], m'.metrics[n])
    requires forall n | n in m.metrics :: Indexed(d.data, d.meta.metrics[n], m'.metrics[n]) && d.meta.metrics[n].name == n
    requires d.data == [] <==> forall n | n in m'.metrics :: m'.metrics[n].size == 0
    ensures FlushedAs(m, FlushOutcome(m', d))
  {
    hide Indexed, Sorted;
    assert forall n | n in m.metrics :: m'.metrics[n].size == m.metrics[n].size;
  }

  /** Every metric of m has been written: its buffer is sorted, its points are indexed. */
  ghost predicate AllWritten(m: MemoryPartition, before: map<Name, MetricState>, data: seq<uint8>, index: map<Name, DiskMetric>)
    reads m, m.metrics.Values
  {
    && before.Keys == m.metrics.Keys == index.Keys
    && (forall n | n in m.metrics :: BufferSorted(before[n], m.metrics[n].State()))
    && (forall n | n in m.metrics :: Indexed(data, index[n], m.metrics[n].State()) && index[n].name == n)
    && (data == [] <==> forall n | n in m.metrics :: m.metrics[n].size == 0)
  }

  method WriteAll(m: MemoryPartition) returns (data: seq<uint8>, index: map<Name, DiskMetric>)
    requires m.Valid()
    modifies m.metrics.Values
    ensures AllWritten(m, old(m.MetricStates()), data, index)
  {
    hide Consistent, BufferSorted, Indexed, Names, DistinctNames;
    var all := InSomeOrder(m);
    forall i | 0 <= i < |all|
      ensures Consistent(all[i].State()) && all[i] in m.metrics.Values
    {
      NamedAs(m, all[i].name);
    }
    forall n | n in m.metrics
      ensures m.metrics[n].name == n
    {
      NamedAs(m, n);
    }
    data, index := WriteMetrics(all);
    forall n | n in m.metrics
      ensures BufferSorted(old(m.metrics[n].State()), m.metrics[n].State())
      ensures n in index && Indexed(data, index[n], m.metrics[n].State()) && index[n].name == n
      ensures data == [] ==> m.metrics[n].size == 0
    {
      var i := Listed(all, m, n);
    }
  }

  /** flush: the data file, then its index. */
  method FlushMemory(m: MemoryPartition, now: int, retention: int) returns (d: DiskPartition, ghost o: FlushOutcome)
    requires m.Valid()
    modifies m.metrics.Values
    ensures m.Valid() && m.State() == o.sorted && o.disk == d && FlushedAs(old(m.State()), o) && Dated([o], now, retention)
  {
    hide Consistent, BufferSorted, Indexed, FlushedAs;
    ghost var before := m.State();
    var data, index := WriteAll(m);
    forall n | n in m.metrics
      ensures Consistent(m.metrics[n].State())
    {
      SortedConsistent(before.metrics[n], m.metrics[n].State());
    }
    d := DiskPartition(Meta(m.minT, m.maxT, m.numPoints, index, now), data, retention);
    o := FlushOutcome(m.State(), d);
    FlushedPieces(before, o.sorted, d);
  }

  method FlushInto(m: MemoryPartition, now: int, retention: int, wal: DiskWal, ghost ps: seq<Partition>, ghost i: nat, ghost R: set<object>)
    returns (d: DiskPartition, ghost o: FlushOutcome)
    requires WellOwned(ps, R, wal) && i < |ps| && ps[i] == Mem(m)
    modifies R
    ensures WellOwned(ps, R, wal)
    ensures var p := old(Views(ps, R, wal))[i];
            && p.MemPart? && o.disk == d && FlushedAs(p.m, o) && Dated([o], now, retention)
            && Views(ps, R, wal) == old(Views(ps, R, wal))[i := p.(m := o.sorted)]
  {
    hide MemoryPartition.Valid, MemoryPartition.State, Views, FlushedAs, Dated;
    ghost var views := Views(ps, R, wal);
    assert Owned(ps[i], R, wal);
    MetricsOwned(m);
    d, o := FlushMemory(m, now, retention);
    forall k | 0 <= k < |ps|
      ensures Owned(ps[k], R, wal) && (k != i ==> View(ps[k], R, wal) == views[k])
    {
      if k != i {
        assert old(Owned(ps[k], R, wal)) && old(Apart(ps[if k < i then k else i], ps[if k < i then i else k], R, wal));
      }
    }
    forall j, k | 0 <= j < k < |ps|
      ensures Apart(ps[j], ps[k], R, wal)
    {
      assert old(Apart(ps[j], ps[k], R, wal));
    }
  }

  lemma MetricsOwned(m: MemoryPartition)
    requires m.Valid()
    ensures m.metrics.Values <= m.Repr
  {
  }

  /** Taking partitions out, or putting a disk partition in, leaves the others as they are. */
  lemma OwnedWithout(ps: seq<Partition>, k: nat, R: set<object>, wal: DiskWal)
    requires WellOwned(ps, R, wal) && k < |ps|
    ensures WellOwned(ps[..k] + ps[k + 1..], R, wal)
    ensures Views(ps[..k] + ps[k + 1..], R, wal) == Views(ps, R, wal)[..k] + Views(ps, R, wal)[k + 1..]
  {
    hide Owned, Apart, Views, View;
    var rest := ps[..k] + ps[k + 1..];
    assert forall i | 0 <= i < |rest| :: rest[i] == ps[if i < k then i else i + 1];
  }

  lemma OwnedReplaced(ps: seq<Partition>, k: nat, d: DiskPartition, R: set<object>, wal: DiskWal)
    requires WellOwned(ps, R, wal) && k < |ps|
    ensures WellOwned(ps[k := Disk(d)], R, wal)
    ensures Views(ps[k := Disk(d)], R, wal) == Views(ps, R, wal)[k := DiskPart(d)]
  {
    hide Views, MemoryPartition.Valid;
    var ps' := ps[k := Disk(d)];
    forall i | 0 <= i < |ps|
      ensures Owned(ps'[i], R, wal)
    {
      assert Owned(ps[i], R, wal);
    }
    forall i, j | 0 <= i < j < |ps|
      ensures Apart(ps'[i], ps'[j], R, wal)
    {
      assert Apart(ps[i], ps[j], R, wal);
    }
  }

  lemma NothingOwned(wal: DiskWal, duration: int)
    ensures WellOwned([], {}, wal) && Views([], {}, wal) == [] && SameDuration([], duration)
  {
  }

  lemma MemoryOnly(ps: seq<Partition>, R: set<object>, wal: DiskWal)
    requires WellOwned(ps, R, wal)
    ensures OnlyMemory(R)
  {
  }

  lemma ValuesCons(nodes: seq<Node>, rest: seq<Node>)
    requires nodes != [] && nodes[1..] == rest
    ensures Values(nodes) == [nodes[0].val] + Values(rest)
  {
  }

  lemma ValuesWithout(nodes: seq<Node>, f: nat)
    requires f < |nodes|
    ensures Values(nodes[..f] + nodes[f + 1..]) == Values(nodes)[..f] + Values(nodes)[f + 1..]
  {
  }

  lemma TailsAgree(a: seq<Node>, i: nat, b: seq<Node>, j: nat)
    requires i <= |a| && j < |b| && a[i..] == b[j..]
    ensures i < |a| && a[i] == b[j] && a[i + 1..] == b[j + 1..]
    ensures NodeAt(a, i + 1) == NodeAt(b, j + 1)
  {
    assert a[i..][0] == a[i] && b[j..][0] == b[j];
    assert a[i + 1..] == a[i..][1..] && b[j + 1..] == b[j..][1..];
    if i + 1 < |a| {
      assert a[i + 1] == a[i + 1..][0];
    }
    if j + 1 < |b| {
      assert b[j + 1] == b[j + 1..][0];
    }
  }

  ghost function NodeSet(nodes: seq<Node>): set<Node> {
    set n | n in nodes
  }

  // ----- The storage object -----

  class StorageImpl {
    const list: PartitionListImpl
    const wal: DiskWal
    const inMemory: bool
    const duration: int
    const retention: int
    /** The memory partitions and their metrics. */
    ghost var Mems: set<object>

    ghost predicate Valid()
      reads this, list, list.nodes, Mems
    {
      && list.Valid() && OnlyMemory(Mems)
      && WellOwned(Values(list.nodes), Mems, wal)
      && SameDuration(Values(list.nodes), duration)
    }

    ghost function State(): StorageState
      requires Valid()
      reads this, list, list.nodes, Mems, wal
    {
      StorageState(Views(Values(list.nodes), Mems, wal), wal.State())
    }

    /** A storage in front of an empty data directory, with a log or without, or in memory only. */
    constructor (inMemory: bool, logged: bool, duration: int, retention: int)
      ensures Valid() && fresh(list) && fresh(list.nodes) && fresh(wal) && fresh(Mems)
      ensures this.inMemory == inMemory && this.duration == duration && this.retention == retention
      ensures State() == Start(Config(duration, inMemory, logged))
    {
      hide MemoryPartition.Valid, MemoryPartition.State, Views, WellOwned, SameDuration;
      this.inMemory, this.duration, this.retention := inMemory, duration, retention;
      list := new PartitionListImpl();
      wal := new DiskWal(inMemory || !logged);
      Mems := {};
      new;
      var m := new MemoryPartition(wal, duration, 0);
      m.ReprKinds();
      NothingOwned(wal, duration);
      assert Values(list.nodes) == [];
      PushPartition(m);
    }

    // ----- InsertRows -----

    /** A fresh memory partition at the head, with a log segment of its own. */
    method NewPartition()
      requires Valid()
      modifies this, list, wal
      ensures Valid() && fresh(Mems - old(Mems)) && fresh(NodeSet(list.nodes) - NodeSet(old(list.nodes)))
      ensures State() == WithNewHead(old(State()))
    {
      hide MemoryPartition.Valid, MemoryPartition.State, Views, Punctuated, PartitionListImpl.Valid, WellOwned, Values;
      ghost var before := State();
      var m := new MemoryPartition(wal, duration, Punctuated(wal.State()).active);
      m.ReprKinds();
      PushPartition(m);
      MemoryOnly(Values(list.nodes), Mems, wal);
      wal.Punctuate();
    }

    method PushPartition(m: MemoryPartition)
      requires Valid() && m.Valid() && m.wal == wal && m.partitionDuration == duration
      requires m in m.Repr && m.Repr !! Mems && OnlyMemory(m.Repr)
      modifies this, list
      ensures Valid() && Mems == old(Mems) + m.Repr && |list.nodes| == |old(list.nodes)| + 1
      ensures fresh(NodeSet(list.nodes) - NodeSet(old(list.nodes)))
      ensures m.Valid() && State() == StorageState([MemPart(m.State(), m.segment)] + old(State()).parts, wal.State())
    {
      hide MemoryPartition.Valid, MemoryPartition.State, Views, PartitionListImpl.Valid, WellOwned, Values, SameDuration;
      ghost var before, ps, R := list.nodes, Values(list.nodes), Mems;
      MemoryOnly(ps, R, wal);
      OwnedCons(m, ps, R, wal);
      DurationCons(m, ps, duration);
      ghost var ps', R' := [Mem(m)] + ps, R + m.Repr;
      ghost var views := Views(ps', R', wal);
      assert OnlyMemory(R');
      list.Insert(Mem(m));
      Mems := R';
      assert WellOwned(ps', R', wal) && Views(ps', R', wal) == views;
      ValuesCons(list.nodes, before);
      assert Values(list.nodes) == ps';
    }

    method EnsureActiveHead()
      requires Valid()
      modifies this, list, wal
      ensures Valid() && fresh(Mems - old(Mems)) && fresh(NodeSet(list.nodes) - NodeSet(old(list.nodes)))
      ensures State() == WithActiveHead(old(State()), duration)
    {
      hide WellOwned, Punctuated, PartitionListImpl.Valid, Views;
      var head := list.GetHead();
      HeadView();
      if head != Absent && head.Active() {
        return;
      }
      NewPartition();
    }

    /** Head activity is visible in the state. */
    lemma HeadView()
      requires Valid()
      ensures |State().parts| == |list.nodes|
      ensures list.nodes != [] ==> list.nodes[0].val != Absent && (list.nodes[0].val.Active() <==> State().parts[0].Active(duration))
    {
      if list.nodes != [] {
        assert Owned(Values(list.nodes)[0], Mems, wal);
      }
    }

    lemma StateReadable()
      requires Valid()
      ensures Readable(State().parts)
    {
      hide MemoryPartition.Valid, AllSized;
      var ps := Values(list.nodes);
      forall k | 0 <= k < |ps| && ps[k].Mem?
        ensures AllSized(State().parts[k].m.metrics)
      {
        assert Owned(ps[k], Mems, wal);
        ps[k].mem.ValidSized();
      }
    }

    method InsertRows(rows: seq<Row>, now: int64) returns (ok: bool)
      requires Valid()
      modifies this, list, wal, Mems
      ensures Valid() && fresh(Mems - old(Mems)) && fresh(NodeSet(list.nodes) - NodeSet(old(list.nodes)))
      ensures Readable(old(State()).parts)
      ensures Cascaded(State(), ok) == InsertedRows(old(State()), rows, now, duration)
    {
      hide WithActiveHead, Cascade, State, Valid, Readable;
      StateReadable();
      EnsureActiveHead();
      ok := CascadeRows(rows, now);
    }

    /** The loop over the writable partitions. */
    method CascadeRows(rows: seq<Row>, now: int64) returns (ok: bool)
      requires Valid()
      modifies this, wal, Mems
      ensures Valid() && fresh(Mems - old(Mems)) && list.nodes == old(list.nodes)
      ensures Readable(old(State()).parts)
      ensures Cascaded(State(), ok) == Cascade(old(State()), rows, now, 0)
    {
      hide Valid, State, Cascade, Readable, OnlyMemory, PartitionListImpl.Valid;
      StateReadable();
      Walk(0);
      ghost var target, nodes := Cascade(State(), rows, now, 0), list.nodes;
      var it := list.NewIterator();
      var n := list.numPartitions;
      var rowsToInsert, refused := rows, false;
      var i := 0;
      while i < n && i < WRITABLE_PARTITIONS
        invariant 0 <= i <= n && Valid() && list.nodes == nodes && n == |nodes| && it !in Mems
        invariant fresh(it) && it.current != null && it.current.next == NodeAt(nodes, i)
        invariant fresh(Mems - old(Mems)) && Readable(State().parts)
        invariant Cascade(State(), rowsToInsert, now, i) == target
      {
        if rowsToInsert == [] {
          break;
        }
        refused, rowsToInsert := CascadeTurn(it, i, rowsToInsert, now);
        if refused {
          return false;
        }
        i := i + 1;
      }
      Walk(i);
      CascadeUnfold(State(), rowsToInsert, now, i);
      return true;
    }

    method CascadeTurn(it: PartitionIterator, ghost i: nat, rows: seq<Row>, now: int64) returns (refused: bool, rest: seq<Row>)
      requires Valid() && it !in Mems && i < |list.nodes| && i < WRITABLE_PARTITIONS && rows != []
      requires it.current != null && it.current.next == list.nodes[i]
      modifies it, this, wal, Mems
      ensures Valid() && fresh(Mems - old(Mems)) && list.nodes == old(list.nodes)
      ensures it.current != null && it.current.next == NodeAt(list.nodes, i + 1)
      ensures Readable(old(State()).parts) && Readable(State().parts)
      ensures Cascade(old(State()), rows, now, i) == if refused then Cascaded(State(), false) else Cascade(State(), rest, now, i + 1)
    {
      hide Valid, State, Cascade, Readable, OnlyMemory, PartitionListImpl.Valid;
      Walk(i);
      ghost var s := State();
      var more := it.Next();
      assert State() == s;
      refused, rest := InsertOne(i, it.Value(), rows, now);
      Walk(i);
    }

    /** One turn of the cascade: a memory partition takes what it can, a disk partition refuses. */
    method InsertOne(ghost i: nat, part: Partition, rows: seq<Row>, now: int64) returns (refused: bool, rest: seq<Row>)
      requires Valid() && i < |list.nodes| && i < WRITABLE_PARTITIONS && list.nodes[i].val == part && rows != []
      modifies this, wal, Mems
      ensures Valid() && fresh(Mems - old(Mems)) && list.nodes == old(list.nodes)
      ensures Readable(old(State()).parts) && Readable(State().parts)
      ensures Cascade(old(State()), rows, now, i) == if refused then Cascaded(State(), false) else Cascade(State(), rest, now, i + 1)
    {
      hide Valid, State, Cascade, Readable, Ingested, Outdated, LowerBound, Appended;
      StateReadable();
      Walk(i);
      CascadeUnfold(State(), rows, now, i);
      match part {
        case Mem(m) =>
          rest := InsertAt(i, m, rows, now);
          refused := false;
        case Disk(_) =>
          refused, rest := true, rows;
      }
      StateReadable();
    }

    /** What an iterator finds at place i, and how the state shows it. */
    lemma Walk(i: nat)
      requires Valid()
      ensures list.Valid() && OnlyMemory(Mems)
      ensures list.numPartitions == |list.nodes| == |State().parts| && list.head == NodeAt(list.nodes, 0)
      ensures i < |list.nodes| ==>
        && list.nodes[i].next == NodeAt(list.nodes, i + 1) && !list.nodes[i].val.Absent?
        && (list.nodes[i].val.Disk? <==> State().parts[i].DiskPart?)
        && (list.nodes[i].val.Disk? ==> State().parts[i].d == list.nodes[i].val.disk)
    {
      if i < |list.nodes| {
        assert Owned(Values(list.nodes)[i], Mems, wal);
      }
    }

    method InsertAt(ghost i: nat, m: MemoryPartition, rows: seq<Row>, now: int64) returns (outdated: seq<Row>)
      requires Valid() && i < |list.nodes| && list.nodes[i].val == Mem(m) && rows != []
      modifies this, wal, Mems
      ensures Valid() && fresh(Mems - old(Mems)) && list.nodes == old(list.nodes)
      ensures i < |old(State()).parts|
      ensures var s, p := old(State()), old(State()).parts[i];
              && p.MemPart? && AllSized(p.m.metrics)
              && outdated == Outdated(rows, LowerBound(p.m, rows))
              && State() == StorageState(s.parts[i := p.(m := Ingested(p.m, rows, now))], Appended(s.wal, rows))
    {
      hide Views, WellOwned, Ingested, Outdated, LowerBound, Appended, PartitionListImpl.Valid, SameDuration;
      MemoryOnly(Values(list.nodes), Mems, wal);
      outdated, Mems := InsertInto(m, rows, now, wal, Values(list.nodes), i, Mems);
      MemoryOnly(Values(list.nodes), Mems, wal);
    }

    // ----- Select -----

    method ReadAt(ghost i: nat, m: MemoryPartition, name: Name, start: int64, end: int64) returns (points: seq<Point>)
      requires Valid() && i < |list.nodes| && list.nodes[i].val == Mem(m) && start <= end
      modifies this, Mems
      ensures Valid() && fresh(Mems - old(Mems)) && list.nodes == old(list.nodes)
      ensures i < |old(State()).parts|
      ensures var s, p := old(State()), old(State()).parts[i];
              && p.MemPart? && MetricIn(p.m.metrics, name).size == |MetricIn(p.m.metrics, name).points|
              && Found(points) == PartRead(p, name, start, end, 0)
              && State() == s.(parts := s.parts[i := Touched(p, name)])
    {
      hide Views, WellOwned, PartRead, Touched, PartitionListImpl.Valid, SameDuration;
      ghost var ps := Values(list.nodes);
      MemoryOnly(ps, Mems, wal);
      points, Mems := ReadFrom(m, name, start, end, wal, ps, i, Mems);
      MemoryOnly(ps, Mems, wal);
      assert list.Valid() && Values(list.nodes) == ps;
    }

    /** One turn of the scan: skip the partition, stop, or put its points before the newer ones. */
    method Visit(ghost i: nat, part: Partition, name: Name, start: int64, end: int64, now: int64, points: seq<Point>)
      returns (done: bool, r: Selection)
      requires Valid() && i < |list.nodes| && list.nodes[i].val == part && start <= end
      modifies this, Mems
      ensures Valid() && fresh(Mems - old(Mems)) && list.nodes == old(list.nodes)
      ensures |State().parts| == |old(State()).parts| && i < |State().parts| && State().wal == old(State()).wal
      ensures State().parts[i] == old(State()).parts[i] || State().parts[i] == Touched(old(State()).parts[i], name)
      ensures State().parts == old(State()).parts[i := State().parts[i]]
      ensures Readable(old(State()).parts[i..]) && Readable(old(State()).parts[i + 1..]) && (!done ==> r.Found?)
      ensures var s := old(State());
              var target := SelectFrom(s.parts[i..], name, start, end, now, points);
              !target.Undecoded? ==>
                target == if done then r else SelectFrom(s.parts[i + 1..], name, start, end, now, r.points)
    {
      hide Valid, State, SelectFrom, Readable, PartRead, Touched, Read;
      StateReadable();
      Walk(i);
      Bounds(i);
      ReadableFrom(State().parts, i);
      SelectUnfold(State().parts, i, name, start, end, now, points);
      r := Found(points);
      if part.MinTimestamp() == 0 {
        return false, r;
      }
      if part.MaxTimestamp() < start {
        return true, r;
      }
      if part.MinTimestamp() > end {
        return false, r;
      }
      var ps := ReadPart(i, part, name, start, end, now);
      match ps {
        case NoDataPoints => return false, r;
        case Undecoded(_) => return true, ps;
        case Found(older) => return false, Found(older + points);
      }
    }

    method ReadPart(ghost i: nat, part: Partition, name: Name, start: int64, end: int64, now: int64) returns (r: Selection)
      requires Valid() && i < |list.nodes| && list.nodes[i].val == part && start <= end
      modifies this, Mems
      ensures Valid() && fresh(Mems - old(Mems)) && list.nodes == old(list.nodes)
      ensures |State().parts| == |old(State()).parts| && i < |State().parts| && State().wal == old(State()).wal
      ensures State().parts[i] == old(State()).parts[i] || State().parts[i] == Touched(old(State()).parts[i], name)
      ensures State().parts == old(State()).parts[i := State().parts[i]]
      ensures var p := old(State()).parts[i];
              && (p.MemPart? ==> MetricIn(p.m.metrics, name).size == |MetricIn(p.m.metrics, name).points|)
              && (!PartRead(p, name, start, end, now).Undecoded? ==> r == PartRead(p, name, start, end, now))
    {
      hide Valid, State, Touched, Read;
      Walk(i);
      match part {
        case Mem(m) =>
          var found := ReadAt(i, m, name, start, end);
          r := Found(found);
        case Disk(d) =>
          r := SelectDataPoints(d, name, start, end, now);
      }
    }

    /** One turn of the scan that began in state s. */
    method ScanTurn(it: PartitionIterator, ghost i: nat, ghost s: StorageState, name: Name, start: int64, end: int64, now: int64, points: seq<Point>)
      returns (done: bool, more: bool, r: Selection)
      requires Valid() && it !in Mems && start <= end
      requires i < |list.nodes| == |s.parts| && it.current == list.nodes[i] && Scanned(s, State(), i, name)
      modifies it, this, Mems
      ensures Valid() && fresh(Mems - old(Mems)) && list.nodes == old(list.nodes)
      ensures Scanned(s, State(), i + 1, name) && (!done ==> r.Found?)
      ensures it.current == NodeAt(list.nodes, i + 1) && (more <==> it.current != null)
      ensures Readable(s.parts[i..]) && Readable(s.parts[i + 1..])
      ensures var target := SelectFrom(s.parts[i..], name, start, end, now, points);
              !target.Undecoded? ==>
                target == if done then r else SelectFrom(s.parts[i + 1..], name, start, end, now, r.points)
    {
      hide Valid, State, SelectFrom, Readable, Touched, OnlyMemory, PartitionListImpl.Valid, OnlyTouched, TouchedUpTo;
      ghost var before := State();
      Walk(i);
      done, r := Visit(i, it.Value(), name, start, end, now, points);
      TouchedNext(s.parts, before.parts, State().parts, i, name);
      Walk(i);
      more := it.Next();
    }

    ghost predicate Scanned(s: StorageState, now: StorageState, i: nat, name: Name) {
      TouchedUpTo(s.parts, now.parts, i, name) && now.wal == s.wal
    }

    lemma ScannedAll(s: StorageState, now: StorageState, i: nat, name: Name)
      requires Scanned(s, now, i, name)
      ensures OnlyTouched(s.parts, now.parts, name) && now.wal == s.wal
    {
    }

    /** The scan over all partitions, newest first. */
    method ScanParts(name: Name, start: int64, end: int64, now: int64) returns (r: Selection)
      requires Valid() && start <= end
      modifies this, Mems
      ensures Valid() && fresh(Mems - old(Mems)) && list.nodes == old(list.nodes)
      ensures Readable(old(State()).parts) && State().wal == old(State()).wal
      ensures OnlyTouched(old(State()).parts, State().parts, name)
      ensures var target := SelectFrom(old(State()).parts, name, start, end, now, []);
              !target.Undecoded? ==> r == target
    {
      hide Valid, State, SelectFrom, Readable, OnlyMemory, PartitionListImpl.Valid, OnlyTouched, Scanned;
      StateReadable();
      Walk(0);
      ghost var s, nodes := State(), list.nodes;
      ghost var target := SelectFrom(s.parts, name, start, end, now, []);
      r := Found([]);
      var it := list.NewIterator();
      ghost var i: nat := 0;
      ScannedFirst(s, name);
      assert s.parts[0..] == s.parts;
      var more := it.Next();
      var done := false;
      while more
        invariant Valid() && list.nodes == nodes && fresh(it) && it !in Mems && fresh(Mems - old(Mems)) && |nodes| == |s.parts|
        invariant i <= |nodes| && it.current == NodeAt(nodes, i) && (more <==> it.current != null)
        invariant Scanned(s, State(), i, name) && Readable(s.parts[i..]) && r.Found?
        invariant !target.Undecoded? ==> SelectFrom(s.parts[i..], name, start, end, now, r.points) == target
        decreases |nodes| - i
      {
        done, more, r := ScanTurn(it, i, s, name, start, end, now, r.points);
        i := i + 1;
        if done {
          ScannedAll(s, State(), i, name);
          return;
        }
      }
      ScannedAll(s, State(), i, name);
      SelectUnfold(s.parts, i, name, start, end, now, r.points);
    }

    lemma ScannedFirst(s: StorageState, name: Name)
      ensures Scanned(s, s, 0, name)
    {
      TouchedFirst(s.parts, name);
    }

    /** The partitions before i have been read, the others not yet. */
    ghost predicate TouchedUpTo(before: seq<Part>, after: seq<Part>, i: nat, name: Name) {
      OnlyTouched(before, after, name) && i <= |before| && after[i..] == before[i..]
    }

    lemma TouchedFirst(parts: seq<Part>, name: Name)
      ensures TouchedUpTo(parts, parts, 0, name)
    {
    }

    lemma TouchedNext(before: seq<Part>, now: seq<Part>, next: seq<Part>, i: nat, name: Name)
      requires TouchedUpTo(before, now, i, name) && i < |now| == |next|
      requires (next[i] == now[i] || next[i] == Touched(now[i], name)) && next == now[i := next[i]]
      ensures OnlyTouched(before, next, name) && TouchedUpTo(before, next, i + 1, name)
      ensures now[i..] == before[i..] && now[i + 1..] == before[i + 1..]
    {
      hide Touched;
      assert now[i] == now[i..][0] == before[i..][0] == before[i];
      assert now[i + 1..] == now[i..][1..] == before[i..][1..] == before[i + 1..];
      assert next[i + 1..] == now[i + 1..];
    }

    lemma ReadableFrom(parts: seq<Part>, i: nat)
      requires Readable(parts) && i <= |parts|
      ensures Readable(parts[i..])
    {
      hide AllSized;
    }

    lemma Bounds(i: nat)
      requires Valid() && i < |list.nodes|
      ensures i < |State().parts|
      ensures list.nodes[i].val.MinTimestamp() == State().parts[i].MinT()
      ensures list.nodes[i].val.MaxTimestamp() == State().parts[i].MaxT()
    {
      assert Owned(Values(list.nodes)[i], Mems, wal);
    }

    /** Select: the scan, with the errors for a bad query and an empty result. */
    method Select(metric: seq<uint8>, name: Name, start: int64, end: int64, now: int64) returns (r: QueryResult)
      requires Valid()
      modifies this, Mems
      ensures Valid() && fresh(Mems - old(Mems)) && State().wal == old(State()).wal
      ensures OnlyTouched(old(State()).parts, State().parts, name)
      ensures metric == [] ==> r == MetricUnset
      ensures metric != [] && start >= end ==> r == BadRange
      ensures Readable(old(State()).parts)
      ensures metric != [] && start < end ==>
        var target := SelectFrom(old(State()).parts, name, start, end, now, []);
        (target.Found? ==> r == if target.points == [] then NothingFound else Answer(target.points))
    {
      hide Valid, State, SelectFrom, Readable, Touched;
      StateReadable();
      if metric == [] {
        return MetricUnset;
      }
      if start >= end {
        return BadRange;
      }
      var scanned := ScanParts(name, start, end, now);
      match scanned {
        case Undecoded(e) => return ReadFailed(e);
        case NoDataPoints => return NothingFound;
        case Found(points) => return if points == [] then NothingFound else Answer(points);
      }
    }

    // ----- flushPartitions -----

    /** The list and the state find the same partition by its lower bound. */
    lemma SameFirst(t: int64)
      requires Valid()
      ensures FirstAt(list.nodes, t) == FirstStart(State().parts, t)
    {
      hide Valid, State, FirstAt, FirstStart;
      Walk(0);
      var i, j := FirstAt(list.nodes, t), FirstStart(State().parts, t);
      if i < |list.nodes| {
        Bounds(i);
      }
      if j < |list.nodes| {
        Bounds(j);
      }
    }

    /** Removes the first partition that starts where the target starts. */
    method RemoveFirst(target: Partition) returns (ok: bool)
      requires Valid()
      modifies list, list.nodes
      ensures Valid()
      ensures var s, f := old(State()), FirstStart(old(State()).parts, old(target.MinTimestamp()));
              if ok then
                && f < |s.parts| && State() == s.(parts := WithoutFirst(s.parts, old(target.MinTimestamp())))
                && list.nodes == old(list.nodes)[..f] + old(list.nodes)[f + 1..]
                && forall j | f <= j < |old(list.nodes)| :: old(list.nodes)[j].next == old(list.nodes[j].next)
              else f == |s.parts| && State() == s && list.nodes == old(list.nodes)
    {
      hide Valid, State, FirstAt, FirstStart, PartitionListImpl.Valid, Partition.MinTimestamp;
      Walk(0);
      SameFirst(target.MinTimestamp());
      ok := RemoveListed(target, FirstAt(list.nodes, target.MinTimestamp()));
    }

    method RemoveListed(target: Partition, ghost f: nat) returns (ok: bool)
      requires Valid() && f == FirstAt(list.nodes, target.MinTimestamp())
      modifies list, list.nodes
      ensures Valid() && |old(State()).parts| == |old(list.nodes)| && (ok <==> f < |old(list.nodes)|)
      ensures !ok ==> State() == old(State()) && list.nodes == old(list.nodes)
      ensures ok ==>
        var s := old(State());
        && State() == s.(parts := s.parts[..f] + s.parts[f + 1..])
        && list.nodes == old(list.nodes)[..f] + old(list.nodes)[f + 1..]
        && forall j | f <= j < |old(list.nodes)| :: old(list.nodes)[j].next == old(list.nodes[j].next)
    {
      hide WellOwned, Views, Values, FirstAt, PartitionListImpl.Valid, Partition.MinTimestamp, SameDuration;
      ghost var before, ps := list.nodes, Values(list.nodes);
      ghost var ps' := if f < |ps| then ps[..f] + ps[f + 1..] else ps;
      if f < |ps| {
        OwnedWithout(ps, f, Mems, wal);
        DurationWithout(ps, f, duration);
        ValuesWithout(before, f);
      }
      ok := Unlist(target, f, ps');
      assert Values(list.nodes) == ps';
    }

    /** The list changes, the partitions do not. */
    method Unlist(target: Partition, ghost f: nat, ghost ps: seq<Partition>) returns (ok: bool)
      requires list.Valid() && f == FirstAt(list.nodes, target.MinTimestamp()) && WellOwned(ps, Mems, wal)
      modifies list, list.nodes
      ensures list.Valid() && WellOwned(ps, Mems, wal) && Views(ps, Mems, wal) == old(Views(ps, Mems, wal))
      ensures ok <==> f < |old(list.nodes)|
      ensures list.nodes == if ok then old(list.nodes)[..f] + old(list.nodes)[f + 1..] else old(list.nodes)
      ensures forall j | f <= j < |old(list.nodes)| :: old(list.nodes)[j].next == old(list.nodes[j].next)
    {
      hide WellOwned, Views, Values, FirstAt, PartitionListImpl.Valid, Partition.MinTimestamp;
      MemoryOnly(ps, Mems, wal);
      ok := list.Remove(target);
    }

    method DropPart(ghost k: nat, part: Partition)
      requires Valid() && k < |list.nodes| && list.nodes[k].val == part
      modifies list, list.nodes
      ensures Valid() && k < |old(State()).parts|
      ensures State() == old(State()).(parts := WithoutFirst(old(State()).parts, old(State()).parts[k].MinT()))
      ensures var f := FirstStart(old(State()).parts, old(State()).parts[k].MinT());
              f <= k && list.nodes == old(list.nodes)[..f] + old(list.nodes)[f + 1..]
      ensures old(list.nodes)[k].next == old(list.nodes[k].next)
    {
      hide Valid, State, FirstStart, WithoutFirst, Partition.MinTimestamp;
      Walk(k);
      Bounds(k);
      var ok := RemoveFirst(part);
    }

    /** Puts a disk partition in place of the first one that starts where the k-th starts. */
    method SwapPart(ghost k: nat, part: Partition, d: DiskPartition)
      requires Valid() && k < |list.nodes| && list.nodes[k].val == part
      modifies list, list.nodes
      ensures Valid() && k < |old(State()).parts|
      ensures State() == old(State()).(parts := WithFirst(old(State()).parts, old(State()).parts[k].MinT(), DiskPart(d)))
      ensures var f := FirstStart(old(State()).parts, old(State()).parts[k].MinT());
              f <= k && |list.nodes| == |old(list.nodes)| && fresh(list.nodes[f]) && list.nodes == old(list.nodes)[f := list.nodes[f]]
      ensures old(list.nodes)[k].next == old(list.nodes[k].next)
    {
      hide WellOwned, Views, FirstAt, FirstStart, PartitionListImpl.Valid, SameDuration;
      Bounds(k);
      SameFirst(part.MinTimestamp());
      MemoryOnly(Values(list.nodes), Mems, wal);
      ghost var f, ps := FirstAt(list.nodes, part.MinTimestamp()), Values(list.nodes);
      OwnedReplaced(ps, f, d, Mems, wal);
      DurationReplaced(ps, f, d, duration);
      var ok := list.Swap(part, Disk(d));
      assert Values(list.nodes) == ps[f := Disk(d)];
    }

    method FlushAt(ghost k: nat, m: MemoryPartition, now: int) returns (d: DiskPartition, ghost o: FlushOutcome)
      requires Valid() && k < |list.nodes| && list.nodes[k].val == Mem(m)
      modifies Mems
      ensures Valid() && k < |old(State()).parts|
      ensures Mems == old(Mems) && list.nodes == old(list.nodes) && list.nodes[k].next == old(list.nodes[k].next)
      ensures var s, p := old(State()), old(State()).parts[k];
              && p.MemPart? && o.disk == d && FlushedAs(p.m, o) && Dated([o], now, retention)
              && State() == s.(parts := s.parts[k := p.(m := o.sorted)])
    {
      hide Views, WellOwned, FlushedAs, PartitionListImpl.Valid, SameDuration, Dated;
      MemoryOnly(Values(list.nodes), Mems, wal);
      d, o := FlushInto(m, now, retention, wal, Values(list.nodes), k, Mems);
    }

    /** One turn of the sweep: the partition at place k stays, goes, or is swapped for its
        disk form. What lies behind keeps its place, and its node keeps its next pointer. */
    method FlushOne(ghost k: nat, part: Partition, now: int) returns (stop: bool, ghost outs: seq<FlushOutcome>, ghost c: nat)
      requires Valid() && k < |list.nodes| && list.nodes[k].val == part
      modifies list, list.nodes, wal, Mems
      ensures Valid() && Mems == old(Mems) && Turned(old(State()), k, inMemory, stop, outs, State(), c) && Dated(outs, now, retention)
      ensures c <= |list.nodes| && list.nodes[c..] == old(list.nodes)[k + 1..]
      ensures forall i | 0 <= i < |list.nodes| :: list.nodes[i] in old(list.nodes) || fresh(list.nodes[i])
      ensures old(list.nodes)[k].next == old(list.nodes[k].next)
    {
      hide Valid, State, Turned, FirstStart, WithoutFirst, FlushedAs;
      Walk(k);
      stop, outs, c := false, [], k;
      match part {
        case Disk(_) =>
          c := k + 1;
          TurnedPastDisk(State(), k, inMemory);
        case Mem(m) =>
          ghost var s := State();
          HoldsMemory(k);
          if inMemory {
            TurnedPastDropped(s, k);
            DropPart(k, part);
          } else {
            stop, outs, c := Persist(k, m, now);
          }
      }
    }

    /** Flush to disk, then swap, or remove when nothing was written. */
    method Persist(ghost k: nat, m: MemoryPartition, now: int) returns (stop: bool, ghost outs: seq<FlushOutcome>, ghost c: nat)
      requires Valid() && k < |list.nodes| && list.nodes[k].val == Mem(m)
      modifies list, list.nodes, wal, Mems
      ensures Valid() && Mems == old(Mems) && Turned(old(State()), k, false, stop, outs, State(), c) && Dated(outs, now, retention)
      ensures c <= |list.nodes| && list.nodes[c..] == old(list.nodes)[k + 1..]
      ensures forall i | 0 <= i < |list.nodes| :: list.nodes[i] in old(list.nodes) || fresh(list.nodes[i])
      ensures old(list.nodes)[k].next == old(list.nodes[k].next)
    {
      hide Valid, State, Turned, FirstStart, WithoutFirst, WithFirst, FlushedAs, Shortened, Dated;
      ghost var s := State();
      var d, o := FlushAt(k, m, now);
      SameRange(s.parts[k].m, o);
      outs := [o];
      if d.data == [] {
        stop, c := false, k;
        TurnedPastEmpty(s, k, o);
        DropPart(k, Mem(m));
        return;
      }
      c := k + 1;
      SwapPart(k, Mem(m), d);
      var ok := ShortenLog();
      stop := !ok;
      TurnedPastSwapped(s, k, o, State().wal, stop);
    }

    method ShortenLog() returns (ok: bool)
      requires Valid()
      modifies wal
      ensures Valid() && State().parts == old(State()).parts
      ensures ok <==> old(State()).wal.nop || old(State()).wal.segments != map[]
      ensures if ok then Shortened(old(State()).wal, State().wal) else State() == old(State())
    {
      hide WellOwned, Views, Shortened, PartitionListImpl.Valid, SameDuration;
      MemoryOnly(Values(list.nodes), Mems, wal);
      ok := wal.RemoveOldest();
    }

    lemma HoldsMemory(k: nat)
      requires Valid() && k < |list.nodes| && list.nodes[k].val.Mem?
      ensures k < |State().parts| && State().parts[k].MemPart?
    {
      assert Owned(Values(list.nodes)[k], Mems, wal);
    }

    /** One turn of the pass: skip a writable partition, or flush one behind them, and move
        on. The node the iterator stands on still points to the next one of the original list. */
    method Turn(it: PartitionIterator, i: nat, now: int, ghost s: StorageState, ghost outs: seq<FlushOutcome>, ghost c: nat,
                ghost orig: seq<Node>, ghost at: nat)
      returns (i': nat, stop: bool, more: bool, ghost outs': seq<FlushOutcome>, ghost c': nat)
      requires Valid() && it !in Mems && Sweeping(s, i, inMemory, outs, State(), c) && i <= WRITABLE_PARTITIONS && Dated(outs, now, retention)
      requires c <= |list.nodes| && at < |orig| && list.nodes[c..] == orig[at..] && it.current == orig[at]
      modifies it, list, list.nodes, wal, Mems
      ensures Valid() && Mems == old(Mems) && i' <= WRITABLE_PARTITIONS && Dated(outs', now, retention)
      ensures if stop then FlushPass(s, inMemory, outs', false, State()) else Sweeping(s, i', inMemory, outs', State(), c')
      ensures c' <= |list.nodes| && list.nodes[c'..] == orig[at + 1..]
      ensures forall j | 0 <= j < |list.nodes| :: list.nodes[j] in old(list.nodes) || fresh(list.nodes[j])
      ensures !stop ==> it.current == NodeAt(orig, at + 1) && (more <==> it.current != null)
    {
      hide Valid, State, Turned, Sweeping, FlushPass, PartitionListImpl.Valid, OnlyMemory, Dated;
      TailsAgree(list.nodes, c, orig, at);
      Walk(c);
      i', stop, more, outs', c' := i, false, false, outs, c + 1;
      ghost var before := State();
      if i < WRITABLE_PARTITIONS {
        SweepingSkips(s, i, inMemory, outs, before, c);
        i' := i + 1;
      } else {
        ghost var flushed;
        stop, flushed, c' := FlushOne(c, it.Value(), now);
        SweepingTurns(s, inMemory, outs, before, c, stop, flushed, State(), c');
        DatedConcat(outs, flushed, now, retention);
        outs' := outs + flushed;
        if stop {
          return;
        }
      }
      more := it.Next();
    }

    /** The pass over the list with a live iterator, while the list changes under it. */
    method FlushPartitions(now: int) returns (ok: bool, ghost outs: seq<FlushOutcome>)
      requires Valid()
      modifies list, list.nodes, wal, Mems
      ensures Valid() && Mems == old(Mems) && FlushPass(old(State()), inMemory, outs, ok, State()) && Dated(outs, now, retention)
      ensures forall i | 0 <= i < |list.nodes| :: list.nodes[i] in old(list.nodes) || fresh(list.nodes[i])
    {
      hide Valid, State, Sweeping, FlushPass, PartitionListImpl.Valid, OnlyMemory, Dated;
      Walk(0);
      ghost var s, orig := State(), list.nodes;
      ghost var at: nat, c: nat := 0, 0;
      outs := [];
      DatedNone(now, retention);
      SweepingStarts(s, inMemory);
      var i: nat, stop := 0, false;
      var it := list.NewIterator();
      var more := it.Next();
      while more
        invariant Valid() && Mems == old(Mems) && fresh(it) && i <= WRITABLE_PARTITIONS && Dated(outs, now, retention)
        invariant at <= |orig| && it.current == NodeAt(orig, at) && (more <==> it.current != null)
        invariant c <= |list.nodes| && list.nodes[c..] == orig[at..]
        invariant forall j | 0 <= j < |list.nodes| :: list.nodes[j] in orig || fresh(list.nodes[j])
        invariant Sweeping(s, i, inMemory, outs, State(), c)
        decreases |orig| - at
      {
        i, stop, more, outs, c := Turn(it, i, now, s, outs, c, orig, at);
        if stop {
          return false, outs;
        }
        at := at + 1;
      }
      Walk(c);
      SweepingEnds(s, i, inMemory, outs, State());
      return true, outs;
    }

    // ----- removeExpiredPartitions -----

    method RemoveExpiredPartitions(now: int) returns (ok: bool)
      requires Valid()
      modifies list, list.nodes
      ensures Valid() && Purge(State().parts, ok) == Purged(old(State()).parts, now)
      ensures State().wal == old(State()).wal
    {
      hide Valid, State, RemovedAll, ExpiredOf, AsParts;
      var victims := ListExpired(now);
      ok := EvictAll(victims);
    }

    /** Only disk partitions expire. */
    method ListExpired(now: int) returns (victims: seq<DiskPartition>)
      requires Valid()
      ensures AsParts(victims) == ExpiredOf(State().parts, now)
    {
      hide Valid, State, ExpiredOf, AsParts, PartitionListImpl.Valid, OnlyMemory;
      Walk(0);
      ghost var parts, i: nat := State().parts, 0;
      victims := [];
      NoVictims(parts, now);
      var it := list.NewIterator();
      var more := it.Next();
      while more
        invariant Valid() && State().parts == parts && fresh(it)
        invariant i <= |list.nodes| == |parts| && it.current == NodeAt(list.nodes, i) && (more <==> it.current != null)
        invariant AsParts(victims) + ExpiredOf(parts[i..], now) == ExpiredOf(parts, now)
        decreases |parts| - i
      {
        victims, more := ListTurn(it, i, victims, now);
        i := i + 1;
      }
      assert parts[i..] == [];
      NoneExpired(parts, now);
    }

    method ListTurn(it: PartitionIterator, ghost i: nat, victims: seq<DiskPartition>, now: int) returns (victims': seq<DiskPartition>, more: bool)
      requires Valid() && it !in Mems && i < |list.nodes| == |State().parts| && it.current == list.nodes[i]
      modifies it
      ensures Valid() && State() == old(State()) && it.current == NodeAt(list.nodes, i + 1) && (more <==> it.current != null)
      ensures var parts := State().parts;
              AsParts(victims) + ExpiredOf(parts[i..], now) == AsParts(victims') + ExpiredOf(parts[i + 1..], now)
    {
      hide Valid, State, ExpiredOf, AsParts, PartitionListImpl.Valid, OnlyMemory;
      Walk(i);
      ghost var s := State();
      var part := it.Value();
      victims' := victims;
      if part.Disk? && part.disk.Expired(now) {
        victims' := victims + [part.disk];
      }
      OneVictim(s.parts, i, victims, victims', now);
      more := it.Next();
      assert State() == s;
    }

    method EvictAll(victims: seq<DiskPartition>) returns (ok: bool)
      requires Valid()
      modifies list, list.nodes
      ensures Valid() && Purge(State().parts, ok) == RemovedAll(old(State()).parts, AsParts(victims))
      ensures State().wal == old(State()).wal
    {
      hide Valid, State, FirstStart, WithoutFirst, RemovedAll, AsParts;
      ghost var s, nodes := State(), list.nodes;
      for i := 0 to |victims|
        invariant Valid() && State().wal == s.wal
        invariant forall j | 0 <= j < |list.nodes| :: list.nodes[j] in nodes
        invariant RemovedAll(State().parts, AsParts(victims[i..])) == RemovedAll(s.parts, AsParts(victims))
      {
        RemovedUnfold(State().parts, victims, i);
        var removed := Evict(victims[i]);
        if !removed {
          return false;
        }
      }
      RemovedUnfold(State().parts, victims, |victims|);
      return true;
    }

    method Evict(d: DiskPartition) returns (ok: bool)
      requires Valid()
      modifies list, list.nodes
      ensures Valid() && forall j | 0 <= j < |list.nodes| :: list.nodes[j] in old(list.nodes)
      ensures ok <==> FirstStart(old(State()).parts, d.meta.minTs) < |old(State()).parts|
      ensures State() == if ok then old(State()).(parts := WithoutFirst(old(State()).parts, d.meta.minTs)) else old(State())
    {
      hide Valid, State, FirstStart, WithoutFirst;
      Walk(0);
      ok := RemoveFirst(Disk(d));
    }

    // ----- Close -----

    /** Pushes the writable partitions back, flushes, drops what has expired, and
        discards the log only if all that went well. */
    method Close(now: int) returns (ok: bool, ghost passed: bool, ghost outs: seq<FlushOutcome>, ghost flushed: StorageState)
      requires Valid()
      modifies this, list, list.nodes, wal, Mems
      ensures Valid() && FlushPass(ReadOnly(old(State())), inMemory, outs, passed, flushed) && Dated(outs, now, retention)
      ensures ok <==> passed && Purged(flushed.parts, now).ok
      ensures State() == if !passed then flushed
                         else if !ok then flushed.(parts := Purged(flushed.parts, now).parts)
                         else Closed(flushed, now)
      ensures ok && !State().wal.nop ==> State().wal.segments == map[]
      ensures !ok ==> State().wal.segments == flushed.wal.segments
    {
      hide Valid, State, FlushPass, WithNewHead, Purged, Emptied, Dated;
      NewPartition();
      NewPartition();
      ok, outs := FlushPartitions(now);
      passed, flushed := ok, State();
      if !ok {
        return;
      }
      ok := RemoveExpiredPartitions(now);
      if !ok {
        return;
      }
      NothingLogged(flushed.wal);
      DiscardLog();
    }

    method DiscardLog()
      requires Valid()
      modifies wal
      ensures Valid() && State() == old(State()).(wal := Emptied(old(State()).wal))
    {
      hide WellOwned, Views, Emptied, PartitionListImpl.Valid, SameDuration;
      MemoryOnly(Values(list.nodes), Mems, wal);
      wal.RemoveAll();
    }
  }

  // ----- Partitions to be removed -----

  function AsParts(ds: seq<DiskPartition>): (ps: seq<Part>) {
    seq(|ds|, i requires 0 <= i < |ds| => DiskPart(ds[i]))
  }

  lemma NoVictims(parts: seq<Part>, now: int)
    ensures AsParts([]) + ExpiredOf(parts[0..], now) == ExpiredOf(parts, now)
  {
    assert parts[0..] == parts;
  }

  lemma OneVictim(parts: seq<Part>, i: nat, before: seq<DiskPartition>, after: seq<DiskPartition>, now: int)
    requires i < |parts|
    requires after == if parts[i].DiskPart? && parts[i].d.Expired(now) then before + [parts[i].d] else before
    ensures AsParts(before) + ExpiredOf(parts[i..], now) == AsParts(after) + ExpiredOf(parts[i + 1..], now)
  {
    hide ExpiredOf;
    assert parts[i..] == [parts[i]] + parts[i + 1..];
    ExpiredCons([], parts[i], parts[i + 1..], now);
    if after != before {
      assert AsParts(after) == AsParts(before) + [parts[i]];
    }
  }

  lemma RemovedUnfold(parts: seq<Part>, victims: seq<DiskPartition>, i: nat)
    requires i <= |victims|
    ensures victims[0..] == victims
    ensures i == |victims| ==> RemovedAll(parts, AsParts(victims[i..])) == Purge(parts, true)
    ensures i < |victims| ==>
      var t := victims[i].meta.minTs;
      if FirstStart(parts, t) == |parts| then RemovedAll(parts, AsParts(victims[i..])) == Purge(parts, false)
      else RemovedAll(parts, AsParts(victims[i..])) == RemovedAll(WithoutFirst(parts, t), AsParts(victims[i + 1..]))
  {
    hide FirstStart, WithoutFirst;
    if i < |victims| {
      assert AsParts(victims[i..])[0] == DiskPart(victims[i]);
      assert AsParts(victims[i..])[1..] == AsParts(victims[i + 1..]);
    }
  }

  datatype QueryResult =
    | Answer(points: seq<Point>)
    | MetricUnset
    | BadRange
    | NothingFound
    | ReadFailed(error: Gorilla.DecodeError)

  /** One turn of the scan. */
  lemma SelectUnfold(parts: seq<Part>, i: nat, name: Name, start: int, end: int, now: int, points: seq<Point>)
    requires i <= |parts| && Readable(parts[i..])
    ensures i == |parts| ==> SelectFrom(parts[i..], name, start, end, now, points) == Found(points)
    ensures i < |parts| ==> Readable(parts[i + 1..])
    ensures i < |parts| && parts[i].MemPart? ==> MetricIn(parts[i].m.metrics, name).size == |MetricIn(parts[i].m.metrics, name).points|
    ensures i < |parts| ==>
      var p, all := parts[i], SelectFrom(parts[i..], name, start, end, now, points);
      && (p.MinT() != 0 && p.MaxT() < start ==> all == Found(points))
      && (p.MinT() == 0 || (p.MaxT() >= start && p.MinT() > end) ==> all == SelectFrom(parts[i + 1..], name, start, end, now, points))
      && (p.MinT() != 0 && p.MaxT() >= start && p.MinT() <= end ==>
            var r := PartRead(p, name, start, end, now);
            all == if r.Undecoded? then r
                   else SelectFrom(parts[i + 1..], name, start, end, now, if r.Found? then r.points + points else points))
  {
    hide AllSized, PartRead;
    if i < |parts| {
      var rest := parts[i..];
      assert rest[0] == parts[i] && rest[1..] == parts[i + 1..];
      if parts[i].MemPart? {
        assert AllSized(rest[0].m.metrics);
        SizedMetric(parts[i].m.metrics, name);
      }
    }
  }

  lemma SizedMetric(ms: map<Name, MetricState>, name: Name)
    requires AllSized(ms)
    ensures MetricIn(ms, name).size == |MetricIn(ms, name).points|
  {
  }

  lemma CascadeUnfold(s: StorageState, rows: seq<Row>, now: int64, i: nat)
    requires Readable(s.parts)
    ensures i >= |s.parts| || i >= WRITABLE_PARTITIONS || rows == [] ==> Cascade(s, rows, now, i) == Cascaded(s, true)
    ensures i < |s.parts| && i < WRITABLE_PARTITIONS && rows != [] ==>
      if s.parts[i].DiskPart? then Cascade(s, rows, now, i) == Cascaded(s, false)
      else
        var p := s.parts[i];
        AllSized(p.m.metrics) &&
        var s' := StorageState(s.parts[i := p.(m := Ingested(p.m, rows, now))], Appended(s.wal, rows));
        Readable(s'.parts) && Cascade(s, rows, now, i) == Cascade(s', Outdated(rows, LowerBound(p.m, rows)), now, i + 1)
  {
    hide Ingested, Outdated, LowerBound, Appended, AllSized;
    if i < |s.parts| && rows != [] && s.parts[i].MemPart? {
      IngestedSized(s.parts[i].m, rows, now);
    }
  }
}
