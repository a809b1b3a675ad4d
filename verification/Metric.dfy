/** One metric inside a memory partition: points in order, a buffer for points
    that came late, range reads, and the merge written at flush. */
module Metric {
  import opened Words
  import opened GorillaFormat
  import opened Gorilla

  datatype MetricState = MetricState(
    size: nat, minTs: int64, maxTs: int64,
    points: seq<Point>, outOfOrder: seq<Point>)

  const NO_POINTS := MetricState(0, 0, 0, [], [])

  ghost predicate Ascending(ps: seq<Point>) {
    forall i, j | 0 <= i < j < |ps| :: ps[i].ts < ps[j].ts
  }

  ghost predicate Sorted(ps: seq<Point>) {
    forall i, j | 0 <= i < j < |ps| :: ps[i].ts <= ps[j].ts
  }

  /** What every metric keeps. */
  ghost predicate Consistent(m: MetricState) {
    && m.size == |m.points|
    && Ascending(m.points)
    && (m.size > 0 ==> m.minTs == m.points[0].ts && m.maxTs == m.points[m.size - 1].ts)
    && (m.size == 0 ==> m == NO_POINTS)
    && (forall p | p in m.outOfOrder :: p.ts <= m.maxTs)
  }

  /** One insertPoint call. */
  function Inserted(m: MetricState, p: Point): MetricState
    requires m.size == |m.points|
  {
    if m.size == 0 then
      MetricState(1, p.ts, p.ts, m.points + [p], m.outOfOrder)
    else if m.points[m.size - 1].ts < p.ts then
      m.(size := m.size + 1, maxTs := p.ts, points := m.points + [p])
    else
      m.(outOfOrder := m.outOfOrder + [p])
  }

  ghost function InsertedAll(m: MetricState, ps: seq<Point>): (r: MetricState)
    requires Consistent(m)
    ensures Consistent(r)
    decreases |ps|
  {
    if ps == [] then m else InsertedAll(Inserted(m, ps[0]), ps[1..])
  }

  /** After any run of inserts the invariant holds and every point is kept once. */
  lemma {:induction false} InsertRunKeeps(m: MetricState, ps: seq<Point>)
    requires Consistent(m)
    ensures Consistent(InsertedAll(m, ps))
    ensures var r := InsertedAll(m, ps);
            multiset(r.points) + multiset(r.outOfOrder) == multiset(m.points) + multiset(m.outOfOrder) + multiset(ps)
    decreases |ps|
  {
    hide Consistent, Inserted;
    if ps != [] {
      InsertKeeps(m, ps[0]);
      assert ps == [ps[0]] + ps[1..];
      InsertRunKeeps(Inserted(m, ps[0]), ps[1..]);
    }
  }

  lemma InsertKeeps(m: MetricState, p: Point)
    requires Consistent(m)
    ensures m.size == |m.points| && Consistent(Inserted(m, p))
    ensures var r := Inserted(m, p);
            multiset(r.points) + multiset(r.outOfOrder) == multiset(m.points) + multiset(m.outOfOrder) + multiset{p}
  {
    InsertedConsistent(m, p);
    hide Ascending;
  }

  lemma InsertedConsistent(m: MetricState, p: Point)
    requires Consistent(m)
    ensures m.size == |m.points| && Consistent(Inserted(m, p))
  {
  }

  // ----- Range reads -----

  function InRange(ps: seq<Point>, start: int, end: int): seq<Point> {
    if ps == [] then []
    else
      var rest := InRange(ps[1..], start, end);
      if start <= ps[0].ts < end then [ps[0]] + rest else rest
  }

  /** The range read of a metric: start inclusive, end exclusive, except that an
      end equal to the newest timestamp still takes the newest point. */
  function Selected(m: MetricState, start: int, end: int): seq<Point>
    requires m.size == |m.points|
  {
    if m.size > 0 && end == m.maxTs && end > m.minTs
    then InRange(m.points, start, end) + [m.points[m.size - 1]]
    else InRange(m.points, start, end)
  }

  lemma {:induction false} InRangeIsSlice(ps: seq<Point>, start: int, end: int, lo: nat, hi: nat)
    requires lo <= hi <= |ps|
    requires forall i | 0 <= i < lo :: ps[i].ts < start
    requires forall i | lo <= i < hi :: start <= ps[i].ts < end
    requires forall i | hi <= i < |ps| :: ps[i].ts >= end
    ensures InRange(ps, start, end) == ps[lo..hi]
    decreases |ps|
  {
    if ps != [] {
      var rest := ps[1..];
      assert forall i | 0 <= i < |rest| :: rest[i] == ps[i + 1];
      if lo > 0 {
        InRangeIsSlice(rest, start, end, lo - 1, hi - 1);
        assert ps[lo..hi] == rest[lo - 1..hi - 1];
      } else if hi > 0 {
        InRangeIsSlice(rest, start, end, 0, hi - 1);
        assert ps[0..hi] == [ps[0]] + rest[0..hi - 1];
      } else {
        InRangeIsSlice(rest, start, end, 0, 0);
      }
    }
  }

  /** InRange keeps exactly the points of the range, with their multiplicity. */
  lemma {:induction false} InRangeMultiset(ps: seq<Point>, start: int, end: int, p: Point)
    ensures multiset(InRange(ps, start, end))[p] == if start <= p.ts < end then multiset(ps)[p] else 0
    decreases |ps|
  {
    if ps != [] {
      assert ps == [ps[0]] + ps[1..];
      InRangeMultiset(ps[1..], start, end, p);
    }
  }

  // ----- Merge -----

  function Merge(ps: seq<Point>, os: seq<Point>): seq<Point>
    decreases |ps| + |os|
  {
    if os == [] then ps
    else if ps == [] then os
    else if os[0].ts < ps[0].ts then [os[0]] + Merge(ps, os[1..])
    else [ps[0]] + Merge(ps[1..], os)
  }

  function AtTime(ps: seq<Point>, t: int): seq<Point> {
    InRange(ps, t, t + 1)
  }

  lemma {:induction false} NoneAtTime(ps: seq<Point>, t: int)
    requires forall p | p in ps :: p.ts != t
    ensures AtTime(ps, t) == []
    decreases |ps|
  {
    if ps != [] {
      NoneAtTime(ps[1..], t);
    }
  }

  /** At every timestamp the merge holds the in-order points, then the buffered
      ones: nothing is lost, nothing doubled, and in-order points go first. */
  lemma {:induction false} MergeStable(ps: seq<Point>, os: seq<Point>, t: int)
    requires Sorted(ps) && Sorted(os)
    ensures AtTime(Merge(ps, os), t) == AtTime(ps, t) + AtTime(os, t)
    decreases |ps| + |os|
  {
    hide AtTime;
    if os == [] {
      NoneAtTime([], t);
    } else if ps == [] {
      NoneAtTime([], t);
    } else if os[0].ts < ps[0].ts {
      var o, later := os[0], os[1..];
      assert os == [o] + later;
      MergeStable(ps, later, t);
      AtTimeCons(o, Merge(ps, later), t);
      AtTimeCons(o, later, t);
      if o.ts == t {
        NoneAtTime(ps, t);
      }
    } else {
      var p, later := ps[0], ps[1..];
      assert ps == [p] + later;
      MergeStable(later, os, t);
      AtTimeCons(p, Merge(later, os), t);
      AtTimeCons(p, later, t);
    }
  }

  lemma AtTimeCons(p: Point, rest: seq<Point>, t: int)
    ensures AtTime([p] + rest, t) == (if p.ts == t then [p] else []) + AtTime(rest, t)
  {
    assert ([p] + rest)[1..] == rest;
  }

  lemma {:induction false} MergeLength(ps: seq<Point>, os: seq<Point>)
    ensures |Merge(ps, os)| == |ps| + |os|
    decreases |ps| + |os|
  {
    if os == [] || ps == [] {
    } else if os[0].ts < ps[0].ts {
      MergeLength(ps, os[1..]);
    } else {
      MergeLength(ps[1..], os);
    }
  }

  lemma {:induction false} MergeSorted(ps: seq<Point>, os: seq<Point>)
    requires Sorted(ps) && Sorted(os)
    ensures Sorted(Merge(ps, os))
    ensures multiset(Merge(ps, os)) == multiset(ps) + multiset(os)
    decreases |ps| + |os|
  {
    hide Sorted;
    if os == [] || ps == [] {
    } else if os[0].ts < ps[0].ts {
      SortedTail(ps);
      SortedTail(os);
      MergeSorted(ps, os[1..]);
      HeadFirst(os[0], Merge(ps, os[1..]), ps, os[1..]);
    } else {
      SortedTail(ps);
      SortedTail(os);
      MergeSorted(ps[1..], os);
      HeadFirst(ps[0], Merge(ps[1..], os), ps[1..], os);
    }
  }

  lemma SortedTail(ps: seq<Point>)
    requires Sorted(ps) && ps != []
    ensures Sorted(ps[1..]) && (forall q | q in ps :: ps[0].ts <= q.ts) && (forall q | q in ps[1..] :: q in ps)
    ensures multiset(ps) == multiset{ps[0]} + multiset(ps[1..])
  {
    assert ps == [ps[0]] + ps[1..];
  }

  lemma HeadFirst(p: Point, merged: seq<Point>, ps: seq<Point>, os: seq<Point>)
    requires Sorted(merged) && multiset(merged) == multiset(ps) + multiset(os)
    requires forall q | q in ps :: p.ts <= q.ts
    requires forall q | q in os :: p.ts <= q.ts
    ensures Sorted([p] + merged)
  {
    forall q | q in merged
      ensures p.ts <= q.ts
    {
      assert q in multiset(merged);
    }
  }

  lemma TakeBuffered(ps: seq<Point>, os: seq<Point>, pi: nat, oi: nat, done: seq<Point>)
    requires pi <= |ps| && oi < |os| && (pi < |ps| ==> os[oi].ts < ps[pi].ts)
    ensures done + [os[oi]] + Merge(ps[pi..], os[oi + 1..]) == done + Merge(ps[pi..], os[oi..])
  {
    assert os[oi..][1..] == os[oi + 1..];
    if pi == |ps| {
      assert os[oi..] == [os[oi]] + os[oi + 1..];
    }
  }

  lemma TakeInOrder(ps: seq<Point>, os: seq<Point>, pi: nat, oi: nat, done: seq<Point>)
    requires pi < |ps| && oi <= |os| && (oi < |os| ==> os[oi].ts >= ps[pi].ts)
    ensures done + [ps[pi]] + Merge(ps[pi + 1..], os[oi..]) == done + Merge(ps[pi..], os[oi..])
  {
    assert ps[pi..][1..] == ps[pi + 1..];
    if oi == |os| {
      assert ps[pi..] == [ps[pi]] + ps[pi + 1..];
    }
  }

  lemma MergeDone(ps: seq<Point>, os: seq<Point>)
    ensures Merge(ps[|ps|..], os[|os|..]) == []
  {
  }

  // ----- The metric object -----

  class MemoryMetric {
    const name: seq<uint8>
    var size: nat
    var minTimestamp: int64
    var maxTimestamp: int64
    var points: seq<Point>
    var outOfOrderPoints: seq<Point>

    ghost function State(): MetricState
      reads this
    {
      MetricState(size, minTimestamp, maxTimestamp, points, outOfOrderPoints)
    }

    constructor (name: seq<uint8>)
      ensures this.name == name && State() == NO_POINTS
    {
      this.name := name;
      size, minTimestamp, maxTimestamp, points, outOfOrderPoints := 0, 0, 0, [], [];
    }

    method InsertPoint(p: Point)
      requires Consistent(State())
      modifies this
      ensures State() == Inserted(old(State()), p) && Consistent(State())
    {
      if size == 0 {
        points := points + [p];
        minTimestamp, maxTimestamp, size := p.ts, p.ts, 1;
        return;
      }
      if points[size - 1].ts < p.ts {
        points := points + [p];
        maxTimestamp, size := p.ts, size + 1;
        return;
      }
      outOfOrderPoints := outOfOrderPoints + [p];
    }

    method SelectPoints(start: int64, end: int64) returns (r: seq<Point>)
      requires Consistent(State()) && start <= end
      ensures r == Selected(State(), start, end)
    {
      if end <= minTimestamp {
        InRangeIsSlice(points, start, end, 0, 0);
        return [];
      }
      var startIdx, endIdx := 0, size;
      if start > minTimestamp {
        startIdx := Search(points, start);
      }
      if end < maxTimestamp {
        endIdx := Search(points, end);
      }
      assert endIdx < |points| ==> points[endIdx].ts >= end;
      r := points[startIdx..endIdx];
      SliceIsSelected(State(), start, end, startIdx, endIdx);
    }

    /** Sorts the buffer in place and feeds everything to the encoder in time order. */
    method EncodeAllPoints(encoder: GorillaEncoder)
      requires Consistent(State()) && encoder.Valid()
      modifies this`outOfOrderPoints, encoder, encoder.buf
      ensures Consistent(State()) && encoder.Valid() && encoder.written == old(encoder.written)
      ensures Sorted(outOfOrderPoints) && multiset(outOfOrderPoints) == multiset(old(outOfOrderPoints))
      ensures encoder.State() == EncodedAll(old(encoder.State()), Merge(points, outOfOrderPoints))
      ensures encoder.Buffered() == old(encoder.Buffered()) + SeriesBits(old(encoder.State()), Merge(points, outOfOrderPoints))
    {
      hide Merge;
      ghost var buffered := outOfOrderPoints;
      outOfOrderPoints := SortPoints(outOfOrderPoints);
      assert forall p | p in outOfOrderPoints :: p in multiset(buffered);
      EncodeMerged(points, outOfOrderPoints, encoder);
    }
  }

  method EncodeMerged(ps: seq<Point>, os: seq<Point>, encoder: GorillaEncoder)
    requires encoder.Valid()
    modifies encoder, encoder.buf
    ensures encoder.Valid() && encoder.written == old(encoder.written)
    ensures encoder.State() == EncodedAll(old(encoder.State()), Merge(ps, os))
    ensures encoder.Buffered() == old(encoder.Buffered()) + SeriesBits(old(encoder.State()), Merge(ps, os))
  {
    hide *;
    ghost var e, before := encoder.State(), encoder.Buffered();
    ghost var done: seq<Point> := [];
    FedNothing(encoder);
    assert ps[0..] == ps && os[0..] == os;
    var oi, pi := 0, 0;
    while oi < |os| && pi < |ps|
      invariant 0 <= oi <= |os| && 0 <= pi <= |ps|
      invariant Fed(encoder, e, before, done) && encoder.written == old(encoder.written)
      invariant done + Merge(ps[pi..], os[oi..]) == Merge(ps, os)
    {
      if os[oi].ts < ps[pi].ts {
        TakeBuffered(ps, os, pi, oi, done);
        Feed(encoder, os[oi], e, before, done);
        done, oi := done + [os[oi]], oi + 1;
      } else {
        TakeInOrder(ps, os, pi, oi, done);
        Feed(encoder, ps[pi], e, before, done);
        done, pi := done + [ps[pi]], pi + 1;
      }
    }
    while oi < |os|
      invariant 0 <= oi <= |os| && 0 <= pi <= |ps| && (oi < |os| ==> pi == |ps|)
      invariant Fed(encoder, e, before, done) && encoder.written == old(encoder.written)
      invariant done + Merge(ps[pi..], os[oi..]) == Merge(ps, os)
    {
      TakeBuffered(ps, os, pi, oi, done);
      Feed(encoder, os[oi], e, before, done);
      done, oi := done + [os[oi]], oi + 1;
    }
    while pi < |ps|
      invariant oi == |os| && 0 <= pi <= |ps|
      invariant Fed(encoder, e, before, done) && encoder.written == old(encoder.written)
      invariant done + Merge(ps[pi..], os[oi..]) == Merge(ps, os)
    {
      TakeInOrder(ps, os, pi, oi, done);
      Feed(encoder, ps[pi], e, before, done);
      done, pi := done + [ps[pi]], pi + 1;
    }
    MergeDone(ps, os);
    assert done + [] == done;
    FedMeans(encoder, e, before, done);
  }

  /** The encoder, in state e with `before` written, has since been fed `done`. */
  ghost predicate Fed(encoder: GorillaEncoder, e: EncoderState, before: seq<bool>, done: seq<Point>)
    reads encoder, encoder.buf
  {
    && encoder.Valid()
    && encoder.State() == EncodedAll(e, done)
    && encoder.Buffered() == before + SeriesBits(e, done)
  }

  lemma FedNothing(encoder: GorillaEncoder)
    requires encoder.Valid()
    ensures Fed(encoder, encoder.State(), encoder.Buffered(), [])
  {
  }

  lemma FedMeans(encoder: GorillaEncoder, e: EncoderState, before: seq<bool>, done: seq<Point>)
    requires Fed(encoder, e, before, done)
    ensures encoder.Valid()
    ensures encoder.State() == EncodedAll(e, done)
    ensures encoder.Buffered() == before + SeriesBits(e, done)
  {
  }

  method Feed(encoder: GorillaEncoder, p: Point, ghost e: EncoderState, ghost before: seq<bool>, ghost done: seq<Point>)
    requires Fed(encoder, e, before, done)
    modifies encoder, encoder.buf
    ensures Fed(encoder, e, before, done + [p]) && encoder.written == old(encoder.written)
  {
    hide EncodedAll, SeriesBits, GorillaFormat.Encoded, PointBits, GorillaEncoder.Valid;
    SeriesSnoc(e, done, p);
    encoder.EncodePoint(p);
  }

  /** The bounds selectPoints works out delimit the range read. */
  lemma SliceIsSelected(m: MetricState, start: int, end: int, lo: nat, hi: nat)
    requires Consistent(m) && start <= end && m.minTs < end && lo <= hi <= m.size
    requires forall i | 0 <= i < lo :: m.points[i].ts < start
    requires forall i | lo <= i < m.size :: m.points[i].ts >= start
    requires if end < m.maxTs
             then (forall i | 0 <= i < hi :: m.points[i].ts < end) && (forall i | hi <= i < m.size :: m.points[i].ts >= end)
             else hi == m.size
    ensures m.points[lo..hi] == Selected(m, start, end)
  {
    if m.size > 0 && end == m.maxTs {
      var last := m.size - 1;
      assert m.points[last].ts == end;
      InRangeIsSlice(m.points, start, end, lo, last);
      assert m.points[lo..m.size] == m.points[lo..last] + [m.points[last]];
    } else {
      InRangeIsSlice(m.points, start, end, lo, hi);
    }
  }

  /** sort.Search for the first point at or after t. */
  method Search(ps: seq<Point>, t: int64) returns (i: nat)
    requires Sorted(ps)
    ensures i <= |ps|
    ensures forall k | 0 <= k < i :: ps[k].ts < t
    ensures forall k | i <= k < |ps| :: ps[k].ts >= t
  {
    i := 0;
    var j := |ps|;
    while i < j
      invariant 0 <= i <= j <= |ps|
      invariant forall k | 0 <= k < i :: ps[k].ts < t
      invariant forall k | j <= k < |ps| :: ps[k].ts >= t
    {
      var h := (i + j) / 2;
      if ps[h].ts < t {
        i := h + 1;
      } else {
        j := h;
      }
    }
  }

  /** sort.Slice by timestamp: callers may rely on the order, not on how ties fall. */
  method SortPoints(ps: seq<Point>) returns (r: seq<Point>)
    ensures Sorted(r) && multiset(r) == multiset(ps)
  {
    hide Sorted;
    SortedNone();
    r := [];
    for i := 0 to |ps|
      invariant Sorted(r) && multiset(r) == multiset(ps[..i])
    {
      var k := Search(r, ps[i].ts);
      InsertSorted(r, k, ps[i]);
      assert ps[..i + 1] == ps[..i] + [ps[i]];
      r := r[..k] + [ps[i]] + r[k..];
    }
    assert ps[..|ps|] == ps;
  }

  lemma SortedNone()
    ensures Sorted([])
  {
  }

  lemma InsertSorted(r: seq<Point>, k: nat, p: Point)
    requires Sorted(r) && k <= |r|
    requires forall i | 0 <= i < k :: r[i].ts < p.ts
    requires forall i | k <= i < |r| :: r[i].ts >= p.ts
    ensures var r' := r[..k] + [p] + r[k..]; Sorted(r') && multiset(r') == multiset(r) + multiset{p}
  {
    assert r == r[..k] + r[k..];
  }
}
