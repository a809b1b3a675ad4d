/** Memory partitions: which rows one takes, which it hands back, and what it holds. */
module Memory {
  import opened Words
  import opened GorillaFormat
  import opened Metric
  import opened Rows
  import opened WalSegments

  /** `started` is the sync.Once that fixes minT with the first batch. */
  datatype MemState = MemState(
    numPoints: int, minT: int64, maxT: int64, started: bool,
    metrics: map<Name, MetricState>)

  const NO_ROWS := MemState(0, 0, 0, false, map[])

  // ----- One insertRows call -----

  /** A row without a timestamp gets the clock's. */
  function Stamped(r: Row, now: int64): Row {
    if r.point.ts == 0 then r.(point := r.point.(ts := now)) else r
  }

  function Oldest(rows: seq<Row>): (t: int64)
    requires rows != []
    ensures exists i | 0 <= i < |rows| :: rows[i].point.ts == t
    ensures forall i | 0 <= i < |rows| :: t <= rows[i].point.ts
  {
    var last := rows[|rows| - 1].point.ts;
    if |rows| == 1 then last
    else
      var t := Oldest(rows[..|rows| - 1]);
      if last < t then last else t
  }

  /** The rows older than the partition, handed back to the caller. */
  function Outdated(rows: seq<Row>, minT: int64): seq<Row> {
    if rows == [] then []
    else
      var before, r := Outdated(rows[..|rows| - 1], minT), rows[|rows| - 1];
      if r.point.ts < minT then before + [r] else before
  }

  /** The rows the partition takes, stamped. */
  function Accepted(rows: seq<Row>, minT: int64, now: int64): seq<Row> {
    if rows == [] then []
    else
      var before, r := Accepted(rows[..|rows| - 1], minT, now), rows[|rows| - 1];
      if r.point.ts < minT then before else before + [Stamped(r, now)]
  }

  function NewestOf(first: int64, accepted: seq<Row>): (t: int64)
    ensures first <= t && forall i | 0 <= i < |accepted| :: accepted[i].point.ts <= t
    ensures t == first || exists i | 0 <= i < |accepted| :: accepted[i].point.ts == t
  {
    if accepted == [] then first
    else
      var t, last := NewestOf(first, accepted[..|accepted| - 1]), accepted[|accepted| - 1].point.ts;
      if last > t then last else t
  }

  function MetricIn(ms: map<Name, MetricState>, name: Name): MetricState {
    if name in ms then ms[name] else NO_POINTS
  }

  ghost predicate AllConsistent(ms: map<Name, MetricState>) {
    forall n | n in ms :: Consistent(ms[n])
  }

  ghost predicate AllSized(ms: map<Name, MetricState>) {
    forall n | n in ms :: ms[n].size == |ms[n].points|
  }

  ghost function Stored(ms: map<Name, MetricState>, rows: seq<Row>): (r: map<Name, MetricState>)
    requires AllSized(ms)
    ensures AllSized(r)
  {
    if rows == [] then ms
    else
      var before, row := Stored(ms, rows[..|rows| - 1]), rows[|rows| - 1];
      before[row.name := Inserted(MetricIn(before, row.name), row.point)]
  }

  /** The lower bound in force once `rows` have been seen. */
  function LowerBound(m: MemState, rows: seq<Row>): int64
    requires rows != []
  {
    if m.started then m.minT else Oldest(rows)
  }

  ghost function Ingested(m: MemState, rows: seq<Row>, now: int64): MemState
    requires rows != [] && AllSized(m.metrics)
  {
    var minT := LowerBound(m, rows);
    var accepted := Accepted(rows, minT, now);
    var newest := NewestOf(rows[0].point.ts, accepted);
    MemState(m.numPoints + |accepted|, minT, if m.maxT < newest then newest else m.maxT, true,
             Stored(m.metrics, accepted))
  }

  lemma IngestedSized(m: MemState, rows: seq<Row>, now: int64)
    requires rows != [] && AllSized(m.metrics)
    ensures AllSized(Ingested(m, rows, now).metrics)
  {
  }

  // ----- What a partition holds -----

  ghost function Tagged(name: Name, ps: seq<Point>): (rs: seq<Row>)
    ensures |rs| == |ps|
  {
    seq(|ps|, i requires 0 <= i < |ps| => Row(name, ps[i]))
  }

  ghost function RowsOf(name: Name, m: MetricState): multiset<Row> {
    multiset(Tagged(name, m.points)) + multiset(Tagged(name, m.outOfOrder))
  }

  /** All rows of a partition, in-order and buffered. */
  ghost function Content(ms: map<Name, MetricState>): multiset<Row> {
    if ms == map[] then multiset{}
    else
      var n :| n in ms;
      RowsOf(n, ms[n]) + Content(ms - {n})
  }

  lemma {:induction false} ContentSplit(ms: map<Name, MetricState>, n: Name)
    requires n in ms
    ensures Content(ms) == RowsOf(n, ms[n]) + Content(ms - {n})
    decreases |ms|
  {
    hide RowsOf;
    var k :| k in ms && Content(ms) == RowsOf(k, ms[k]) + Content(ms - {k});
    if k != n {
      ContentSplit(ms - {k}, n);
      ContentSplit(ms - {n}, k);
      assert ms - {k} - {n} == ms - {n} - {k};
    }
  }

  /** Inserting a point adds exactly its row. */
  lemma ContentInsert(ms: map<Name, MetricState>, name: Name, p: Point)
    requires AllSized(ms)
    ensures Content(ms[name := Inserted(MetricIn(ms, name), p)]) == Content(ms) + multiset{Row(name, p)}
  {
    hide Content, RowsOf;
    var m := MetricIn(ms, name);
    var after := ms[name := Inserted(m, p)];
    ContentSplit(after, name);
    assert after - {name} == ms - {name};
    RowsOfInserted(name, m, p);
    if name in ms {
      ContentSplit(ms, name);
    } else {
      assert ms - {name} == ms;
      RowsOfNone(name);
    }
  }

  lemma RowsOfNone(name: Name)
    ensures RowsOf(name, NO_POINTS) == multiset{}
  {
  }

  lemma RowsOfInserted(name: Name, m: MetricState, p: Point)
    requires m.size == |m.points|
    ensures RowsOf(name, Inserted(m, p)) == RowsOf(name, m) + multiset{Row(name, p)}
  {
    assert Tagged(name, m.points + [p]) == Tagged(name, m.points) + [Row(name, p)];
    assert Tagged(name, m.outOfOrder + [p]) == Tagged(name, m.outOfOrder) + [Row(name, p)];
  }

  lemma {:induction false} ContentStored(ms: map<Name, MetricState>, rows: seq<Row>)
    requires AllSized(ms)
    ensures Content(Stored(ms, rows)) == Content(ms) + multiset(rows)
  {
    hide Content, Inserted, AllSized;
    if rows != [] {
      var init, row := rows[..|rows| - 1], rows[|rows| - 1];
      ContentStored(ms, init);
      ContentInsert(Stored(ms, init), row.name, row.point);
      assert rows == init + [row];
    }
  }

  lemma {:induction false} StoredConsistent(ms: map<Name, MetricState>, rows: seq<Row>)
    requires AllSized(ms) && AllConsistent(ms)
    ensures AllConsistent(Stored(ms, rows))
  {
    hide Inserted, Consistent;
    NoPointsConsistent();
    if rows != [] {
      var before, row := Stored(ms, rows[..|rows| - 1]), rows[|rows| - 1];
      StoredConsistent(ms, rows[..|rows| - 1]);
      InsertedConsistent(MetricIn(before, row.name), row.point);
    }
  }

  lemma NoPointsConsistent()
    ensures Consistent(NO_POINTS)
  {
  }

  // ----- Counting rows -----

  lemma NothingHeld()
    ensures Content(map[]) == multiset{}
  {
  }

  lemma {:induction false} TaggedCount(name: Name, ps: seq<Point>, r: Row)
    ensures multiset(Tagged(name, ps))[r] == if r.name == name then multiset(ps)[r.point] else 0
    decreases |ps|
  {
    if ps != [] {
      var p, rest := ps[0], ps[1..];
      TaggedCount(name, rest, r);
      assert ps == [p] + rest && Tagged(name, ps) == [Row(name, p)] + Tagged(name, rest);
    }
  }

  lemma {:induction false} ContentOther(ms: map<Name, MetricState>, r: Row)
    requires r.name !in ms
    ensures Content(ms)[r] == 0
    decreases |ms|
  {
    hide RowsOf, Content;
    if ms == map[] {
      NothingHeld();
    } else {
      var n :| n in ms;
      ContentSplit(ms, n);
      RowsOfCount(n, ms[n], r);
      ContentOther(ms - {n}, r);
    }
  }

  lemma RowsOfCount(n: Name, m: MetricState, r: Row)
    ensures RowsOf(n, m)[r] == if r.name == n then multiset(m.points)[r.point] + multiset(m.outOfOrder)[r.point] else 0
  {
    TaggedCount(n, m.points, r);
    TaggedCount(n, m.outOfOrder, r);
  }

  /** A row is held as often as its metric holds its point. */
  lemma ContentCount(ms: map<Name, MetricState>, r: Row)
    ensures Content(ms)[r] == multiset(MetricIn(ms, r.name).points)[r.point] + multiset(MetricIn(ms, r.name).outOfOrder)[r.point]
  {
    hide RowsOf, Content;
    if r.name in ms {
      ContentSplit(ms, r.name);
      RowsOfCount(r.name, ms[r.name], r);
      ContentOther(ms - {r.name}, r);
    } else {
      ContentOther(ms, r);
    }
  }

  /** What every memory partition keeps. */
  ghost predicate Sound(m: MemState) {
    && AllSized(m.metrics) && AllConsistent(m.metrics)
    && m.numPoints == |Content(m.metrics)|
    && (m.started ==> m.minT <= m.maxT && Content(m.metrics) != multiset{})
    && (!m.started ==> m.minT == 0 && m.maxT == 0 && Content(m.metrics) == multiset{})
    && (forall r | r in Content(m.metrics) :: m.minT <= r.point.ts <= m.maxT)
    && (m.started && 0 < m.maxT ==> MaxHeld(m))
  }

  /** The upper bound is some row's timestamp. */
  ghost predicate MaxHeld(m: MemState) {
    exists r :: r in Content(m.metrics) && r.point.ts == m.maxT
  }

  lemma {:induction false} AcceptedRange(rows: seq<Row>, minT: int64, now: int64)
    requires now > 0
    ensures forall i | 0 <= i < |Accepted(rows, minT, now)| :: minT <= Accepted(rows, minT, now)[i].point.ts != 0
    ensures |Accepted(rows, minT, now)| + |Outdated(rows, minT)| == |rows|
  {
    if rows != [] {
      AcceptedRange(rows[..|rows| - 1], minT, now);
    }
  }

  lemma {:induction false} NothingOutdated(rows: seq<Row>, minT: int64)
    requires forall i | 0 <= i < |rows| :: minT <= rows[i].point.ts
    ensures Outdated(rows, minT) == []
  {
    if rows != [] {
      NothingOutdated(rows[..|rows| - 1], minT);
    }
  }

  lemma {:induction false} AcceptedHas(rows: seq<Row>, minT: int64, now: int64, i: nat)
    requires i < |rows| && minT <= rows[i].point.ts
    ensures Stamped(rows[i], now) in Accepted(rows, minT, now)
  {
    if i < |rows| - 1 {
      AcceptedHas(rows[..|rows| - 1], minT, now, i);
    }
  }

  /** A positive upper bound is either the old one or the timestamp of a new row. */
  lemma IngestMaxHeld(m: MemState, rows: seq<Row>, now: int64)
    requires Sound(m) && rows != []
    requires Content(Ingested(m, rows, now).metrics) == Content(m.metrics) + multiset(Accepted(rows, LowerBound(m, rows), now))
    ensures 0 < Ingested(m, rows, now).maxT ==> MaxHeld(Ingested(m, rows, now))
  {
    hide Content, Stored, Accepted, AllSized, AllConsistent, Oldest, NewestOf;
    var minT := LowerBound(m, rows);
    var accepted := Accepted(rows, minT, now);
    var newest, m' := NewestOf(rows[0].point.ts, accepted), Ingested(m, rows, now);
    if 0 < m'.maxT {
      if newest <= m.maxT {
        assert MaxHeld(m);
        var r :| r in Content(m.metrics) && r.point.ts == m.maxT;
        assert r in Content(m'.metrics);
      } else if newest == rows[0].point.ts {
        AcceptedHas(rows, minT, now, 0);
        assert rows[0] in multiset(accepted);
        assert rows[0] in Content(m'.metrics);
      } else {
        var i :| 0 <= i < |accepted| && accepted[i].point.ts == newest;
        assert accepted[i] in multiset(accepted);
        assert accepted[i] in Content(m'.metrics);
      }
    }
  }

  /** How many of the rows a partition with lower bound minT stores as q: those that reach
      the bound, under their own time or, for lack of one, under the clock's. */
  ghost function StoredAs(rows: seq<Row>, minT: int, now: int64, q: Row): nat {
    |set k | 0 <= k < |rows| && minT <= rows[k].point.ts && IsStoredAs(rows[k], now, q)|
  }

  predicate IsStoredAs(r: Row, now: int64, q: Row) {
    q.name == r.name && q.point.value == r.point.value && q.point.ts == if r.point.ts == 0 then now else r.point.ts
  }

  ghost function Indexes(n: nat): (all: set<int>)
    ensures |all| == n && forall k :: k in all <==> 0 <= k < n
  {
    if n == 0 then {} else Indexes(n - 1) + {n - 1}
  }

  lemma IndexCount(n: nat, some: set<int>)
    requires forall k | k in some :: 0 <= k < n
    ensures |some| <= n
  {
    assert Indexes(n) == some + (Indexes(n) - some);
  }

  lemma StoredAsAtMost(rows: seq<Row>, minT: int, now: int64, q: Row)
    ensures StoredAs(rows, minT, now, q) <= |rows|
  {
    IndexCount(|rows|, set k | 0 <= k < |rows| && minT <= rows[k].point.ts && IsStoredAs(rows[k], now, q));
  }

  lemma StoredAsSnoc(rows: seq<Row>, r: Row, minT: int, now: int64, q: Row)
    ensures StoredAs(rows + [r], minT, now, q) == StoredAs(rows, minT, now, q) + if minT <= r.point.ts && IsStoredAs(r, now, q) then 1 else 0
  {
    hide IsStoredAs;
    var all, n := rows + [r], |rows|;
    var before := set k | 0 <= k < n && minT <= rows[k].point.ts && IsStoredAs(rows[k], now, q);
    var after := set k | 0 <= k < |all| && minT <= all[k].point.ts && IsStoredAs(all[k], now, q);
    assert all[n] == r && forall k | 0 <= k < n :: all[k] == rows[k];
    assert after == before + if minT <= r.point.ts && IsStoredAs(r, now, q) then {n} else {};
  }

  lemma {:induction false} AcceptedCount(rows: seq<Row>, minT: int64, now: int64, q: Row)
    ensures multiset(Accepted(rows, minT, now))[q] == StoredAs(rows, minT, now, q)
  {
    hide Accepted, StoredAs;
    if rows == [] {
      AcceptedNone(minT, now);
      StoredAsAtMost(rows, minT, now, q);
    } else {
      var init, r := rows[..|rows| - 1], rows[|rows| - 1];
      AcceptedCount(init, minT, now, q);
      assert rows == init + [r];
      AcceptedSnoc(init, r, minT, now);
      StoredAsSnoc(init, r, minT, now, q);
    }
  }

  /** A batch adds exactly the accepted rows, and the partition stays sound. */
  lemma IngestKeeps(m: MemState, rows: seq<Row>, now: int64)
    requires Sound(m) && rows != [] && now > 0
    ensures Sound(Ingested(m, rows, now))
    ensures forall q: Row :: Content(Ingested(m, rows, now).metrics)[q]
                          == Content(m.metrics)[q] + StoredAs(rows, if m.started then m.minT else Oldest(rows), now, q)
    ensures Content(Ingested(m, rows, now).metrics) == Content(m.metrics) + multiset(Accepted(rows, LowerBound(m, rows), now))
  {
    hide Content, Stored, Accepted, AllSized, AllConsistent, Oldest, NewestOf, MaxHeld, StoredAs;
    var minT := LowerBound(m, rows);
    var accepted := Accepted(rows, minT, now);
    StoredConsistent(m.metrics, accepted);
    ContentStored(m.metrics, accepted);
    AcceptedRange(rows, minT, now);
    IngestMaxHeld(m, rows, now);
    forall q: Row
      ensures multiset(accepted)[q] == StoredAs(rows, minT, now, q)
    {
      AcceptedCount(rows, minT, now, q);
    }
    IngestRangeHolds(m, rows, now);
    if !m.started {
      NothingOutdated(rows, minT);
      assert multiset(accepted)[accepted[0]] > 0;
    }
  }

  /** All rows lie within the new bounds. */
  lemma IngestRangeHolds(m: MemState, rows: seq<Row>, now: int64)
    requires Sound(m) && rows != [] && now > 0
    requires Content(Ingested(m, rows, now).metrics) == Content(m.metrics) + multiset(Accepted(rows, LowerBound(m, rows), now))
    ensures var m' := Ingested(m, rows, now);
            forall r | r in Content(m'.metrics) :: m'.minT <= r.point.ts <= m'.maxT
  {
    hide Content, Stored, Accepted, AllSized, AllConsistent, Oldest, NewestOf, MaxHeld;
    var minT := LowerBound(m, rows);
    var accepted := Accepted(rows, minT, now);
    AcceptedRange(rows, minT, now);
    forall r: Row | r in multiset(accepted)
      ensures minT <= r.point.ts <= NewestOf(rows[0].point.ts, accepted)
    {
      assert r in accepted;
    }
  }

  /** Every row is either taken, stamped, or handed back unchanged. */
  lemma {:induction false} IngestSplits(rows: seq<Row>, minT: int64, now: int64)
    requires forall i | 0 <= i < |rows| :: rows[i].point.ts != 0
    ensures multiset(Accepted(rows, minT, now)) + multiset(Outdated(rows, minT)) == multiset(rows)
    ensures forall r | r in Outdated(rows, minT) :: r in rows && r.point.ts < minT
    ensures forall r | r in Accepted(rows, minT, now) :: r in rows && r.point.ts >= minT
  {
    if rows != [] {
      var init := rows[..|rows| - 1];
      IngestSplits(init, minT, now);
      assert rows == init + [rows[|rows| - 1]];
    }
  }

  // ----- Rows without a timestamp -----

  function Timed(rows: seq<Row>): seq<Row> {
    if rows == [] then []
    else
      var before, r := Timed(rows[..|rows| - 1]), rows[|rows| - 1];
      if r.point.ts == 0 then before else before + [r]
  }

  /** The rows without a timestamp, stamped. */
  function Stamps(rows: seq<Row>, now: int64): seq<Row> {
    if rows == [] then []
    else
      var before, r := Stamps(rows[..|rows| - 1], now), rows[|rows| - 1];
      if r.point.ts == 0 then before + [Stamped(r, now)] else before
  }

  /** All rows without a timestamp are stamped and taken if the bound is not positive,
      else all are handed back; the others split as if they had come alone. */
  lemma {:induction false} UnstampedTaken(rows: seq<Row>, minT: int64, now: int64)
    ensures multiset(Accepted(rows, minT, now))
         == multiset(Accepted(Timed(rows), minT, now)) + multiset(if minT <= 0 then Stamps(rows, now) else [])
  {
    hide Accepted, Stamped;
    if rows == [] {
      AcceptedNone(minT, now);
    } else {
      var init, r := rows[..|rows| - 1], rows[|rows| - 1];
      UnstampedTaken(init, minT, now);
      assert rows == init + [r];
      AcceptedSnoc(init, r, minT, now);
      AcceptedSnoc(Timed(init), r, minT, now);
    }
  }

  lemma AcceptedNone(minT: int64, now: int64)
    ensures Accepted([], minT, now) == []
  {
  }

  lemma AcceptedSnoc(rows: seq<Row>, r: Row, minT: int64, now: int64)
    ensures Accepted(rows + [r], minT, now)
         == if r.point.ts < minT then Accepted(rows, minT, now) else Accepted(rows, minT, now) + [Stamped(r, now)]
    ensures r.point.ts != 0 ==> Stamped(r, now) == r
  {
    assert (rows + [r])[..|rows|] == rows;
  }

  lemma {:induction false} UnstampedLate(rows: seq<Row>, minT: int64, now: int64)
    ensures Timed(Outdated(rows, minT)) == Outdated(Timed(rows), minT)
    ensures Stamps(Outdated(rows, minT), now) == if minT <= 0 then [] else Stamps(rows, now)
  {
    if rows != [] {
      var init, r := rows[..|rows| - 1], rows[|rows| - 1];
      UnstampedLate(init, minT, now);
      var timed, late := Timed(init), Outdated(init, minT);
      assert (timed + [r])[..|timed|] == timed && (late + [r])[..|late|] == late;
    }
  }

  lemma {:induction false} TimedNonzero(rows: seq<Row>)
    ensures forall i | 0 <= i < |Timed(rows)| :: Timed(rows)[i].point.ts != 0
  {
    if rows != [] {
      TimedNonzero(rows[..|rows| - 1]);
    }
  }

  /** How many of the rows have no timestamp and become q under the clock's time. */
  ghost function UnstampedAs(rows: seq<Row>, now: int64, q: Row): nat {
    |set k | 0 <= k < |rows| && rows[k].point.ts == 0 && q == Row(rows[k].name, Point(now, rows[k].point.value))|
  }

  lemma UnstampedAsAtMost(rows: seq<Row>, now: int64, q: Row)
    ensures UnstampedAs(rows, now, q) <= |rows|
  {
    IndexCount(|rows|, set k | 0 <= k < |rows| && rows[k].point.ts == 0 && q == Row(rows[k].name, Point(now, rows[k].point.value)));
  }

  lemma UnstampedAsSnoc(rows: seq<Row>, r: Row, now: int64, q: Row)
    ensures UnstampedAs(rows + [r], now, q)
         == UnstampedAs(rows, now, q) + if r.point.ts == 0 && q == Row(r.name, Point(now, r.point.value)) then 1 else 0
  {
    var all, n := rows + [r], |rows|;
    var before := set k | 0 <= k < n && rows[k].point.ts == 0 && q == Row(rows[k].name, Point(now, rows[k].point.value));
    var after := set k | 0 <= k < |all| && all[k].point.ts == 0 && q == Row(all[k].name, Point(now, all[k].point.value));
    assert all[n] == r && forall k | 0 <= k < n :: all[k] == rows[k];
    assert after == before + if r.point.ts == 0 && q == Row(r.name, Point(now, r.point.value)) then {n} else {};
  }

  lemma {:induction false} StampsCount(rows: seq<Row>, now: int64, q: Row)
    ensures multiset(Stamps(rows, now))[q] == UnstampedAs(rows, now, q)
  {
    hide UnstampedAs;
    if rows == [] {
      UnstampedAsAtMost(rows, now, q);
    } else {
      var init, r := rows[..|rows| - 1], rows[|rows| - 1];
      StampsCount(init, now, q);
      assert rows == init + [r];
      UnstampedAsSnoc(init, r, now, q);
    }
  }

  lemma {:induction false} StampsNone(rows: seq<Row>, now: int64)
    ensures Stamps(rows, now) == [] <==> forall i | 0 <= i < |rows| :: rows[i].point.ts != 0
  {
    if rows != [] {
      StampsNone(rows[..|rows| - 1], now);
    }
  }

  // ----- A batch in its order -----

  /** A row that reaches the bound is taken in its place, stamped if it has no timestamp; any
      other is handed back in its place, as it is. */
  lemma BatchInOrder(a: seq<Row>, r: Row, b: seq<Row>, minT: int64, now: int64)
    ensures var t := if r.point.ts == 0 then now else r.point.ts;
            Accepted(a + [r] + b, minT, now)
              == Accepted(a, minT, now) + (if minT <= r.point.ts then [Row(r.name, Point(t, r.point.value))] else []) + Accepted(b, minT, now)
    ensures Outdated(a + [r] + b, minT) == Outdated(a, minT) + (if minT <= r.point.ts then [] else [r]) + Outdated(b, minT)
  {
    hide Accepted, Outdated;
    SplitConcat(a + [r], b, minT, now);
    AcceptedSnoc(a, r, minT, now);
    OutdatedSnoc(a, r, minT);
  }

  lemma OutdatedSnoc(rows: seq<Row>, r: Row, minT: int64)
    ensures Outdated(rows + [r], minT) == Outdated(rows, minT) + if r.point.ts < minT then [r] else []
    ensures Outdated([], minT) == []
  {
    assert (rows + [r])[..|rows|] == rows;
  }

  lemma {:induction false} SplitConcat(a: seq<Row>, b: seq<Row>, minT: int64, now: int64)
    ensures Accepted(a + b, minT, now) == Accepted(a, minT, now) + Accepted(b, minT, now)
    ensures Outdated(a + b, minT) == Outdated(a, minT) + Outdated(b, minT)
    decreases |b|
  {
    hide Accepted, Outdated, Stamped;
    if b == [] {
      assert a + b == a;
      AcceptedNone(minT, now);
      OutdatedSnoc(a, Row([], Point(0, 0)), minT);
    } else {
      var init, r := b[..|b| - 1], b[|b| - 1];
      SplitConcat(a, init, minT, now);
      assert b == init + [r] && a + b == (a + init) + [r];
      AcceptedSnoc(init, r, minT, now);
      AcceptedSnoc(a + init, r, minT, now);
      OutdatedSnoc(init, r, minT);
      OutdatedSnoc(a + init, r, minT);
    }
  }

  /** Rows are stored one after another. */
  lemma {:induction false} StoredInOrder(ms: map<Name, MetricState>, a: seq<Row>, b: seq<Row>)
    requires AllSized(ms)
    ensures Stored(ms, a + b) == Stored(Stored(ms, a), b)
    decreases |b|
  {
    hide Inserted, AllSized;
    if b == [] {
      assert a + b == a;
    } else {
      var init := b[..|b| - 1];
      StoredInOrder(ms, a, init);
      assert (a + b)[..|a + b| - 1] == a + init;
    }
  }

  // ----- The row loop, one row at a time -----

  lemma TakeNone(rows: seq<Row>, first: int64, minT: int64, now: int64, ms: map<Name, MetricState>)
    requires AllSized(ms)
    ensures Outdated(rows[..0], minT) == [] && Accepted(rows[..0], minT, now) == []
    ensures NewestOf(first, []) == first && Stored(ms, []) == ms
  {
  }

  lemma TakeOne(rows: seq<Row>, i: nat, first: int64, minT: int64, now: int64, ms: map<Name, MetricState>)
    requires i < |rows| && AllSized(ms)
    ensures var r, was, took := rows[i], Accepted(rows[..i], minT, now), Accepted(rows[..i + 1], minT, now);
            if r.point.ts < minT then took == was && Outdated(rows[..i + 1], minT) == Outdated(rows[..i], minT) + [r]
            else
              var m := MetricIn(Stored(ms, was), r.name);
              && Outdated(rows[..i + 1], minT) == Outdated(rows[..i], minT)
              && took == was + [Stamped(r, now)] && Stamped(r, now).name == r.name && m.size == |m.points|
              && NewestOf(first, took) == (if Stamped(r, now).point.ts > NewestOf(first, was) then Stamped(r, now).point.ts else NewestOf(first, was))
              && Stored(ms, took) == Stored(ms, was)[r.name := Inserted(m, Stamped(r, now).point)]
  {
    hide Inserted;
    assert rows[..i + 1][..i] == rows[..i];
    var was, r := Accepted(rows[..i], minT, now), Stamped(rows[i], now);
    assert (was + [r])[..|was|] == was;
  }

  // ----- The partition object -----

  datatype InsertResult = Rest(outdated: seq<Row>) | NoRowsGiven

  class MemoryPartition {
    const wal: DiskWal
    const partitionDuration: int
    /** The log segment that was opened for this partition. */
    ghost const segment: nat
    var numPoints: int
    var minT: int64
    var maxT: int64
    var started: bool
    var metrics: map<Name, MemoryMetric>

    /** This object and its metrics. */
    ghost var Repr: set<object>

    ghost predicate Valid()
      reads this, Repr
    {
      && this in Repr && (forall o: object | o in Repr :: o == this || o is MemoryMetric)
      && (forall n | n in metrics :: metrics[n] in Repr)
      && (forall n | n in metrics :: metrics[n].name == n && Consistent(metrics[n].State()))
    }

    ghost function MetricStates(): map<Name, MetricState>
      requires Valid()
      reads this, Repr
    {
      map n | n in metrics :: metrics[n].State()
    }

    ghost function State(): MemState
      requires Valid()
      reads this, Repr
    {
      MemState(numPoints, minT, maxT, started, MetricStates())
    }

    constructor (wal: DiskWal, partitionDuration: int, ghost segment: nat)
      ensures Valid() && fresh(Repr) && State() == NO_ROWS
      ensures this.wal == wal && this.partitionDuration == partitionDuration && this.segment == segment
    {
      this.wal, this.partitionDuration, this.segment := wal, partitionDuration, segment;
      numPoints, minT, maxT, started, metrics := 0, 0, 0, false, map[];
      Repr := {this};
    }

    predicate Active()
      reads this
    {
      maxT - minT + 1 < partitionDuration
    }

    lemma ReprKinds()
      requires Valid()
      ensures this in Repr && forall o: object | o in Repr :: o is MemoryPartition || o is MemoryMetric
    {
    }

    /** The metric of that name, created empty if there is none. */
    method GetMetric(name: Name) returns (mt: MemoryMetric)
      requires Valid()
      modifies this`metrics, this`Repr
      ensures Valid() && fresh(Repr - old(Repr)) && old(Repr) <= Repr
      ensures name in metrics && mt == metrics[name] && mt in Repr
      ensures mt.State() == MetricIn(old(MetricStates()), name)
      ensures MetricStates() == old(MetricStates())[name := MetricIn(old(MetricStates()), name)]
    {
      hide Consistent;
      if name !in metrics {
        mt := new MemoryMetric(name);
        metrics := metrics[name := mt];
        Repr := Repr + {mt};
        NoPointsConsistent();
      } else {
        mt := metrics[name];
      }
    }

    method InsertRow(row: Row)
      requires Valid()
      modifies Repr
      ensures Valid() && fresh(Repr - old(Repr)) && old(Repr) <= Repr
      ensures unchanged(this`numPoints) && unchanged(this`minT) && unchanged(this`maxT) && unchanged(this`started)
      ensures MetricStates() == old(MetricStates())[row.name := Inserted(MetricIn(old(MetricStates()), row.name), row.point)]
    {
      hide Inserted, Valid, MetricStates;
      ReprKinds();
      var mt := GetMetric(row.name);
      InsertTo(mt, row.name, row.point);
    }

    method InsertTo(mt: MemoryMetric, ghost name: Name, p: Point)
      requires Valid() && name in metrics && metrics[name] == mt
      modifies mt
      ensures Valid() && old(MetricStates())[name].size == |old(MetricStates())[name].points|
      ensures MetricStates() == old(MetricStates())[name := Inserted(old(MetricStates())[name], p)]
    {
      hide Inserted, Consistent;
      ConsistentSized(mt.State());
      mt.InsertPoint(p);
      assert forall n | n in metrics && n != name :: metrics[n] != mt;
    }

    method InsertRows(rows: seq<Row>, now: int64) returns (r: InsertResult)
      requires Valid()
      modifies Repr, wal
      ensures Valid() && fresh(Repr - old(Repr)) && old(Repr) <= Repr
      ensures AllSized(old(State()).metrics)
      ensures if rows == [] then r == NoRowsGiven && State() == old(State()) && wal.State() == old(wal.State())
              else && r == Rest(Outdated(rows, LowerBound(old(State()), rows)))
                   && State() == Ingested(old(State()), rows, now)
                   && wal.State() == Appended(old(wal.State()), rows)
    {
      hide Oldest, NewestOf, Accepted, Outdated, Stored, AllSized, Appended, MetricStates, Consistent;
      ValidSized();
      if rows == [] {
        return NoRowsGiven;
      }
      wal.Append(rows);
      Begin(rows);
      var outdated, rowsNum, maxTimestamp := TakeRows(rows, now);
      Finish(rowsNum, maxTimestamp);
      r := Rest(outdated);
    }

    /** Sets the lower bound with the first batch only. */
    method Begin(rows: seq<Row>)
      requires Valid() && rows != []
      modifies this`minT, this`started
      ensures Valid() && MetricStates() == old(MetricStates())
      ensures started && minT == LowerBound(old(State()), rows)
    {
      hide Oldest, Consistent;
      if !started {
        minT, started := Oldest(rows), true;
      }
    }

    method Finish(rowsNum: nat, maxTimestamp: int64)
      requires Valid()
      modifies this`numPoints, this`maxT
      ensures Valid() && MetricStates() == old(MetricStates())
      ensures numPoints == old(numPoints) + rowsNum
      ensures maxT == if old(maxT) < maxTimestamp then maxTimestamp else old(maxT)
    {
      hide Consistent;
      numPoints := numPoints + rowsNum;
      if maxT < maxTimestamp {
        maxT := maxTimestamp;
      }
    }

    lemma ValidSized()
      requires Valid()
      ensures AllSized(MetricStates())
    {
    }

    /** The row loop of insertRows. */
    method TakeRows(rows: seq<Row>, now: int64) returns (outdated: seq<Row>, rowsNum: nat, maxTimestamp: int64)
      requires Valid() && rows != []
      modifies Repr
      ensures Valid() && fresh(Repr - old(Repr)) && old(Repr) <= Repr
      ensures unchanged(this`numPoints) && unchanged(this`minT) && unchanged(this`maxT) && unchanged(this`started)
      ensures outdated == Outdated(rows, minT)
      ensures rowsNum == |Accepted(rows, minT, now)|
      ensures maxTimestamp == NewestOf(rows[0].point.ts, Accepted(rows, minT, now))
      ensures AllSized(old(MetricStates())) && MetricStates() == Stored(old(MetricStates()), Accepted(rows, minT, now))
    {
      hide Inserted, Valid, MetricStates, Accepted, Outdated, NewestOf, Stored, AllSized, Stamped;
      ValidSized();
      outdated, rowsNum, maxTimestamp := [], 0, rows[0].point.ts;
      ghost var states := MetricStates();
      TakeNone(rows, rows[0].point.ts, minT, now, states);
      for i := 0 to |rows|
        invariant Valid() && fresh(Repr - old(Repr)) && old(Repr) <= Repr
        invariant numPoints == old(numPoints) && maxT == old(maxT) && minT == old(minT) && started == old(started)
        invariant outdated == Outdated(rows[..i], minT)
        invariant rowsNum == |Accepted(rows[..i], minT, now)|
        invariant maxTimestamp == NewestOf(rows[0].point.ts, Accepted(rows[..i], minT, now))
        invariant MetricStates() == Stored(states, Accepted(rows[..i], minT, now))
      {
        var row := rows[i];
        TakeOne(rows, i, rows[0].point.ts, minT, now, states);
        if row.point.ts < minT {
          outdated := outdated + [row];
          continue;
        }
        row := Stamped(row, now);
        if row.point.ts > maxTimestamp {
          maxTimestamp := row.point.ts;
        }
        InsertRow(row);
        rowsNum := rowsNum + 1;
      }
      assert rows[..|rows|] == rows;
    }

    /** A read of an unknown metric leaves an empty one behind. */
    method SelectDataPoints(name: Name, start: int64, end: int64) returns (points: seq<Point>)
      requires Valid() && start <= end
      modifies this`metrics, this`Repr
      ensures Valid() && fresh(Repr - old(Repr)) && old(Repr) <= Repr
      ensures MetricIn(old(MetricStates()), name).size == |MetricIn(old(MetricStates()), name).points|
      ensures points == Selected(MetricIn(old(MetricStates()), name), start, end)
      ensures MetricStates() == old(MetricStates())[name := MetricIn(old(MetricStates()), name)]
    {
      hide Selected, MetricStates, Ascending;
      var mt := GetMetric(name);
      points := mt.SelectPoints(start, end);
    }
  }

  lemma ConsistentSized(m: MetricState)
    requires Consistent(m)
    ensures m.size == |m.points|
  {
  }
}
