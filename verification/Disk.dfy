/** Flushing metrics to a data file with an index, and reading them back. */
module Disk {
  import opened Words
  import opened GorillaFormat
  import opened GorillaRoundTrip
  import opened Gorilla
  import opened Metric
  import opened Rows

  datatype DiskMetric = DiskMetric(name: Name, offset: nat, minTs: int64, maxTs: int64, numPoints: nat)

  datatype Meta = Meta(minTs: int64, maxTs: int64, numPoints: int, metrics: map<Name, DiskMetric>, createdAt: int)

  /** An opened disk partition; the data file is its bytes. */
  datatype DiskPartition = DiskPartition(meta: Meta, data: seq<uint8>, retention: int) {
    predicate Expired(now: int) {
      now - meta.createdAt > retention
    }
  }

  datatype Selection = Found(points: seq<Point>) | NoDataPoints | Undecoded(error: DecodeError)

  // ----- What the file holds -----

  /** The series decoded from an offset on. */
  function SeriesAt(data: seq<uint8>, offset: nat, n: nat): Series {
    DecodeSeries(FRESH_DECODER, BytesBits(if offset <= |data| then data[offset..] else []), n)
  }

  /** The bytes from an offset on begin with the encoding of ps. */
  ghost predicate HoldsAt(data: seq<uint8>, offset: nat, ps: seq<Point>) {
    offset <= |data| && SeriesBits(FRESH_ENCODER, ps) <= BytesBits(data[offset..])
  }

  /** Whatever is written later, an encoded series stays readable. */
  lemma HoldsAtDecodes(data: seq<uint8>, offset: nat, ps: seq<Point>)
    requires HoldsAt(data, offset, ps) && Encodable(ps)
    ensures SeriesAt(data, offset, |ps|) == Points(ps)
  {
    hide SeriesBits, BytesBits, DecodeSeries;
    var bits, file := SeriesBits(FRESH_ENCODER, ps), BytesBits(data[offset..]);
    SeriesRoundTrip(ps, file[|bits|..]);
    assert file == bits + file[|bits|..];
  }

  lemma HoldsAtExtends(data: seq<uint8>, more: seq<uint8>, offset: nat, ps: seq<Point>)
    requires HoldsAt(data, offset, ps)
    ensures HoldsAt(data + more, offset, ps)
  {
    hide SeriesBits, BytesBits;
    assert (data + more)[offset..] == data[offset..] + more;
    BytesBitsConcat(data[offset..], more);
  }

  lemma AppendedHolds(data: seq<uint8>, flushed: seq<uint8>, ps: seq<Point>)
    requires SeriesBits(FRESH_ENCODER, ps) <= BytesBits(flushed)
    ensures HoldsAt(data + flushed, |data|, ps)
  {
    assert (data + flushed)[|data|..] == flushed;
  }

  lemma EncodedNonempty(ps: seq<Point>)
    ensures SeriesBits(FRESH_ENCODER, ps) == [] <==> ps == []
  {
    hide Bits, BytesBits;
  }

  // ----- Flush -----

  ghost predicate NonZero(m: MetricState) {
    (forall p | p in m.points :: p.ts != 0) && (forall p | p in m.outOfOrder :: p.ts != 0)
  }

  /** An index entry under which the merged points of m can be read. */
  ghost predicate Indexed(data: seq<uint8>, entry: DiskMetric, m: MetricState) {
    && HoldsAt(data, entry.offset, Merge(m.points, m.outOfOrder))
    && entry.numPoints == |m.points| + |m.outOfOrder|
    && entry.minTs == m.minTs && entry.maxTs == m.maxTs
  }

  /** m' is m with its buffer sorted, as encodeAllPoints leaves it. */
  ghost predicate BufferSorted(m: MetricState, m': MetricState) {
    && m' == m.(outOfOrder := m'.outOfOrder)
    && Sorted(m'.outOfOrder) && multiset(m'.outOfOrder) == multiset(m.outOfOrder)
  }

  ghost predicate DistinctNames(metrics: seq<MemoryMetric>) {
    forall i, j | 0 <= i < j < |metrics| :: metrics[i].name != metrics[j].name
  }

  ghost function Names(metrics: seq<MemoryMetric>): set<Name> {
    set m | m in metrics :: m.name
  }

  lemma NamesNone()
    ensures Names([]) == {}
  {
  }

  lemma NamesSnoc(metrics: seq<MemoryMetric>, i: nat)
    requires i < |metrics|
    ensures Names(metrics[..i + 1]) == Names(metrics[..i]) + {metrics[i].name}
  {
    assert metrics[..i + 1] == metrics[..i] + [metrics[i]];
  }

  lemma IndexedExtends(data: seq<uint8>, data': seq<uint8>, entry: DiskMetric, m: MetricState)
    requires Indexed(data, entry, m) && data <= data'
    ensures Indexed(data', entry, m)
  {
    assert data' == data + data'[|data|..];
    HoldsAtExtends(data, data'[|data|..], entry.offset, Merge(m.points, m.outOfOrder));
  }

  /** One metric: encode everything, flush, and note where it went. */
  method WriteMetric(m: MemoryMetric, encoder: GorillaEncoder) returns (entry: DiskMetric)
    requires Consistent(m.State())
    requires encoder.Valid() && encoder.State() == FRESH_ENCODER && encoder.Buffered() == []
    modifies m, encoder, encoder.buf
    ensures encoder.Valid() && encoder.State() == FRESH_ENCODER && encoder.Buffered() == []
    ensures BufferSorted(old(m.State()), m.State())
    ensures old(encoder.written) <= encoder.written
    ensures old(encoder.written) == encoder.written <==> m.size == 0
    ensures Indexed(encoder.written, entry, m.State()) && entry.name == m.name
  {
    hide Merge, Sorted, SeriesBits, BytesBits, Ascending, GorillaEncoder.Valid, GorillaEncoder.Buffered, GorillaEncoder.State;
    var offset := |encoder.written|;
    ghost var before := encoder.written;
    m.EncodeAllPoints(encoder);
    encoder.Flush();
    ghost var flushed, merged := encoder.written[|before|..], Merge(m.points, m.outOfOrderPoints);
    assert encoder.written == before + flushed;
    AppendedHolds(before, flushed, merged);
    EncodedNonempty(merged);
    MergeLength(m.points, m.outOfOrderPoints);
    entry := DiskMetric(m.name, offset, m.minTimestamp, m.maxTimestamp, m.size + |m.outOfOrderPoints|);
  }

  /** Encodes the metrics one after another, in whatever order they are visited,
      with one encoder that is reset in between. */
  method WriteMetrics(metrics: seq<MemoryMetric>) returns (data: seq<uint8>, index: map<Name, DiskMetric>)
    requires DistinctNames(metrics)
    requires forall i | 0 <= i < |metrics| :: Consistent(metrics[i].State())
    modifies metrics
    ensures forall i | 0 <= i < |metrics| :: BufferSorted(old(metrics[i].State()), metrics[i].State())
    ensures index.Keys == Names(metrics)
    ensures forall i | 0 <= i < |metrics| :: metrics[i].name in index && index[metrics[i].name].name == metrics[i].name
    ensures forall i | 0 <= i < |metrics| :: Indexed(data, index[metrics[i].name], metrics[i].State())
    ensures data == [] <==> forall i | 0 <= i < |metrics| :: metrics[i].size == 0
  {
    hide Indexed, BufferSorted, Consistent, Names, GorillaEncoder.Valid, GorillaEncoder.Buffered, GorillaEncoder.State;
    NamesNone();
    var encoder := new GorillaEncoder();
    index := map[];
    for i := 0 to |metrics|
      invariant fresh(encoder) && fresh(encoder.buf) && encoder.Valid()
      invariant encoder.State() == FRESH_ENCODER && encoder.Buffered() == []
      invariant forall k | 0 <= k < i :: BufferSorted(old(metrics[k].State()), metrics[k].State())
      invariant forall k | i <= k < |metrics| :: metrics[k].State() == old(metrics[k].State())
      invariant index.Keys == Names(metrics[..i])
      invariant forall k | 0 <= k < i :: metrics[k].name in index && index[metrics[k].name].name == metrics[k].name
      invariant forall k | 0 <= k < i :: Indexed(encoder.written, index[metrics[k].name], metrics[k].State())
      invariant encoder.written == [] <==> forall k | 0 <= k < i :: metrics[k].size == 0
    {
      ghost var before := encoder.written;
      var entry := WriteMetric(metrics[i], encoder);
      forall k | 0 <= k < i
        ensures Indexed(encoder.written, index[metrics[k].name], metrics[k].State())
      {
        IndexedExtends(before, encoder.written, index[metrics[k].name], metrics[k].State());
      }
      NamesSnoc(metrics, i);
      index := index[metrics[i].name := entry];
    }
    assert metrics[..|metrics|] == metrics;
    data := encoder.written;
  }

  // ----- Reading back -----

  /** The scan of selectDataPoints: skip what is too early, stop at the first too late. */
  function Scan(ps: seq<Point>, start: int, end: int): seq<Point>
    decreases |ps|
  {
    if ps == [] then []
    else if ps[0].ts < start then Scan(ps[1..], start, end)
    else if ps[0].ts >= end then []
    else [ps[0]] + Scan(ps[1..], start, end)
  }

  /** On a sorted series stopping early loses nothing. */
  lemma {:induction false} ScanIsInRange(ps: seq<Point>, start: int, end: int)
    requires Sorted(ps)
    ensures Scan(ps, start, end) == InRange(ps, start, end)
    decreases |ps|
  {
    if ps != [] {
      ScanIsInRange(ps[1..], start, end);
      if ps[0].ts >= end {
        InRangeIsSlice(ps, start, end, 0, 0);
      }
    }
  }

  /** What reading metric `name` yields, for a file that decodes under its index. */
  function Read(d: DiskPartition, name: Name, start: int, end: int, now: int): Selection {
    if d.Expired(now) || name !in d.meta.metrics then NoDataPoints
    else
      var entry := d.meta.metrics[name];
      var series := SeriesAt(d.data, entry.offset, entry.numPoints);
      if series.Points? then Found(Scan(series.points, start, end)) else Undecoded(EndOfStream)
  }

  /** Nothing is read once the file is older than the retention, or of an unknown metric. */
  lemma ReadNothingIff(d: DiskPartition, name: Name, start: int, end: int, now: int)
    ensures Read(d, name, start, end, now) == NoDataPoints <==> now - d.meta.createdAt > d.retention || name !in d.meta.metrics
  {
  }

  method SelectDataPoints(d: DiskPartition, name: Name, start: int64, end: int64, now: int) returns (r: Selection)
    ensures !Read(d, name, start, end, now).Undecoded? ==> r == Read(d, name, start, end, now)
  {
    if d.Expired(now) {
      return NoDataPoints;
    }
    if name !in d.meta.metrics {
      return NoDataPoints;
    }
    var entry := d.meta.metrics[name];
    r := ReadSeries(if entry.offset <= |d.data| then d.data[entry.offset..] else [], entry.numPoints, start, end);
  }

  method ReadSeries(data: seq<uint8>, n: nat, start: int64, end: int64) returns (r: Selection)
    ensures var series := DecodeSeries(FRESH_DECODER, BytesBits(data), n);
            series.Points? ==> r == Found(Scan(series.points, start, end))
  {
    hide BytesBits, BitStream.BitReader.Unread, GorillaFormat.DecodePoint;
    var decoder := new GorillaDecoder(data);
    ghost var series := DecodeSeries(FRESH_DECODER, BytesBits(data), n);
    var points: seq<Point> := [];
    for i := 0 to n
      invariant fresh(decoder) && fresh(decoder.br) && decoder.br.Valid()
      invariant series.Points? ==> decoder.br.InSync()
      invariant series.Points? ==> Awaits(decoder.State(), decoder.br.Unread(), n - i, points, Scan(series.points, start, end), start, end)
    {
      var p := decoder.DecodePoint();
      if p.Error? {
        return Undecoded(p.error);
      }
      if p.value.ts < start {
        continue;
      }
      if p.value.ts >= end {
        break;
      }
      points := points + [p.value];
    }
    return Found(points);
  }

  /** n points are still to be read, and with what they add the scan is complete. */
  ghost predicate Awaits(d: DecoderState, bits: seq<bool>, n: nat, points: seq<Point>, all: seq<Point>, start: int, end: int) {
    var later := DecodeSeries(d, bits, n);
    later.Points? && points + Scan(later.points, start, end) == all
  }

  // ----- Index correctness and the meaning of a flush -----

  /** A flushed metric reads back as all its points of the range, in order. */
  lemma IndexedReadsBack(d: DiskPartition, name: Name, m: MetricState, start: int, end: int, now: int)
    requires Consistent(m) && Sorted(m.outOfOrder) && NonZero(m)
    requires name in d.meta.metrics && Indexed(d.data, d.meta.metrics[name], m) && !d.Expired(now)
    ensures var r := Read(d, name, start, end, now);
            r == Found(InRange(Merge(m.points, m.outOfOrder), start, end))
            && Sorted(r.points)
            && multiset(r.points) == multiset(InRange(m.points, start, end)) + multiset(InRange(m.outOfOrder, start, end))
  {
    hide SeriesAt, HoldsAt, InRange, Sorted, Ascending, Encodable, Merge, Scan;
    var merged := Merge(m.points, m.outOfOrder);
    AscendingIsSorted(m.points);
    MergeSorted(m.points, m.outOfOrder);
    MergeLength(m.points, m.outOfOrder);
    NonZeroEncodable(m, merged);
    HoldsAtDecodes(d.data, d.meta.metrics[name].offset, merged);
    ScanIsInRange(merged, start, end);
    InRangeSorted(merged, start, end);
    InRangeOfUnion(merged, m.points, m.outOfOrder, start, end);
  }

  lemma AscendingIsSorted(ps: seq<Point>)
    requires Ascending(ps)
    ensures Sorted(ps)
  {
  }

  lemma NonZeroEncodable(m: MetricState, merged: seq<Point>)
    requires NonZero(m) && multiset(merged) == multiset(m.points) + multiset(m.outOfOrder)
    ensures Encodable(merged)
  {
    forall i | 0 <= i < |merged|
      ensures merged[i].ts != 0
    {
      assert merged[i] in multiset(merged);
    }
  }

  lemma {:induction false} InRangeMembers(ps: seq<Point>, start: int, end: int)
    ensures forall p | p in InRange(ps, start, end) :: p in ps && start <= p.ts < end
    decreases |ps|
  {
    if ps != [] {
      InRangeMembers(ps[1..], start, end);
    }
  }

  lemma {:induction false} InRangeSorted(ps: seq<Point>, start: int, end: int)
    requires Sorted(ps)
    ensures Sorted(InRange(ps, start, end))
    decreases |ps|
  {
    if ps != [] {
      var rest := InRange(ps[1..], start, end);
      InRangeSorted(ps[1..], start, end);
      InRangeMembers(ps[1..], start, end);
      forall q | q in rest
        ensures ps[0].ts <= q.ts
      {
        assert q in ps[1..];
      }
      SortedCons(ps[0], rest);
    }
  }

  lemma SortedCons(p: Point, rest: seq<Point>)
    requires Sorted(rest) && forall q | q in rest :: p.ts <= q.ts
    ensures Sorted([p] + rest)
  {
  }

  lemma InRangeOfUnion(all: seq<Point>, ps: seq<Point>, os: seq<Point>, start: int, end: int)
    requires multiset(all) == multiset(ps) + multiset(os)
    ensures multiset(InRange(all, start, end)) == multiset(InRange(ps, start, end)) + multiset(InRange(os, start, end))
  {
    forall p: Point
      ensures multiset(InRange(all, start, end))[p] == multiset(InRange(ps, start, end))[p] + multiset(InRange(os, start, end))[p]
    {
      InRangeMultiset(all, start, end, p);
      InRangeMultiset(ps, start, end, p);
      InRangeMultiset(os, start, end, p);
    }
  }

  /** Against the read from memory, a flush adds the buffered points of the range
      and drops the newest point when the range ends exactly on it. */
  lemma FlushChangesReads(d: DiskPartition, name: Name, m: MetricState, start: int, end: int, now: int)
    requires Consistent(m) && Sorted(m.outOfOrder) && NonZero(m) && start <= end
    requires name in d.meta.metrics && Indexed(d.data, d.meta.metrics[name], m) && !d.Expired(now)
    ensures var r := Read(d, name, start, end, now);
            var edge := if m.size > 0 && end == m.maxTs && end > m.minTs then multiset{m.points[m.size - 1]} else multiset{};
            r.Found? && multiset(r.points) + edge == multiset(Selected(m, start, end)) + multiset(InRange(m.outOfOrder, start, end))
  {
    hide InRange, Read, Indexed, Merge;
    IndexedReadsBack(d, name, m, start, end, now);
  }
}
