# tstorage in Dafny

A model of the time-series storage engine and proofs about it. The model follows
the engine's own layers:

- **Codec** — `Words` (64-bit words as bit sequences), `Varint` (base-128 and
  ZigZag varints of Go's `encoding/binary`), `BitStream` (the bit writer and the
  buffered bit reader as classes), `GorillaFormat` (the bits a series is made of,
  and the reader of those bits, as functions), `GorillaRoundTrip` (proofs),
  `GorillaLayout` (the bits in numbers: ranges, widths, costs), `Gorilla`
  (encoder and decoder as classes, proved against `GorillaFormat`). The format is
  that of section 4.1 of the Gorilla paper, with a last bucket of 64 bits.
- **Partitions** — `Metric` (in-order points and the out-of-order buffer), `Memory`
  (memory partitions), `Disk` (data file, index, reads), `PartitionList` (the linked
  list and its iterator), `Label` (metric names).
- **Log** — `WalSegments` (segment files and their names), `WalRecord` (records,
  torn tails, readAll), `WalRecovery` (the surviving segments read back).
- **Storage** — `StorageModel`, `StorageSelect`, `StorageFlush`, `StorageExpiry` give
  the steps InsertRows, Select, flushPartitions and removeExpiredPartitions as a state
  machine over the partitions, newest first; `StorageTwins` decides when partitions are
  found again; `Storage` holds the storage class, whose
  methods walk the linked list with live iterators and are proved to take exactly
  those steps. `StorageRuns`, `StorageSpans`, `StorageConservation`, `StorageAnswers`,
  `StorageClose` and `WalCoverage` prove what holds over every serialized run.

float64 values are 64-bit patterns, timestamps are wrapping 64-bit integers, bytes
are `uint8`, files are byte sequences, and the clock is a parameter.

A run below is a serialized sequence of batches, queries, flush passes and expiry from
an empty storage, in memory only, with a data directory, or with a data directory and a
log. It is admissible if timestamps are positive, partitions span at least two units, and
a batch that opens a fresh head is newer than all stored.

## Main results

1. `StorageAnswers.RunAnswersQueries`: over every admissible run every query is
   ascending and every arrived row of its range is in the answer exactly as often as it
   arrived, apart from rows dropped as too old (or by the in-memory mode or expiry),
   rows still in an out-of-order buffer, and rows in expired files.
2. `StorageClose.RunClosesSafely`: at any moment of such a run with a data directory
   Close succeeds, leaves every stored row on disk before the log is discarded, whatever
   the segment names, and no row in the log.
3. `GorillaRoundTrip.SeriesRoundTrip` and the encoder and decoder classes: a series
   survives the codec bit by bit, whatever follows it in the file.
4. `WalCoverage.RunStaysCoveredIff`, `WalRecovery.RunRecovers` and
   `WalRecord.RecoverTornLog`: the log covers memory over a whole run if and only if no
   flush pass finds a writable partition's segment among the files it removes; then the
   bytes of the surviving segments bring back every row held in memory, at least as often
   as it is held. A torn log brings back exactly the whole records up to the first torn
   segment.
5. The exact conditions of the failures below: `StorageTwins.DropsInPlaceIff`,
   `StorageTwins.SwapsInPlaceIff`, `StorageExpiry.PurgesExpiredIff`,
   `StorageSelect.AllQueriesNaiveIff`, `StorageModel.InsertKeepsOrderIff`,
   `StorageModel.UnstampedRowsStoredIff`, `StorageSelect.UnstampedHidesHeadIff`,
   `Label.PlainNameCollidesIff`, `WalCoverage.PassKeepsCoverIff`,
   `WalCoverage.HeadLoggedIff`, `WalSegments.FirstIsOldestIff`.

## Where the code does less than it promises

The code is modelled as it is; each of these is a lemma about it, except the one on short
reads, which is a clause of a method's contract.

- Partitions are matched by lower bound only. A flush pass leaves the right partitions in
  the right places if and only if no memory partition it comes by starts where an entry
  nearer the head starts (`DropsInPlaceIff`, `SwapsInPlaceIff`); otherwise a partition
  that should have stayed is lost (`TwinDropLoses`, `TwinSwapLoses`). If that is the head,
  its rows are gone (`TwinStartDropsHead`, `TwinStartReplacesHead`). Expiry likewise
  removes exactly the expired partitions if and only if none starts where a live one
  nearer the head starts (`PurgesExpiredIff`, `TwinPurgeLoses`, `TwinStartPurgesLive`).
- Select stops at the first partition that ends before the range, and passes over every
  partition that starts at zero. Every query is complete if and only if no partition
  reaches beyond the end of a newer one and none that has rows starts at zero
  (`AllQueriesNaiveIff`). A first batch of timestamps that are not negative, into a fresh
  head, leaves queries complete if and only if all its rows have a timestamp and no
  partition behind reaches beyond the newest of them (`FirstBatchQueriesIff`,
  `LateFirstBatchHidesAll`). Range order itself is kept under a stronger condition
  (`InsertKeepsOrderIff`).
- storage.go:66 documents `end` as exclusive, but a memory partition also returns the
  newest in-order point of the metric when the range ends exactly on it and the metric
  has older points (`SelectedCount`, `RunAnswersQueries`); the same point is no longer
  returned once the partition is on disk (`FlushChangesReads`, `FlushChangesQuery`).
- storage.go:56 promises the machine's clock for rows without a timestamp, but all such
  rows of a batch are dropped unless a writable partition is blank or reaches down to zero
  (`UnstampedRowsStoredIff`), and a head answers no query at all if and only if the oldest
  row of its first batch came without one (`UnstampedHidesHead`, `UnstampedHidesHeadIff`).
- A metric name is not unique: every labelled name is also a plain metric name
  (`PlainNameCollides`). A plain name equals a labelled one exactly when it decodes to that
  metric and its valid labels (`PlainNameCollidesIff`).
- "Oldest" log segment means first by file name; "10" sorts before "9"
  (`FirstIsOldestIff`). A flush pass removes the files listed first, one for each memory
  partition it flushes, and keeps the log over memory if and only if no writable
  partition's segment is among them (`PassKeepsCoverIff`); if the open segment is, none of
  the head's rows is logged any more (`HeadLoggedIff`, `NameOrderBreaksCover`). A torn open
  segment that is listed before others costs all of them at recovery (`TornOpenCosts`).
- Recovery may bring a row back more often than it is held: a batch is logged once, and
  its rows too old for the head once more when there is a second memory partition to
  offer them to (`BatchLogged`).
- A zero timestamp marks "not yet set" in the encoder: an ascending series that starts
  at zero is misread as soon as it has two points (`ZeroStartBreaks`,
  `AscendingRoundTripIff`). This is a failure of the codec alone: a memory partition
  replaces zero timestamps before it stores a point (memory_partition.go:87).
- A read past the end of the bit stream is reported only if the buffer or the stream is
  used up; otherwise the unsigned `valid` wraps (contract of `BitReader.ReadBits`).

## Model

| member | source | states |
|---|---|---|
| `Varint.PutUvarint` | encoding.go:96-99 | the loop emits the base-128 bytes of the word, low groups first, and nothing else |
| `Varint.PutVarint` | encoding.go:85-88 | a signed number is written as the varint of its ZigZag word |
| `Varint.UvarintRoundTrip` | encoding.go:238-242 | every 64-bit word is read back from its varint, whatever bytes follow, consuming exactly its 1 to 10 bytes |
| `Varint.UvarintTorn` | disk_wal.go:265-287 | every proper prefix of a varint fails with an end-of-input error |
| `Varint.ZigZagRoundTrip` | encoding.go:222-225 | ZigZag and its inverse restore every signed word |
| `Varint.UvarintOverflows` | encoding.go:238-242 | a varint of more than 64 bits is refused as an overflow |
| `GorillaLayout.UvarintLayout` | encoding.go:96-99 | byte i of a varint carries the bits 7i to 7i + 6, with the top bit set on all but the last |
| `GorillaLayout.UvarintLength` | encoding.go:96-99 | a varint takes one byte for every seven bits of the number |
| `BitStream.BitWriter.WriteBit` | bstream.go:56-69 | appends one bit to the bits written; free low bits stay zero and the free count stays in 0..8 |
| `BitStream.BitWriter.WriteByte` | bstream.go:71-85 | appends the eight bits of the byte, across the byte boundary, also from a count of 8 |
| `BitStream.BitWriter.WriteBits` | bstream.go:87-101 | appends exactly the low nbits of u, most significant first, for every nbits up to 64 |
| `BitStream.BitWriter.WrittenIsPrefix` | bstream.go:33-41 | the stream's bits start with the bits written and pad them by one byte at most |
| `BitStream.BitReader.ReadBit` | bstream.go:117-125 | takes the next bit off the unread bits, and reports the end exactly when none is left |
| `BitStream.BitReader.ReadBitFast` | bstream.go:131-139 | takes the next bit off the unread bits, and fails exactly when the buffer is empty |
| `BitStream.BitReader.ReadBits` | bstream.go:141-167 | with enough bits left takes exactly the next nbits across refills; with fewer left it reports the end if and only if buffer or stream is used up |
| `BitStream.BitReader.ReadBitsFast` | bstream.go:173-182 | takes the next nbits off the unread bits, and fails without a change exactly when the buffer is too short |
| `BitStream.BitReader.ReadByte` | bstream.go:184-190 | takes the next eight bits as a byte; with fewer left it reports the end if and only if buffer or stream is used up |
| `BitStream.BitReader.LoadNextBuffer` | bstream.go:195-230 | makes exactly the bits not yet loaded the unread ones, with enough of them buffered for the request or all to the end; fails exactly at the end of the stream |
| `Gorilla.GorillaEncoder.EncodePoint` | encoding.go:78-131 | appends exactly the point's bits in the format and moves to the format's next state |
| `Gorilla.GorillaEncoder.WriteDod` | encoding.go:104-122 | appends exactly the bits of the delta of delta in the format, whose layout DodLayout gives in numbers |
| `GorillaLayout.DodLayout` | encoding.go:107-122 | zero is the bit 0; -63..64, -255..256, -2047..2048 and all else have the prefixes 10, 110, 1110, 1111 and the number modulo 2^7, 2^9, 2^12, 2^64 in 7, 9, 12, 64 bits |
| `Gorilla.GorillaEncoder.WriteVDelta` | encoding.go:155-188 | one bit for an equal value, else the XOR in the open window or with a new window |
| `Gorilla.GorillaEncoder.Flush` | encoding.go:135-153 | hands over the buffered bits with at most a byte of padding, keeps what was written before, and resets to the initial state |
| `Gorilla.GorillaDecoder.DecodePoint` | encoding.go:220-318 | whenever the unread bits hold a point, returns that point and stands behind it |
| `Gorilla.GorillaDecoder.ReadDeltaOfDelta` | encoding.go:255-307 | reads the prefix and the bucket's bits as the signed delta of delta of the format |
| `Gorilla.GorillaDecoder.ReadValue` | encoding.go:320-381 | follows the format for an equal value, an open window and a new window |
| `Gorilla.GorillaDecoder.ReadNewWindow` | encoding.go:342-365 | reads five and six bits as a window, six zero bits meaning 64 |
| `GorillaFormat.WindowRoundTrip` | encoding.go:367-377 | cutting a XOR word to a valid window and shifting it back restores it |
| `GorillaRoundTrip.DodRoundTrip` | encoding.go:104-122 | every delta of delta is read back from its bucket, whatever bits follow |
| `GorillaRoundTrip.ValueRoundTrip` | encoding.go:155-188 | from any equal valid windows the value is restored and the windows stay equal and valid, with the clamp at 31 and 64 significant bits stored as 0 |
| `GorillaRoundTrip.PointRoundTrip` | encoding.go:220-318 | one point decodes in any phase and leaves encoder and decoder paired, wrap-around deltas included |
| `GorillaRoundTrip.SeriesRoundTrip` | encoding.go:78-188 | every series decodes to itself before any other bits, if neither of its first two timestamps is zero unless it is the last |
| `GorillaRoundTrip.ZeroStartBreaks` | encoding.go:83-92 | a series that starts at zero and goes on with another timestamp never decodes to itself |
| `GorillaRoundTrip.AscendingRoundTripIff` | encoding.go:83-92 | an ascending series from zero on decodes to itself if and only if it has at most one point or does not start at zero |
| `GorillaRoundTrip.WindowStaysOpen` | encoding.go:40-45 | over every sequence of encodes and flushes the window stays 0/0 |
| `GorillaRoundTrip.ValueCost` | encoding.go:155-188 | an equal value costs one bit, a changed one exactly 66 |
| `GorillaRoundTrip.PointCost` | encoding.go:78-131 | a point costs at most 144, 146 or 134 bits, by phase |
| `GorillaRoundTrip.SeriesCost` | encoding.go:78-188 | n points cost at most 144 + 146 + 134(n-2) bits |
| `GorillaLayout.ValueLayout` | encoding.go:155-188 | in any window an equal value is one bit, one that fits the window two and the window's width, any other two, five bits of leading zeros up to 31, six of width and the width itself |
| `GorillaLayout.ZerosMean` | encoding.go:162-168 | the leading and trailing zeros of a difference are those of its binary form |
| `GorillaLayout.PointCostExact` | encoding.go:78-131 | the exact cost of a point by phase: its varint and 64 bits, its varint and its value, or 1, 9, 12, 16 or 68 bits and its value |
| `GorillaLayout.SteadySeriesCost` | encoding.go:78-131 | a series with constant step and equal values costs exactly two bits for each point from the third on |
| `Metric.MemoryMetric.InsertPoint` | memory_partition.go:182-212 | newer points extend the series, all others go to the buffer, bounds and size follow |
| `Metric.InsertRunKeeps` | memory_partition.go:182-212 | after any insert sequence the points are strictly ascending, bounds and size match, no buffered point is newer than the newest, and no point is lost |
| `Metric.MemoryMetric.SelectPoints` | memory_partition.go:215-245 | returns exactly the in-order points with start <= t < end, plus the newest when end equals its time and exceeds the oldest |
| `Metric.Search` | memory_partition.go:227-243 | binary search finds the first index at which the predicate holds |
| `Metric.MergeSorted` | memory_partition.go:249-282 | the merge is sorted and a permutation of points and buffer |
| `Metric.MergeStable` | memory_partition.go:249-282 | at each timestamp the in-order points come first, then the buffered ones |
| `Metric.MemoryMetric.EncodeAllPoints` | memory_partition.go:249-282 | sorts the buffer in place and feeds the encoder exactly the merge |
| `Metric.SortPoints` | memory_partition.go:250-252 | sorts by timestamp and keeps every point |
| `Disk.WriteMetric` | storage.go:515-549 | appends one metric to the file; its entry has the name, offset, bounds and count under which its merged points stand |
| `Disk.WriteMetrics` | storage.go:515-549 | every metric written by the shared encoder stays indexed to its own bytes; the file is empty exactly when no metric has points |
| `Disk.HoldsAtDecodes` | disk_partition.go:112-146 | bytes that hold an encoded series decode to it, whatever follows |
| `Disk.ScanIsInRange` | disk_partition.go:131-145 | on a sorted series the early break loses nothing |
| `Disk.SelectDataPoints` | disk_partition.go:112-146 | expired or unknown gives no data points, else the points of the range in the decoded series |
| `Disk.ReadNothingIff` | disk_partition.go:112-120 | nothing is read if and only if the file is older than the retention or the metric is unknown |
| `Disk.IndexedReadsBack` | disk_partition.go:112-146 | a read at the recorded offset and count returns exactly the in-order and buffered points of the range, ascending |
| `Disk.FlushChangesReads` | storage.go:472-491 | against the memory read a flushed metric adds the buffered points of the range and drops only the newest point equal to end |
| `Memory.MemoryPartition.InsertRows` | memory_partition.go:56-106 | logs the batch, fixes the lower bound with the first one, stores the rows that reach it and hands back the others; an empty batch is an error |
| `Memory.MemoryPartition.TakeRows` | memory_partition.go:78-97 | the row loop: outdated rows in order, the others stored, newest timestamp and count, as Accepted and Outdated give them |
| `Memory.MemoryPartition.GetMetric` | memory_partition.go:131-142 | the metric of that name, created empty if missing, all others untouched |
| `Memory.MemoryPartition.SelectDataPoints` | memory_partition.go:123-129 | the metric's range read; it may leave an empty metric behind |
| `Memory.IngestKeeps` | memory_partition.go:56-106 | a batch adds each row that reaches the lower bound once, under its own timestamp or, for lack of one, under the clock's, with name and value unchanged; numPoints equals the rows held, and every held timestamp lies in [minT, maxT] |
| `Memory.BatchInOrder` | memory_partition.go:81-97 | each row is taken in its place, under its own or the clock's time, or handed back in its place unchanged |
| `Memory.StoredInOrder` | memory_partition.go:93-96 | rows are stored one after another in the order of the batch |
| `Memory.IngestSplits` | memory_partition.go:81-97 | each row is either taken or handed back, once, by the lower bound |
| `PartitionList.PartitionListImpl.Insert` | partition_list.go:73-86 | a new head in front of the same nodes |
| `PartitionList.PartitionListImpl.Remove` | partition_list.go:88-128 | unlinks exactly the first node with the target's lower bound; nodes behind it keep their next pointers; fails exactly when there is none |
| `PartitionList.PartitionListImpl.Swap` | partition_list.go:130-169 | puts a new node in place of exactly the first one with that lower bound, else nothing changes |
| `PartitionList.PartitionListImpl.GetHead` | partition_list.go:64-71 | the newest partition, or none |
| `PartitionList.PartitionListImpl.NewIterator` | partition_list.go:179-190 | starts before the head |
| `PartitionList.PartitionIterator.Next` | partition_list.go:250-257 | moves to the next node and reports whether there is one |
| `StorageModel.CascadeConserves` | storage.go:298-317 | with two memory partitions in front every row lands in exactly one, the newest that reaches back to it, or is dropped as older than both; the rest is untouched |
| `StorageModel.CascadeConservesAlone` | storage.go:298-317 | a lone partition takes the rows it reaches back to and drops the others |
| `StorageModel.InsertKeepsOrderIff` | storage.go:289-318 | a batch keeps range order if and only if it opens no head or opens it with rows newer than all stored |
| `StorageModel.ActiveHeadIff` | storage.go:344-360 | the head takes another batch if and only if it is in memory and spans less than the duration; otherwise one blank partition comes in front |
| `StorageSpans.RunRollsOver` | memory_partition.go:156-158 | in every admissible run the head offered a batch spans less than the duration, and every started partition behind it at least the duration |
| `StorageModel.UnstampedRowsStoredIff` | storage.go:54-57 | in any batch all rows without a timestamp are stored, with the clock's time and their own name and value, exactly by the first writable partition that is blank or reaches down to zero, else nowhere; the other rows split by the lower bounds as if alone; an error comes back exactly when rows too old for the head meet a disk partition |
| `StorageSelect.SelectIsNaive` | storage.go:362-403 | on partitions of which none reaches beyond a newer one's end and none with rows starts at zero, skipping and stopping early returns the oldest-first concatenation of what each partition returns alone |
| `StorageSelect.AllQueriesNaiveIff` | storage.go:372-398 | all queries return what a scan of every partition would if and only if no partition reaches beyond a newer one's end and none with rows starts at zero |
| `StorageSelect.FirstBatchQueriesIff` | storage.go:378-388 | after a first batch without negative timestamps into a fresh head all queries are complete if and only if all its rows have a timestamp and no partition behind reaches beyond the newest |
| `StorageSelect.NaiveSorted` | storage.go:362-403 | on range-ordered partitions that concatenation is ascending |
| `StorageSelect.LateFirstBatchHidesAll` | storage.go:378-386 | a first batch older than start makes a query return nothing although no partition lost a point |
| `StorageSelect.UnstampedHidesHead` | storage.go:378-380 | a head whose first batch begins with a row without timestamp holds all its rows, and every query over any list passes over it |
| `StorageSelect.UnstampedHidesHeadIff` | storage.go:378-380 | after any first batch all queries over the head alone come back empty if and only if the batch's oldest timestamp is zero |
| `StorageFlush.FlushedIsFaithful` | storage.go:501-568 | the file of a partition with positive timestamps is not empty and every entry decodes to sorted points within the partition's range |
| `StorageFlush.SweepSwaps` | storage.go:446-498 | on range-ordered partitions a pass with a data directory keeps the writable ones, puts each other one's disk form in its place and keeps range order; it completes if and only if the log has a segment for every memory partition to flush |
| `StorageFlush.SweepDrops` | storage.go:465-470 | whenever no partition to be dropped has a twin nearer the head, the in-memory pass leaves exactly the writable and the disk partitions |
| `StorageTwins.TwinStartDropsHead` | partition_list.go:171-173 | with equal lower bounds the in-memory pass drops the head instead of the old partition |
| `StorageTwins.TwinStartReplacesHead` | storage.go:472-496 | with equal lower bounds the pass with a data directory puts the old partition's file in the head's place and keeps the old partition in memory too |
| `StorageTwins.DropsInPlaceIff` | storage.go:465-470 | for distinct partitions the in-memory pass leaves exactly the writable and the disk partitions if and only if no memory partition to be dropped has a twin nearer the head |
| `StorageTwins.TwinDropLoses` | partition_list.go:88-128 | with a twin some partition that should stay is lost, one that shares a dropped partition's lower bound |
| `StorageTwins.SwapsInPlaceIff` | storage.go:472-496 | for distinct partitions and files every file stands in its own partition's place if and only if no memory partition the pass comes by has a twin nearer the head |
| `StorageTwins.TwinSwapLoses` | partition_list.go:130-169 | with a twin some partition or file that should be in the list is lost, one that shares a flushed partition's lower bound |
| `StorageTwins.PassCompletesIff` | storage.go:493-495 | on any list a pass succeeds if and only if the log is off or has a segment for every memory partition with points |
| `StorageExpiry.RemovesExpired` | storage.go:570-589 | whenever no expired partition has a live twin nearer the head, exactly the expired disk partitions go, without an error |
| `StorageExpiry.PurgesExpiredIff` | storage.go:570-589 | for distinct partitions exactly the expired ones go, without an error, if and only if none starts where a live one nearer the head starts |
| `StorageExpiry.ExpiredMembers` | disk_partition.go:173-179 | expired are exactly the disk partitions whose file is older than its retention |
| `StorageExpiry.TwinPurgeLoses` | partition_list.go:88-128 | with a live twin some live partition is lost |
| `StorageExpiry.TwinStartPurgesLive` | partition_list.go:171-173 | with equal lower bounds a live partition is removed and the expired one stays |
| `StorageRuns.RunStaysHealthy` | partition_list.go:10-15 | in every admissible run range order holds in every state and all flushed files read back |
| `StorageRuns.RunServesQueries` | storage.go:362-403 | in every admissible run every query is the naive scan, ascending |
| `StorageConservation.FlushKeepsContent` | storage.go:501-568 | the rows decoded from a flushed file are exactly the rows the partition held, buffered ones included; its index gives their number, and for each metric its name, its number of points and the range of those in order |
| `StorageConservation.CascadeConservesTotal` | storage.go:298-317 | a batch loses exactly the rows older than every writable memory partition |
| `StorageConservation.PassConserves` | storage.go:446-498 | on range-ordered partitions a pass with a data directory keeps every row; in the in-memory mode it gives up exactly the rows of the dropped partitions |
| `StorageConservation.RunConserves` | storage.go:289-318 | over every admissible run stored rows plus dropped rows are the arrived rows, with multiplicity |
| `StorageAnswers.NaiveAnswers` | storage.go:362-403 | row by row: inside the range the answer plus the unseen rows is what is stored, at end it is exactly the edge points, elsewhere nothing |
| `StorageAnswers.RunAnswersQueries` | storage.go:362-403 | over every admissible run a query returns each arrived row of its range exactly as often as it arrived, less dropped, buffered and expired ones; at end exactly the newest in-order point of a metric in memory whose range ends there |
| `StorageAnswers.SelectedCount` | memory_partition.go:215-245 | a metric's read returns each point of the range as often as it is held in order, and at end the newest point once, if end is its time and the metric has older points |
| `StorageAnswers.FlushChangesQuery` | storage.go:472-491 | swapping a partition of a range-ordered list for its file changes a whole query exactly by the partition's buffered rows of the range, which come in, and its point at end, which goes |
| `StorageClose.RunStaysBudgeted` | storage.go:433-442 | in every admissible run with a data directory the log keeps at least one segment per memory partition, whatever the name order, and every flush pass succeeds |
| `StorageClose.CloseFlushesAll` | storage.go:405-431 | from a range-ordered state whose log has a segment per memory partition Close's pass succeeds and leaves two blank partitions before disk partitions that hold every row |
| `StorageClose.RunClosesSafely` | storage.go:405-431 | at any moment of any admissible run with a data directory Close succeeds: it leaves two blank partitions, on disk exactly the arrived rows that were not dropped and have not expired, and no row in the log |
| `WalCoverage.PassKeepsCoverIff` | storage.go:446-498 | on range-ordered partitions with a covered memory a pass keeps the cover if and only if none of the first listed files, one for each partition to flush, is the segment of a writable partition |
| `WalCoverage.SweepUnlists` | disk_wal.go:129-140 | on range-ordered partitions a sweep removes exactly the first files of the directory listing, one for each memory partition it flushes |
| `WalCoverage.HeadLoggedIff` | disk_wal.go:129-140 | after a pass the head's rows are still logged if and only if the open segment is not among the files removed; otherwise none of them is |
| `WalCoverage.SameLengthSpares` | disk_wal.go:129-140 | with segment names of one length a pass spares the writable partitions' segments |
| `WalCoverage.BatchLogged` | memory_partition.go:56-63 | a batch appends to the open segment its rows in order, and those too old for the head once more if there is a second memory partition, and nothing else changes in the log |
| `WalCoverage.RunStaysCoveredIff` | disk_wal.go:110-140 | in every admissible run with a log, every row held in memory is logged, from its partition's own segment on and as often as it is held, in all states if and only if every flush pass spares the writable partitions' segments |
| `WalCoverage.SameLengthKeepsCover` | disk_wal.go:173-181 | in particular if every pass meets segment names of one length |
| `WalCoverage.NameOrderBreaksCover` | disk_wal.go:129-140 | when the open segment is the first with another digit, any pass with something to flush deletes it, and no row of the head is logged any more |
| `WalSegments.SameLengthFirstIsOldest` | disk_wal.go:129-140 | among names of one length the first by name is the oldest |
| `WalSegments.DecimalSpells` | disk_wal.go:173-181 | a segment's name spells its number in decimal digits, without leading zeros |
| `WalSegments.FirstIsOldestIff` | disk_wal.go:129-140 | in any directory the oldest segment is listed first if and only if no other name begins with digits that spell a smaller number |
| `WalSegments.BlockFirstIsOldestIff` | disk_wal.go:129-140 | of the segments lo..hi the oldest is listed first if and only if lo and hi have equally many digits, or lo is zero or a power of ten |
| `WalSegments.ShortenListed` | disk_wal.go:129-140 | removing the oldest segment takes exactly the first file off the directory listing |
| `WalSegments.NewestListedFirst` | disk_wal.go:129-140 | a block that has just reached a power of ten lists its newest segment first |
| `WalSegments.DiskWal.Append` | disk_wal.go:56-99 | rows go to the open segment if its file still exists |
| `WalSegments.DiskWal.Punctuate` | disk_wal.go:110-126 | opens the segment named by the index, appending to an existing one |
| `WalSegments.DiskWal.RemoveOldest` | disk_wal.go:129-140 | removes exactly the file listed first, and fails exactly when there is none |
| `WalSegments.DiskWal.RemoveAll` | disk_wal.go:143-153 | no segment is left, and index and open segment number stay |
| `WalRecord.AppendRows` | disk_wal.go:56-90 | writes exactly the records of the rows, in order |
| `WalRecord.RecordLayout` | disk_wal.go:56-90 | a record is a zero byte, the name behind its length as a varint, the timestamp as a signed and the value's bits as an unsigned varint |
| `WalRecord.RecordRoundTrip` | disk_wal.go:253-304 | a record parses back to its row and length, whatever follows |
| `WalRecord.RecordTorn` | disk_wal.go:253-304 | every nonempty proper prefix of a record ends in an EOF-class error |
| `WalRecord.UnknownOperationFails` | disk_wal.go:298-301 | any other operation byte stops the segment and fails the recovery |
| `WalRecord.TornSegment` | disk_wal.go:253-304 | a segment cut at any byte yields exactly the whole records and ends cleanly exactly when cut between records |
| `WalRecord.SegmentRoundTrip` | disk_wal.go:253-304 | an uncut segment yields all its rows |
| `WalRecord.RecoverTornLog` | disk_wal.go:208-242 | recovery returns the whole records of all segments up to and including the first torn one, and goes on past a cut between records |
| `WalRecord.SegmentReader.Next` | disk_wal.go:253-304 | advances past one record, or stops with the record parser's error |
| `WalRecord.DiskWalReader.ReadAll` | disk_wal.go:208-242 | collects the rows segment after segment; EOF-class errors end it, others fail it |
| `WalRecovery.RunRecovers` | disk_wal.go:208-242 | at any moment of an admissible run whose passes spare the writable partitions' segments, reading the surviving segments' bytes in name order succeeds and contains every row held in memory at least as often as it is held |
| `WalRecovery.CoveredRecovers` | disk_wal.go:208-242 | a log that covers memory brings back every row held in memory, at least as often as it is held |
| `WalRecovery.TornOpenCosts` | disk_wal.go:226-238 | a segment cut at any byte costs exactly its own last rows if cut between records, and also every segment listed behind it if cut inside one |
| `WalRecovery.OpenListedLast` | disk_wal.go:208-215 | with names of one length the open segment is listed last |
| `Label.MarshalMetricName` | label.go:29-73 | sorts the caller's labels in place, cuts names to 256 and values to 16384 bytes, leaves labels without name or value as they are, and returns the name built from them; without labels the plain metric |
| `Label.PermutedLabelsSameName` | label.go:29-73 | permuting labels with distinct valid names never changes the name, however the sort breaks ties |
| `Label.NameDecodesIff` | label.go:29-73 | with labels the bytes decode to the metric and its truncated valid labels if and only if the metric has fewer than 65536 bytes |
| `Label.EqualNamesSameSeries` | label.go:28-73 | two names of labelled metrics are equal only for the same metric and the same labels after the cut |
| `Label.EqualNamesSameLabels` | label.go:28-73 | for labels that need no cut equal names mean the same metric and the same labels with name and value, as often as given |
| `Label.LabelWrites` | label.go:60-71 | a label writes its name and its value in its place, and one without name or value writes nothing |
| `Label.FieldLayout` | internal/encoding/int.go:6-9 | a field is its length in two bytes, the higher one first, and its bytes |
| `Label.FieldRoundTrip` | internal/encoding/int.go:6-14 | a length-prefixed field of fewer than 65536 bytes reads back |
| `Label.PlainNameCollides` | label.go:30-32 | every name of a metric with labels is also the name of a metric without labels |
| `Label.PlainNameCollidesIff` | label.go:28-73 | a plain name equals the name of a labelled metric of fewer than 65536 bytes if and only if it decodes to that metric and its truncated valid labels |
| `Storage.FlushMemory` | storage.go:501-568 | writes every metric of a partition, in any order, and returns its disk form, dated now and with the storage's retention; only the buffers change, by sorting |
| `Storage.StorageImpl.constructor` | storage.go:173-268 | an empty data directory, with a log or without, or none gives one blank partition and, with a log, its first segment |
| `Storage.StorageImpl.EnsureActiveHead` | storage.go:344-360 | an active head stays, else a fresh one with its own segment comes in front |
| `Storage.StorageImpl.NewPartition` | storage.go:433-442 | a blank head and a new log segment, everything else unchanged |
| `Storage.StorageImpl.InsertRows` | storage.go:289-318 | takes exactly the model's cascade step on list, partitions and log, and fails exactly when late rows meet a disk partition |
| `Storage.StorageImpl.Select` | storage.go:362-403 | unset metric, bad range and empty result are errors; else the points of the model's scan, leaving at most empty metrics behind |
| `Storage.StorageImpl.FlushPartitions` | storage.go:446-498 | the loop with a live iterator over the changing list is exactly the model's pass, each original node visited once, and it returns success exactly when the pass completes |
| `Storage.StorageImpl.RemoveExpiredPartitions` | storage.go:570-589 | lists the expired partitions, then removes them one by one as in the model |
| `Storage.StorageImpl.Close` | storage.go:405-431 | two fresh heads, a pass, expiry, and the log emptied if and only if all succeeded; it returns success exactly when pass and expiry did |
| `StorageSelect.TouchKeepsContent` | memory_partition.go:131-142 | the empty metric a read may create adds no row |

## Left out

- Goroutines, locks, atomics and the worker channel: every call is one step, so all
  claims are for serialized calls.
- Files, mmap, JSON and directories: a data file is its bytes, meta a record, a log
  segment a file name with rows; I/O errors do not occur.
- Directory names: a flush to a directory that exists, of a partition with the same bounds,
  overwrites that partition's files in the code; here every file is a new one.
- bufio buffering in the log: an appended row counts as logged at once.
- Recovery as a whole (recoverWAL re-inserting rows and discarding all segments):
  records, torn tails and readAll are modelled, durability across a crash during or after
  recovery is not.
- Opening a non-empty data directory: runs start from an empty one.
- toUnix, timestamp precision and the tickers: the time is a parameter of each call.
- The order in which sort.Slice leaves points or labels with equal keys: proofs hold for
  every such order.
- The tail pointer, String, loggers, options, fakes and internal/cgroup.
- bitRange, which the codec does not use.
- GorillaRoundTrip.SeriesRoundTrip: for series that are not ascending from zero on, a zero
  among the first two timestamps is not proved to break the round trip; some such
  series, for example the timestamps -1, 0, 1 with equal values, decode correctly by chance.
- Gorilla.GorillaDecoder.DecodePoint: states nothing about bits that do not hold a point,
  where the code returns an error or, past the end, may return a point that was never written.
- Gorilla.GorillaDecoder.ReadDeltaOfDelta: states nothing about bits that end inside the field.
- Gorilla.GorillaDecoder.ReadValue: states nothing about bits that end inside the field.
- Gorilla.GorillaDecoder.ReadNewWindow: states nothing about fewer than eleven bits.
- StorageSelect.AllQueriesNaiveIff: queries range over all integers, so that a range may end
  past the last 64-bit timestamp.
- StorageTwins.SwapsInPlaceIff: list entries and files are compared as values, and two
  that look the same are excluded, since the model has no identity for them.
- Storage.StorageImpl.Select: when a data file does not decode, the error is not compared
  with the model's; and the metric's name is given, not marshalled anew for each partition.
- Disk.SelectDataPoints: the result for a file that does not decode is left open.
- WalRecord.SegmentReader.Next: a name length of 2^63 or more, on which make panics, is
  an error here, and the memory a large length would need is unbounded.
