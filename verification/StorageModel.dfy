/** The storage as a state machine over its partitions, newest first: batches
    cascade through the writable partitions, and range order is kept. */
module StorageModel {
  import opened Words
  import opened Rows
  import opened WalSegments
  import opened Memory
  import opened Disk

  /** `segment` is the log segment opened together with a memory partition. */
  datatype Part = MemPart(m: MemState, segment: nat) | DiskPart(d: DiskPartition) {

    function MinT(): int64 {
      if MemPart? then m.minT else d.meta.minTs
    }

    function MaxT(): int64 {
      if MemPart? then m.maxT else d.meta.maxTs
    }

    /** A memory partition that has not seen a batch. */
    predicate Blank() {
      MemPart? && !m.started
    }

    predicate Active(duration: int) {
      MemPart? && m.maxT - m.minT + 1 < duration
    }
  }

  datatype StorageState = StorageState(parts: seq<Part>, wal: WalState)

  const WRITABLE_PARTITIONS: nat := 2

  // ----- InsertRows -----

  function WithNewHead(s: StorageState): StorageState {
    var wal := Punctuated(s.wal);
    StorageState([MemPart(NO_ROWS, wal.active)] + s.parts, wal)
  }

  function WithActiveHead(s: StorageState, duration: int): StorageState {
    if s.parts != [] && s.parts[0].Active(duration) then s else WithNewHead(s)
  }

  ghost predicate AllSound(parts: seq<Part>) {
    forall i | 0 <= i < |parts| :: parts[i].MemPart? ==> Sound(parts[i].m)
  }

  /** The metric counters match their points, which inserting relies on. */
  ghost predicate Readable(parts: seq<Part>) {
    forall k | 0 <= k < |parts| :: parts[k].MemPart? ==> AllSized(parts[k].m.metrics)
  }

  datatype Cascaded = Cascaded(state: StorageState, ok: bool)

  /** Rows too old for partition i go on to partition i + 1; a disk partition refuses them. */
  ghost function Cascade(s: StorageState, rows: seq<Row>, now: int64, i: nat): Cascaded
    requires Readable(s.parts)
    decreases WRITABLE_PARTITIONS - i
  {
    if i >= |s.parts| || i >= WRITABLE_PARTITIONS || rows == [] then Cascaded(s, true)
    else if s.parts[i].DiskPart? then Cascaded(s, false)
    else
      var p := s.parts[i];
      var parts := s.parts[i := p.(m := Ingested(p.m, rows, now))];
      Cascade(StorageState(parts, Appended(s.wal, rows)), Outdated(rows, LowerBound(p.m, rows)), now, i + 1)
  }

  ghost function InsertedRows(s: StorageState, rows: seq<Row>, now: int64, duration: int): Cascaded
    requires Readable(s.parts)
  {
    Cascade(WithActiveHead(s, duration), rows, now, 0)
  }

  // ----- Where rows go -----

  ghost predicate AllPositive(rows: seq<Row>) {
    forall i | 0 <= i < |rows| :: rows[i].point.ts > 0
  }

  ghost function Held(p: Part): multiset<Row> {
    if p.MemPart? then Content(p.m.metrics) else multiset{}
  }

  /** Splits a batch over lower bounds min0 (newest) and min1. */
  ghost predicate SplitBy(rows: seq<Row>, min0: int, min1: int, taken0: multiset<Row>, taken1: multiset<Row>, dropped: multiset<Row>) {
    && taken0 + taken1 + dropped == multiset(rows)
    && (forall r | r in taken0 :: min0 <= r.point.ts)
    && (forall r | r in taken1 :: min1 <= r.point.ts < min0)
    && (forall r | r in dropped :: r.point.ts < min0 && r.point.ts < min1)
  }

  /** One partition of the cascade: what it takes and what it passes on. */
  lemma CascadeStep(s: StorageState, rows: seq<Row>, now: int64, i: nat) returns (s': StorageState, taken: multiset<Row>, late: seq<Row>)
    requires i < |s.parts| && i < WRITABLE_PARTITIONS && s.parts[i].MemPart?
    requires AllSound(s.parts) && AllPositive(rows) && rows != [] && now > 0
    ensures AllSized(s.parts[i].m.metrics)
    ensures s' == StorageState(s.parts[i := s.parts[i].(m := Ingested(s.parts[i].m, rows, now))], Appended(s.wal, rows))
    ensures late == Outdated(rows, LowerBound(s.parts[i].m, rows))
    ensures AllSound(s'.parts) && AllPositive(late)
    ensures Readable(s.parts) && Readable(s'.parts)
    ensures Cascade(s, rows, now, i) == Cascade(s', late, now, i + 1)
    ensures s'.parts[i].MinT() == LowerBound(s.parts[i].m, rows)
    ensures Held(s'.parts[i]) == Held(s.parts[i]) + taken
    ensures taken + multiset(late) == multiset(rows)
    ensures forall r | r in taken :: s'.parts[i].MinT() <= r.point.ts
    ensures forall r | r in multiset(late) :: r.point.ts < s'.parts[i].MinT()
  {
    hide Sound, Content, Ingested, Accepted, Outdated, Oldest, AllSized;
    SoundSized(s.parts);
    var m := s.parts[i].m;
    var minT := LowerBound(m, rows);
    IngestKeeps(m, rows, now);
    IngestBounds(m, rows, now);
    IngestSplits(rows, minT, now);
    taken, late := multiset(Accepted(rows, minT, now)), Outdated(rows, minT);
    s' := StorageState(s.parts[i := s.parts[i].(m := Ingested(m, rows, now))], Appended(s.wal, rows));
    SoundSized(s'.parts);
  }

  /** With two memory partitions in front, every row lands in exactly one of them,
      or is dropped as older than both; all other partitions stay as they are. */
  lemma CascadeConserves(s: StorageState, rows: seq<Row>, now: int64) returns (taken0: multiset<Row>, taken1: multiset<Row>, dropped: multiset<Row>)
    requires |s.parts| >= 2 && s.parts[0].MemPart? && s.parts[1].MemPart?
    requires AllSound(s.parts) && AllPositive(rows) && rows != [] && now > 0
    ensures Readable(s.parts)
    ensures Cascade(s, rows, now, 0).ok
    ensures var parts := Cascade(s, rows, now, 0).state.parts;
            && |parts| == |s.parts| && parts[2..] == s.parts[2..] && AllSound(parts)
            && SplitBy(rows, parts[0].MinT(), parts[1].MinT(), taken0, taken1, dropped)
            && Held(parts[0]) == Held(s.parts[0]) + taken0
            && Held(parts[1]) == Held(s.parts[1]) + taken1
  {
    hide Sound, Held, Ingested, Outdated, LowerBound, AllSized, AllSound, Appended, Cascade, Readable, SplitBy, AllPositive;
    var s1, late;
    s1, taken0, late := CascadeStep(s, rows, now, 0);
    if late == [] {
      taken1, dropped := multiset{}, multiset{};
      CascadeStops(s1, late, now, 1);
      SplitInTwo(rows, taken0, late, multiset{}, [], s1.parts[0].MinT(), s1.parts[1].MinT());
    } else {
      var s2, rest;
      s2, taken1, rest := CascadeStep(s1, late, now, 1);
      dropped := multiset(rest);
      CascadeStops(s2, rest, now, 2);
      SplitInTwo(rows, taken0, late, taken1, rest, s2.parts[0].MinT(), s2.parts[1].MinT());
    }
  }

  lemma SplitInTwo(rows: seq<Row>, taken: multiset<Row>, late: seq<Row>, taken': multiset<Row>, rest: seq<Row>, min0: int, min1: int)
    requires taken + multiset(late) == multiset(rows) && taken' + multiset(rest) == multiset(late)
    requires forall r | r in taken :: min0 <= r.point.ts
    requires forall r | r in multiset(late) :: r.point.ts < min0
    requires forall r | r in taken' :: min1 <= r.point.ts
    requires forall r | r in multiset(rest) :: r.point.ts < min1
    ensures SplitBy(rows, min0, min1, taken, taken', multiset(rest))
  {
    forall r | r in taken' || r in multiset(rest)
      ensures r.point.ts < min0
    {
      assert r in taken' + multiset(rest);
    }
  }

  /** A lone memory partition drops what is older than itself. */
  lemma CascadeConservesAlone(s: StorageState, rows: seq<Row>, now: int64) returns (taken: multiset<Row>, dropped: multiset<Row>)
    requires |s.parts| == 1 && s.parts[0].MemPart?
    requires AllSound(s.parts) && AllPositive(rows) && rows != [] && now > 0
    ensures Readable(s.parts)
    ensures Cascade(s, rows, now, 0).ok
    ensures var parts := Cascade(s, rows, now, 0).state.parts;
            && |parts| == 1 && AllSound(parts)
            && taken + dropped == multiset(rows)
            && (forall r | r in taken :: parts[0].MinT() <= r.point.ts)
            && (forall r | r in dropped :: r.point.ts < parts[0].MinT())
            && Held(parts[0]) == Held(s.parts[0]) + taken
  {
    var s1, late;
    s1, taken, late := CascadeStep(s, rows, now, 0);
    dropped := multiset(late);
  }

  // ----- Rows without a timestamp -----

  /** A memory partition stamps such a row unless its range starts above zero. */
  predicate TakesUnstamped(parts: seq<Part>, i: nat) {
    i < |parts| && parts[i].MemPart? && (!parts[i].m.started || parts[i].m.minT <= 0)
  }

  /** One partition: it takes all rows without a timestamp, stamped, or none. */
  lemma IngestUnstamped(m: MemState, rows: seq<Row>, now: int64) returns (taken: multiset<Row>)
    requires Sound(m) && rows != [] && now > 0
    ensures AllSized(m.metrics)
    ensures var m', takes, lb := Ingested(m, rows, now), !m.started || m.minT <= 0, LowerBound(m, rows);
            && Sound(m') && m'.minT == lb
            && Content(m'.metrics) == Content(m.metrics) + taken + multiset(if takes then Stamps(rows, now) else [])
            && taken + multiset(Timed(Outdated(rows, lb))) == multiset(Timed(rows))
            && (forall r | r in taken :: lb <= r.point.ts)
            && (forall r | r in multiset(Timed(Outdated(rows, lb))) :: r.point.ts < lb)
            && Stamps(Outdated(rows, lb), now) == if takes then [] else Stamps(rows, now)
  {
    hide Ingested, Content, Sound, AllSized, Accepted, Outdated, Timed, Stamps, Oldest;
    SoundSized([MemPart(m, 0)]);
    assert AllSized([MemPart(m, 0)][0].m.metrics);
    var lb := LowerBound(m, rows);
    IngestKeeps(m, rows, now);
    IngestBounds(m, rows, now);
    UnstampedTaken(rows, lb, now);
    UnstampedLate(rows, lb, now);
    TimedNonzero(rows);
    IngestSplits(Timed(rows), lb, now);
    taken := multiset(Accepted(Timed(rows), lb, now));
    StampsNone(rows, now);
  }

  /** Every row with a timestamp lands as if alone in the batch. The others are stamped by
      the machine's clock and stored, all together, exactly by the first writable partition
      that is blank or reaches down to zero; without one they are dropped. An error comes
      back exactly when rows too old for the head meet a disk partition behind it. */
  lemma UnstampedRowsStoredIff(s: StorageState, rows: seq<Row>, now: int64)
    returns (taken0: multiset<Row>, taken1: multiset<Row>, dropped: multiset<Row>, stamps: multiset<Row>)
    requires AllSound(s.parts) && s.parts != [] && s.parts[0].MemPart? && rows != [] && now > 0
    ensures Readable(s.parts)
    ensures forall q: Row :: stamps[q] == UnstampedAs(rows, now, q)
    ensures Cascade(s, rows, now, 0).ok
       <==> |s.parts| == 1 || s.parts[1].MemPart? || forall k | 0 <= k < |rows| :: LowerBound(s.parts[0].m, rows) <= rows[k].point.ts
    ensures var parts := Cascade(s, rows, now, 0).state.parts;
            && |parts| == |s.parts| && AllSound(parts) && (|parts| >= 2 ==> parts[2..] == s.parts[2..])
            && Held(parts[0]) == Held(s.parts[0]) + taken0 + (if TakesUnstamped(s.parts, 0) then stamps else multiset{})
            && (|parts| > 1 ==>
                  Held(parts[1]) == Held(s.parts[1]) + taken1
                    + if !TakesUnstamped(s.parts, 0) && TakesUnstamped(s.parts, 1) then stamps else multiset{})
            && taken0 + taken1 + dropped == multiset(Timed(rows))
            && (forall r | r in taken0 :: parts[0].MinT() <= r.point.ts)
            && (forall r | r in taken1 :: |parts| > 1 && parts[1].MinT() <= r.point.ts < parts[0].MinT())
            && (forall r | r in dropped :: r.point.ts < parts[0].MinT()
                                           && (|parts| > 1 && parts[1].MemPart? ==> r.point.ts < parts[1].MinT()))
  {
    hide Sound, Held, Ingested, Outdated, AllSized, Appended, LowerBound, Timed, Stamps, AllSound, Readable, Cascade, UnstampedAs;
    SoundSized(s.parts);
    var s1, late;
    s1, taken0, late := UnstampedStep(s, rows, now, 0);
    CascadeOkIff(s, rows, now);
    stamps := multiset(Stamps(rows, now));
    forall q: Row
      ensures stamps[q] == UnstampedAs(rows, now, q)
    {
      StampsCount(rows, now, q);
    }
    taken1, dropped := multiset{}, multiset(Timed(late));
    if late != [] && |s.parts| > 1 && s.parts[1].MemPart? {
      var s2, rest;
      s2, taken1, rest := UnstampedStep(s1, late, now, 1);
      CascadeStops(s2, rest, now, 2);
      dropped := multiset(Timed(rest));
      LateTaken(taken1, rest, late, s1.parts[0].MinT());
    } else {
      CascadeStops(s1, late, now, 1);
      NoStamps(late, now);
    }
  }

  /** A cascade fails exactly when rows too old for the head meet a disk partition. */
  lemma CascadeOkIff(s: StorageState, rows: seq<Row>, now: int64)
    requires AllSound(s.parts) && s.parts != [] && s.parts[0].MemPart? && rows != [] && now > 0
    ensures Readable(s.parts)
    ensures Cascade(s, rows, now, 0).ok
       <==> |s.parts| == 1 || s.parts[1].MemPart? || forall k | 0 <= k < |rows| :: LowerBound(s.parts[0].m, rows) <= rows[k].point.ts
  {
    hide Sound, Held, Ingested, Outdated, AllSized, LowerBound, Timed, Stamps, AllSound, Readable, Cascade;
    SoundSized(s.parts);
    var s1, taken, late := UnstampedStep(s, rows, now, 0);
    OutdatedNoneIff(rows, LowerBound(s.parts[0].m, rows));
    if late != [] && |s.parts| > 1 && s.parts[1].MemPart? {
      var s2, taken', rest := UnstampedStep(s1, late, now, 1);
      CascadeStops(s2, rest, now, 2);
    } else {
      CascadeStops(s1, late, now, 1);
    }
  }

  lemma {:induction false} OutdatedNoneIff(rows: seq<Row>, minT: int64)
    ensures Outdated(rows, minT) == [] <==> forall k | 0 <= k < |rows| :: minT <= rows[k].point.ts
  {
    if rows != [] {
      OutdatedNoneIff(rows[..|rows| - 1], minT);
    }
  }

  lemma LateTaken(taken: multiset<Row>, rest: seq<Row>, late: seq<Row>, minT: int)
    requires taken + multiset(Timed(rest)) == multiset(Timed(late))
    requires forall r | r in multiset(Timed(late)) :: r.point.ts < minT
    ensures forall r | r in taken :: r.point.ts < minT
    ensures forall r | r in multiset(Timed(rest)) :: r.point.ts < minT
  {
    hide Timed;
    forall r | r in taken
      ensures r.point.ts < minT
    {
      assert r in taken + multiset(Timed(rest));
    }
    forall r | r in multiset(Timed(rest))
      ensures r.point.ts < minT
    {
      assert r in taken + multiset(Timed(rest));
    }
  }

  lemma CascadeStops(s: StorageState, rows: seq<Row>, now: int64, i: nat)
    requires Readable(s.parts)
    requires rows == [] || i >= |s.parts| || i >= WRITABLE_PARTITIONS || s.parts[i].DiskPart?
    ensures Cascade(s, rows, now, i) == Cascaded(s, rows == [] || i >= |s.parts| || i >= WRITABLE_PARTITIONS)
  {
  }

  lemma UnstampedStep(s: StorageState, rows: seq<Row>, now: int64, i: nat) returns (s': StorageState, taken: multiset<Row>, late: seq<Row>)
    requires i < |s.parts| && i < WRITABLE_PARTITIONS && s.parts[i].MemPart?
    requires AllSound(s.parts) && rows != [] && now > 0
    ensures |s'.parts| == |s.parts| && s'.parts == s.parts[i := s'.parts[i]] && s'.parts[i].MemPart?
    ensures AllSound(s'.parts) && Readable(s.parts) && Readable(s'.parts)
    ensures Cascade(s, rows, now, i) == Cascade(s', late, now, i + 1) && late == Outdated(rows, LowerBound(s.parts[i].m, rows))
    ensures Held(s'.parts[i]) == Held(s.parts[i]) + taken + if TakesUnstamped(s.parts, i) then multiset(Stamps(rows, now)) else multiset{}
    ensures taken + multiset(Timed(late)) == multiset(Timed(rows))
    ensures forall r | r in taken :: s'.parts[i].MinT() <= r.point.ts
    ensures forall r | r in multiset(Timed(late)) :: r.point.ts < s'.parts[i].MinT()
    ensures Stamps(late, now) == if TakesUnstamped(s.parts, i) then [] else Stamps(rows, now)
  {
    hide Sound, Content, Ingested, Outdated, AllSized, Appended, LowerBound, Timed, Stamps;
    SoundSized(s.parts);
    var m := s.parts[i].m;
    taken := IngestUnstamped(m, rows, now);
    late := Outdated(rows, LowerBound(m, rows));
    s' := StorageState(s.parts[i := s.parts[i].(m := Ingested(m, rows, now))], Appended(s.wal, rows));
    SoundSized(s'.parts);
  }

  lemma NoStamps(rows: seq<Row>, now: int64)
    ensures rows == [] ==> Stamps(rows, now) == [] && Timed(rows) == []
  {
  }

  lemma SoundSized(parts: seq<Part>)
    requires AllSound(parts)
    ensures Readable(parts)
  {
  }

  lemma IngestBounds(m: MemState, rows: seq<Row>, now: int64)
    requires rows != [] && AllSized(m.metrics)
    ensures Ingested(m, rows, now).minT == LowerBound(m, rows) && Ingested(m, rows, now).started
  {
  }

  // ----- Range order -----

  /** Every partition with rows starts above zero and ends no earlier than it starts. */
  ghost predicate ProperRanges(parts: seq<Part>) {
    forall i | 0 <= i < |parts| && !parts[i].Blank() :: 0 < parts[i].MinT() <= parts[i].MaxT()
  }

  /** Each partition lies wholly after every older one. */
  ghost predicate Ordered(parts: seq<Part>) {
    forall i, j | 0 <= i < j < |parts| && !parts[i].Blank() && !parts[j].Blank() :: parts[j].MaxT() < parts[i].MinT()
  }

  ghost predicate OnlyHeadBlank(parts: seq<Part>) {
    forall i | 0 < i < |parts| :: !parts[i].Blank()
  }

  ghost predicate Good(s: StorageState) {
    AllSound(s.parts) && ProperRanges(s.parts) && Ordered(s.parts) && OnlyHeadBlank(s.parts)
  }

  /** All rows are newer than everything in the partitions. */
  ghost predicate Newer(rows: seq<Row>, parts: seq<Part>) {
    forall i, k | 0 <= i < |parts| && 0 <= k < |rows| && !parts[i].Blank() :: parts[i].MaxT() < rows[k].point.ts
  }

  /** The range after a batch: the lower bound, and an upper bound within the batch. */
  lemma IngestRange(m: MemState, rows: seq<Row>, now: int64)
    requires Sound(m) && rows != [] && AllPositive(rows)
    requires m.started ==> 0 < m.minT
    ensures var r := Ingested(m, rows, now);
            r.started && r.minT == LowerBound(m, rows) && 0 < r.minT <= r.maxT
            && (r.maxT == m.maxT || exists i | 0 <= i < |rows| :: r.maxT == rows[i].point.ts)
  {
    hide Content, Stored, AllConsistent, Oldest, NewestOf, Accepted;
    var minT := LowerBound(m, rows);
    var accepted := Accepted(rows, minT, now);
    IngestSplits(rows, minT, now);
    var newest := NewestOf(rows[0].point.ts, accepted);
    if newest != rows[0].point.ts {
      var i :| 0 <= i < |accepted| && accepted[i].point.ts == newest;
      assert accepted[i] in rows;
    }
  }

  /** Rows older than every newer partition leave the order intact when the
      partition they go to has started. */
  lemma StepKeepsGood(s: StorageState, rows: seq<Row>, now: int64, i: nat)
    requires Good(s) && i < |s.parts| && s.parts[i].MemPart? && !s.parts[i].Blank()
    requires AllPositive(rows) && rows != [] && now > 0 && AllSized(s.parts[i].m.metrics)
    requires forall k, j | 0 <= k < i && 0 <= j < |rows| && !s.parts[k].Blank() :: rows[j].point.ts < s.parts[k].MinT()
    ensures Good(s.(parts := s.parts[i := s.parts[i].(m := Ingested(s.parts[i].m, rows, now))]))
  {
    hide Sound, Ingested, LowerBound;
    var p := s.parts[i];
    var p' := p.(m := Ingested(p.m, rows, now));
    StartedBound(p.m, rows);
    IngestKeeps(p.m, rows, now);
    IngestRange(p.m, rows, now);
    forall k | 0 <= k < i && !s.parts[k].Blank()
      ensures p'.MaxT() < s.parts[k].MinT()
    {
    }
  }

  lemma StartedBound(m: MemState, rows: seq<Row>)
    requires m.started && rows != []
    ensures LowerBound(m, rows) == m.minT
  {
  }

  /** The first batch of a blank head: nothing is handed on, and the order holds
      exactly when the batch is newer than everything stored. */
  lemma FirstBatch(s: StorageState, rows: seq<Row>, now: int64)
    requires Good(s) && s.parts != [] && s.parts[0].Blank()
    requires AllPositive(rows) && rows != [] && now > 0 && AllSized(s.parts[0].m.metrics)
    ensures Outdated(rows, LowerBound(s.parts[0].m, rows)) == []
    ensures var parts := s.parts[0 := s.parts[0].(m := Ingested(s.parts[0].m, rows, now))];
            && AllSound(parts) && ProperRanges(parts) && OnlyHeadBlank(parts)
            && (Ordered(parts) <==> Newer(rows, s.parts))
  {
    hide Sound, Ingested, Oldest, Outdated, Ordered, Newer;
    var p := s.parts[0];
    IngestKeeps(p.m, rows, now);
    IngestRange(p.m, rows, now);
    NothingOutdated(rows, LowerBound(p.m, rows));
    NewHeadOrder(s.parts, p.(m := Ingested(p.m, rows, now)), rows);
  }

  /** A head that starts with its oldest row is in order if all its rows are newer than the rest. */
  lemma NewHeadOrder(parts: seq<Part>, p: Part, rows: seq<Row>)
    requires Ordered(parts) && parts != [] && parts[0].Blank() && !p.Blank()
    requires rows != [] && p.MinT() == Oldest(rows)
    ensures Ordered(parts[0 := p]) <==> Newer(rows, parts)
  {
    hide Oldest;
    var parts' := parts[0 := p];
    if Ordered(parts') {
      forall i, k | 0 <= i < |parts| && 0 <= k < |rows| && !parts[i].Blank()
        ensures parts[i].MaxT() < rows[k].point.ts
      {
        assert parts'[i].MaxT() < parts'[0].MinT();
      }
    }
  }

  /** A fresh head in front of good partitions. */
  lemma ActiveHeadIsGood(s: StorageState, duration: int)
    requires Good(s) && duration >= 2
    ensures Good(WithActiveHead(s, duration))
    ensures var e := WithActiveHead(s, duration); e.parts != [] && e.parts[0].MemPart?
  {
    NoRowsSound();
  }

  /** The head takes another batch exactly when it is in memory and spans less than the
      duration; otherwise one blank partition comes in front of it. */
  lemma ActiveHeadIff(s: StorageState, duration: int)
    ensures var e := WithActiveHead(s, duration);
            var stays := s.parts != [] && s.parts[0].MemPart? && s.parts[0].m.maxT - s.parts[0].m.minT + 1 < duration;
            && (e == s <==> stays)
            && (!stays ==> |e.parts| == |s.parts| + 1 && e.parts[1..] == s.parts && e.parts[0].MemPart? && e.parts[0].m == NO_ROWS)
  {
  }

  lemma NoRowsSound()
    ensures Sound(NO_ROWS)
  {
  }

  /** A batch keeps the partitions in range order exactly when it does not open a
      head, or opens it with rows newer than everything stored. */
  lemma InsertKeepsOrderIff(s: StorageState, rows: seq<Row>, now: int64, duration: int)
    requires Good(s) && duration >= 2 && AllPositive(rows) && now > 0
    ensures Readable(s.parts)
    ensures var e := WithActiveHead(s, duration);
            var s' := InsertedRows(s, rows, now, duration).state;
            && AllSound(s'.parts) && ProperRanges(s'.parts) && OnlyHeadBlank(s'.parts)
            && (Ordered(s'.parts) <==> rows == [] || !e.parts[0].Blank() || Newer(rows, e.parts))
  {
    hide Sound, Ingested, Outdated, LowerBound, AllSized, ProperRanges, Ordered, OnlyHeadBlank, Appended, WithActiveHead;
    SoundSized(s.parts);
    ActiveHeadIsGood(s, duration);
    var e := WithActiveHead(s, duration);
    SoundSized(e.parts);
    if rows != [] {
      var s1, taken, late := CascadeStep(e, rows, now, 0);
      if e.parts[0].Blank() {
        FirstBatch(e, rows, now);
      } else {
        StepKeepsGood(e, rows, now, 0);
        if late != [] && |s1.parts| > 1 && s1.parts[1].MemPart? {
          LateRowsOlder(late, s1.parts[0].MinT());
          OnlyHeadIsBlank(s1, 1);
          var s2, taken1, dropped := CascadeStep(s1, late, now, 1);
          StepKeepsGood(s1, late, now, 1);
        }
      }
    }
  }

  lemma OnlyHeadIsBlank(s: StorageState, i: nat)
    requires Good(s) && 0 < i < |s.parts|
    ensures !s.parts[i].Blank()
  {
  }

  lemma LateRowsOlder(late: seq<Row>, minT: int)
    requires forall r | r in multiset(late) :: r.point.ts < minT
    ensures forall j | 0 <= j < |late| :: late[j].point.ts < minT
  {
    forall j | 0 <= j < |late|
      ensures late[j].point.ts < minT
    {
      assert late[j] in multiset(late);
    }
  }
}
