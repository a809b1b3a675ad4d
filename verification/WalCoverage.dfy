/** The log covers memory: every row held only in memory is logged, as often as it is
    held, in segments that still exist. Exactly when a flush pass keeps it that way. */
module WalCoverage {
  import opened Words
  import opened Rows
  import opened WalSegments
  import opened Memory
  import opened StorageModel
  import opened StorageSelect
  import opened StorageFlush
  import opened StorageExpiry
  import opened StorageRuns

  // ----- What the log holds -----

  /** How often row r stands in the surviving segments numbered `from` or more. */
  ghost function LogCount(w: WalState, from: nat, r: Row): nat
    decreases w.active + 1 - from
  {
    if from > w.active then 0
    else (if from in w.segments then multiset(w.segments[from])[r] else 0) + LogCount(w, from + 1, r)
  }

  lemma {:induction false} CountSame(w: WalState, w': WalState, from: nat, r: Row)
    requires w'.active == w.active
    requires forall k | from <= k <= w.active :: (k in w'.segments <==> k in w.segments) && (k in w.segments ==> w'.segments[k] == w.segments[k])
    ensures LogCount(w', from, r) == LogCount(w, from, r)
    decreases w.active + 1 - from
  {
    if from <= w.active {
      CountSame(w, w', from + 1, r);
    }
  }

  lemma {:induction false} CountAppended(w: WalState, rows: seq<Row>, from: nat, r: Row)
    requires !w.nop && w.active in w.segments && from <= w.active
    ensures LogCount(Appended(w, rows), from, r) == LogCount(w, from, r) + multiset(rows)[r]
    decreases w.active - from
  {
    var w' := Appended(w, rows);
    if from == w.active {
      assert LogCount(w', from + 1, r) == 0 && LogCount(w, from + 1, r) == 0;
    } else {
      CountAppended(w, rows, from + 1, r);
    }
  }

  lemma {:induction false} CountPunctuated(w: WalState, from: nat, r: Row)
    requires !w.nop && w.index == w.active + 1 && w.index !in w.segments && from <= w.active + 1
    ensures LogCount(Punctuated(w), from, r) == LogCount(w, from, r)
    decreases w.active + 1 - from
  {
    var w' := Punctuated(w);
    if from == w.active + 1 {
      assert w'.segments[from] == [] && LogCount(w', from + 1, r) == 0;
    } else {
      CountPunctuated(w, from + 1, r);
    }
  }

  // ----- The invariant -----

  ghost predicate CoveredPart(p: Part, w: WalState)
    requires p.MemPart?
  {
    forall r: Row :: Held(p)[r] <= LogCount(w, p.segment, r)
  }

  /** Every row of a memory partition is logged, from the partition's own segment on, at
      least as often as it is held. */
  ghost predicate Covered(parts: seq<Part>, w: WalState) {
    forall i | 0 <= i < |parts| && parts[i].MemPart? :: CoveredPart(parts[i], w)
  }

  ghost predicate LogShape(w: WalState) {
    !w.nop && w.index == w.active + 1 && forall k | k in w.segments :: k <= w.active
  }

  /** Memory partitions come first, and their segments are numbered down from the open one. */
  ghost predicate Staircase(parts: seq<Part>, w: WalState) {
    forall i | 0 <= i < |parts| && parts[i].MemPart? ::
      parts[i].segment + i == w.active && forall j | 0 <= j < i :: parts[j].MemPart?
  }

  ghost predicate OwnSegments(parts: seq<Part>, w: WalState) {
    forall i | 0 <= i < |parts| && parts[i].MemPart? :: parts[i].segment in w.segments
  }

  ghost predicate CoverInv(s: StorageState) {
    && s.parts != [] && s.parts[0].MemPart?
    && LogShape(s.wal) && Staircase(s.parts, s.wal) && OwnSegments(s.parts, s.wal) && Covered(s.parts, s.wal)
  }

  // ----- Batches -----

  lemma HeadKeepsCover(s: StorageState)
    requires CoverInv(s)
    ensures CoverInv(WithNewHead(s))
  {
    hide LogCount, Content;
    var s' := WithNewHead(s);
    assert s'.parts[0] == MemPart(NO_ROWS, s'.wal.active) && forall i | 0 < i < |s'.parts| :: s'.parts[i] == s.parts[i - 1];
    NothingHeld();
    forall i | 0 <= i < |s'.parts| && s'.parts[i].MemPart?
      ensures CoveredPart(s'.parts[i], s'.wal)
    {
      if i > 0 {
        var p := s.parts[i - 1];
        assert CoveredPart(p, s.wal);
        forall r: Row
          ensures Held(p)[r] <= LogCount(s'.wal, p.segment, r)
        {
          CountPunctuated(s.wal, p.segment, r);
        }
      }
    }
  }

  lemma StepKeepsCover(s: StorageState, rows: seq<Row>, i: nat, m: MemState, taken: multiset<Row>)
    requires CoverInv(s) && i < |s.parts| && s.parts[i].MemPart?
    requires Content(m.metrics) == Held(s.parts[i]) + taken && taken <= multiset(rows)
    ensures CoverInv(StorageState(s.parts[i := s.parts[i].(m := m)], Appended(s.wal, rows)))
  {
    hide Content, LogCount;
    var w, parts := Appended(s.wal, rows), s.parts[i := s.parts[i].(m := m)];
    forall j | 0 <= j < |parts| && parts[j].MemPart?
      ensures CoveredPart(parts[j], w)
    {
      assert CoveredPart(s.parts[j], s.wal);
      forall r: Row
        ensures Held(parts[j])[r] <= LogCount(w, parts[j].segment, r)
      {
        CountAppended(s.wal, rows, parts[j].segment, r);
        assert taken[r] <= multiset(rows)[r];
      }
    }
  }

  lemma {:induction false} CascadeKeepsCover(s: StorageState, rows: seq<Row>, now: int64, i: nat)
    requires CoverInv(s) && AllSound(s.parts) && AllPositive(rows) && now > 0
    ensures Readable(s.parts)
    ensures CoverInv(Cascade(s, rows, now, i).state)
    decreases WRITABLE_PARTITIONS - i
  {
    hide CoverInv, AllSound, AllPositive, Ingested, Outdated, LowerBound, Appended, Readable, Content;
    SoundSized(s.parts);
    if i < |s.parts| && i < WRITABLE_PARTITIONS && rows != [] && s.parts[i].MemPart? {
      var s1, taken, late := CascadeStep(s, rows, now, i);
      assert taken <= taken + multiset(late);
      StepKeepsCover(s, rows, i, Ingested(s.parts[i].m, rows, now), taken);
      CascadeKeepsCover(s1, late, now, i + 1);
    }
  }

  lemma BatchKeepsCover(c: Config, s: StorageState, rows: seq<Row>, now: int64)
    requires CoverInv(s) && Healthy(s) && c.duration >= 2 && AllPositive(rows) && now > 0
    ensures Readable(s.parts)
    ensures CoverInv(InsertedRows(s, rows, now, c.duration).state)
  {
    hide CoverInv, AllPositive, Cascade, WithNewHead, Readable, AllSound, ProperRanges, Ordered, OnlyHeadBlank;
    SoundSized(s.parts);
    ActiveHeadIsGood(s, c.duration);
    HeadKeepsCover(s);
    CascadeKeepsCover(WithActiveHead(s, c.duration), rows, now, 0);
  }

  /** A batch is logged once, and the rows too old for the head once more when there is a
      second memory partition to offer them to: so much more often than they are held may
      rows come back at recovery. */
  lemma BatchLogged(s: StorageState, rows: seq<Row>, now: int64, from: nat, r: Row)
    requires Readable(s.parts) && s.parts != [] && s.parts[0].MemPart? && AllSized(s.parts[0].m.metrics) && rows != []
    requires !s.wal.nop && s.wal.active in s.wal.segments && from <= s.wal.active
    ensures var late := Outdated(rows, LowerBound(s.parts[0].m, rows));
            LogCount(Cascade(s, rows, now, 0).state.wal, from, r)
              == LogCount(s.wal, from, r) + multiset(rows)[r] + if |s.parts| > 1 && s.parts[1].MemPart? then multiset(late)[r] else 0
    ensures var late := Outdated(rows, LowerBound(s.parts[0].m, rows));
            var more := if |s.parts| > 1 && s.parts[1].MemPart? then late else [];
            Cascade(s, rows, now, 0).state.wal == s.wal.(segments := s.wal.segments[s.wal.active := s.wal.segments[s.wal.active] + rows + more])
  {
    hide LogCount, Ingested, Outdated, LowerBound, AllSized;
    CountAppended(s.wal, rows, from, r);
    var p := s.parts[0];
    var s1, late := StorageState(s.parts[0 := p.(m := Ingested(p.m, rows, now))], Appended(s.wal, rows)), Outdated(rows, LowerBound(p.m, rows));
    IngestedSized(p.m, rows, now);
    assert Cascade(s, rows, now, 0) == Cascade(s1, late, now, 1);
    if late != [] && |s.parts| > 1 && s.parts[1].MemPart? {
      var p1 := s.parts[1];
      assert s1.parts[1] == p1 && AllSized(p1.m.metrics);
      IngestedSized(p1.m, late, now);
      CountAppended(s1.wal, late, from, r);
      AppendedTwice(s.wal, rows, late);
    } else {
      AppendedOnce(s.wal, rows);
    }
  }

  lemma AppendedOnce(w: WalState, rows: seq<Row>)
    requires !w.nop && w.active in w.segments
    ensures Appended(w, rows) == w.(segments := w.segments[w.active := w.segments[w.active] + rows + []])
  {
    assert w.segments[w.active] + rows + [] == w.segments[w.active] + rows;
  }

  lemma AppendedTwice(w: WalState, rows: seq<Row>, late: seq<Row>)
    requires !w.nop && w.active in w.segments
    ensures Appended(Appended(w, rows), late) == w.(segments := w.segments[w.active := w.segments[w.active] + rows + late])
  {
  }

  // ----- What a flush pass removes -----

  function Taken(ks: seq<nat>, n: nat): seq<nat> {
    if n <= |ks| then ks[..n] else ks
  }

  function Without(w: WalState, ks: seq<nat>): WalState {
    w.(segments := map k | k in w.segments && k !in ks :: w.segments[k])
  }

  lemma WithoutNone(w: WalState)
    ensures Without(w, []) == w
  {
    assert (map k | k in w.segments && k !in [] :: w.segments[k]) == w.segments;
  }

  lemma WithoutCons(w: WalState, k: nat, ks: seq<nat>)
    ensures Without(w, [k] + ks) == Without(w.(segments := w.segments - {k}), ks)
  {
  }

  /** On range-ordered partitions a sweep removes exactly the first listed files, one for
      each memory partition it flushes. */
  lemma {:induction false} SweepUnlists(kept: seq<Part>, rest: seq<Part>, wal: WalState, outs: seq<FlushOutcome>, ok: bool, final: StorageState, ks: seq<nat>)
    requires Sweepable(kept, rest) && Swept(kept, rest, wal, false, outs, ok, final)
    requires !wal.nop && Listing(wal.segments.Keys, ks)
    ensures final.wal == Without(wal, Taken(ks, MemCount(rest)))
    decreases |rest|
  {
    hide Sound, Faithful, FlushedAs, Shortened, Sweepable, FirstStart, Listing, Without;
    if rest == [] {
      WithoutNone(wal);
    } else {
      var p, later := rest[0], rest[1..];
      assert rest == [p] + later;
      GoodSplit(kept, p, later);
      if p.DiskPart? {
        SweepUnlists(kept + [p], later, wal, outs, ok, final, ks);
      } else {
        var o := outs[0];
        var q, p' := DiskPart(o.disk), p.(m := o.sorted);
        FlushedIsFaithful(p.m, o);
        SameRange(p.m, o);
        FoundSorted(kept, p, p');
        GoodReplace(kept, p, q, later);
        assert WithFirst(kept + [p'], p.MinT(), q) == kept + [q];
        if wal.segments == map[] {
          assert wal.segments.Keys == {};
          ListingEmpty(ks);
          WithoutNone(wal);
        } else {
          var wal' :| Shortened(wal, wal') && Swept(kept + [q], later, wal', false, outs[1..], ok, final);
          ShortenListed(wal, wal', ks);
          SweepUnlists(kept + [q], later, wal', outs[1..], ok, final, ks[1..]);
          TakenCons(ks, MemCount(later));
          WithoutCons(wal, ks[0], Taken(ks[1..], MemCount(later)));
        }
      }
    }
  }

  lemma ListingEmpty(ks: seq<nat>)
    requires Listing({}, ks)
    ensures ks == []
  {
    ListingSize({}, ks);
  }

  lemma TakenCons(ks: seq<nat>, n: nat)
    requires ks != []
    ensures Taken(ks, n + 1) == [ks[0]] + Taken(ks[1..], n)
  {
  }

  // ----- When a pass keeps the cover -----

  /** The memory partitions that a pass flushes. */
  function Flushes(s: StorageState): nat {
    MemCount(s.parts[Front(s.parts)..])
  }

  /** Among the files listed first, one for each partition to flush, there is no segment
      of a writable memory partition. */
  ghost predicate SparedBy(s: StorageState, ks: seq<nat>) {
    forall i | 0 <= i < Front(s.parts) && s.parts[i].MemPart? :: s.parts[i].segment !in Taken(ks, Flushes(s))
  }

  /** The pass as the coverage sees it. */
  lemma PassView(s: StorageState, outs: seq<FlushOutcome>, ok: bool, s': StorageState, ks: seq<nat>)
    requires CoverInv(s) && Healthy(s) && FlushPass(s, false, outs, ok, s') && Listing(s.wal.segments.Keys, ks)
    ensures ok && s'.wal == Without(s.wal, Taken(ks, Flushes(s)))
    ensures var f := Front(s.parts);
            |s'.parts| >= f && s'.parts[..f] == s.parts[..f] && AllOnDisk(s'.parts[f..])
  {
    hide Good, AllFaithful, Swept, Sweepable, Covered, Listing, Without, FlushedOrKept, MemCount, AllOnDisk;
    var f := Front(s.parts);
    var kept, rest := s.parts[..f], s.parts[f..];
    GoodIsSweepable(s, f);
    SweepSwaps(kept, rest, s.wal, outs, ok, s');
    SweepUnlists(kept, rest, s.wal, outs, ok, s', ks);
    EnoughSegments(s, f);
  }

  ghost function OwnedBy(parts: seq<Part>): set<nat> {
    set i | 0 <= i < |parts| && parts[i].MemPart? :: parts[i].segment
  }

  /** Each memory partition has a segment of its own. */
  lemma EnoughSegments(s: StorageState, f: nat)
    requires CoverInv(s) && f <= |s.parts|
    ensures MemCount(s.parts[f..]) <= |s.wal.segments|
  {
    hide Covered;
    OwnedCount(s.parts, f, s.wal);
    SubsetSize(OwnedBy(s.parts[f..]), s.wal.segments.Keys);
  }

  lemma {:induction false} OwnedCount(parts: seq<Part>, f: nat, w: WalState)
    requires Staircase(parts, w) && OwnSegments(parts, w) && f <= |parts|
    ensures |OwnedBy(parts[f..])| == MemCount(parts[f..]) && OwnedBy(parts[f..]) <= w.segments.Keys
    ensures forall k | k in OwnedBy(parts[f..]) :: k + f <= w.active
    decreases |parts| - f
  {
    if f == |parts| {
      assert OwnedBy(parts[f..]) == {};
    } else {
      var p, rest, later := parts[f], parts[f..], parts[f + 1..];
      OwnedCount(parts, f + 1, w);
      assert rest == [p] + later;
      OwnedCons(p, later);
    }
  }

  lemma OwnedCons(p: Part, later: seq<Part>)
    ensures OwnedBy([p] + later) == OwnedBy(later) + if p.MemPart? then {p.segment} else {}
    ensures MemCount([p] + later) == MemCount(later) + if p.MemPart? then 1 else 0
  {
    var rest := [p] + later;
    assert rest[1..] == later && forall i | 0 <= i < |later| :: rest[i + 1] == later[i];
    forall k | k in OwnedBy(later)
      ensures k in OwnedBy(rest)
    {
      var i :| 0 <= i < |later| && later[i].MemPart? && later[i].segment == k;
      assert rest[i + 1].segment == k;
    }
    if p.MemPart? {
      assert rest[0].segment == p.segment;
    }
  }

  lemma SubsetSize(a: set<nat>, b: set<nat>)
    requires a <= b
    ensures |a| <= |b|
  {
    assert b == a + (b - a);
  }

  /** A pass keeps the log over memory if and only if it spares the segments of the
      writable partitions. */
  lemma PassKeepsCoverIff(s: StorageState, outs: seq<FlushOutcome>, ok: bool, s': StorageState, ks: seq<nat>)
    requires CoverInv(s) && Healthy(s) && FlushPass(s, false, outs, ok, s') && Listing(s.wal.segments.Keys, ks)
    ensures CoverInv(s') <==> SparedBy(s, ks)
  {
    hide Healthy, FlushPass, Listing, Covered;
    PassView(s, outs, ok, s', ks);
    var f, gone := Front(s.parts), Taken(ks, Flushes(s));
    assert forall i | 0 <= i < f :: s'.parts[i] == s'.parts[..f][i] == s.parts[i];
    assert forall i | f <= i < |s'.parts| :: s'.parts[i] == s'.parts[f..][i - f];
    if SparedBy(s, ks) {
      CoveredAfter(s, s', gone);
    }
  }

  lemma CoveredAfter(s: StorageState, s': StorageState, gone: seq<nat>)
    requires CoverInv(s) && s'.wal == Without(s.wal, gone) && |s'.parts| >= Front(s.parts)
    requires forall i | 0 <= i < Front(s.parts) :: s'.parts[i] == s.parts[i]
    requires forall i | Front(s.parts) <= i < |s'.parts| :: s'.parts[i].DiskPart?
    requires forall i | 0 <= i < Front(s.parts) && s.parts[i].MemPart? :: s.parts[i].segment !in gone
    ensures Covered(s'.parts, s'.wal)
  {
    hide LogCount, Held;
    forall i | 0 <= i < |s'.parts| && s'.parts[i].MemPart?
      ensures CoveredPart(s'.parts[i], s'.wal)
    {
      var p := s.parts[i];
      assert CoveredPart(p, s.wal);
      forall k | p.segment <= k <= s.wal.active
        ensures k !in gone
      {
        var j := s.wal.active - k;
        assert s.parts[j].MemPart? && s.parts[j].segment == k;
      }
      forall r: Row
        ensures Held(p)[r] <= LogCount(s'.wal, p.segment, r)
      {
        CountSame(s.wal, s'.wal, p.segment, r);
      }
    }
  }

  /** The head's rows stay logged if and only if the open segment is spared; otherwise none
      of them is logged any more. */
  lemma HeadLoggedIff(s: StorageState, outs: seq<FlushOutcome>, ok: bool, s': StorageState, ks: seq<nat>)
    requires CoverInv(s) && Healthy(s) && FlushPass(s, false, outs, ok, s') && Listing(s.wal.segments.Keys, ks)
    requires !s.parts[0].Blank()
    ensures s'.parts != [] && s'.parts[0] == s.parts[0] && Held(s.parts[0]) != multiset{}
    ensures CoveredPart(s.parts[0], s'.wal) <==> s.wal.active !in Taken(ks, Flushes(s))
    ensures s.wal.active in Taken(ks, Flushes(s)) ==> forall r: Row :: LogCount(s'.wal, s.parts[0].segment, r) == 0
  {
    hide Good, AllFaithful, FlushPass, Listing, Content, MemCount;
    PassView(s, outs, ok, s', ks);
    var head, gone := s.parts[0], Taken(ks, Flushes(s));
    assert s'.parts[0] == s'.parts[..Front(s.parts)][0] == head;
    assert head.segment == s.wal.active && CoveredPart(head, s.wal);
    HeadIsHeld(s);
    if s.wal.active in gone {
      forall r: Row
        ensures LogCount(s'.wal, head.segment, r) == 0
      {
        assert LogCount(s'.wal, head.segment + 1, r) == 0;
      }
      var r :| r in Held(head);
    } else {
      forall r: Row
        ensures Held(head)[r] <= LogCount(s'.wal, head.segment, r)
      {
        CountSame(s.wal, s'.wal, head.segment, r);
      }
    }
  }

  lemma HeadIsHeld(s: StorageState)
    requires Good(s) && s.parts != [] && s.parts[0].MemPart? && !s.parts[0].Blank()
    ensures Held(s.parts[0]) != multiset{}
  {
    hide Content, AllConsistent, AllSized, MaxHeld;
    assert Sound(s.parts[0].m);
  }

  // ----- Names of one length, and of two -----

  ghost predicate SameLength(keys: set<nat>) {
    forall i, j | i in keys && j in keys :: |Decimal(i)| == |Decimal(j)|
  }

  /** With names of one length a pass spares the writable partitions. */
  lemma SameLengthSpares(s: StorageState, ks: seq<nat>)
    requires CoverInv(s) && Listing(s.wal.segments.Keys, ks) && SameLength(s.wal.segments.Keys)
    ensures SparedBy(s, ks)
  {
    hide Covered, Decimal, LexLess;
    var f, n := Front(s.parts), Flushes(s);
    OwnedCount(s.parts, f, s.wal);
    forall i | 0 <= i < f && s.parts[i].MemPart?
      ensures s.parts[i].segment !in Taken(ks, n)
    {
      var k := s.parts[i].segment;
      if k in Taken(ks, n) {
        var j :| 0 <= j < |Taken(ks, n)| && Taken(ks, n)[j] == k;
        ListedBefore(s.wal.segments.Keys, ks, j, OwnedBy(s.parts[f..]));
        assert false;
      }
    }
  }

  /** At most j segments are smaller than the one listed at place j. */
  lemma ListedBefore(keys: set<nat>, ks: seq<nat>, j: nat, smaller: set<nat>)
    requires Listing(keys, ks) && SameLength(keys) && j < |ks|
    requires smaller <= keys && forall k | k in smaller :: k < ks[j]
    ensures |smaller| <= j
  {
    hide Decimal, LexLess;
    var before := set i | 0 <= i < j :: ks[i];
    forall k | k in smaller
      ensures k in before
    {
      assert k in ks;
      var i :| 0 <= i < |ks| && ks[i] == k;
      assert ks[j] in ks;
      SameLengthOrder(ks[i], ks[j]);
      SameLengthOrder(ks[j], ks[i]);
    }
    SubsetSize(smaller, before);
    FirstPlaces(ks, j);
  }

  lemma {:induction false} FirstPlaces(ks: seq<nat>, j: nat)
    requires j <= |ks|
    ensures |set i | 0 <= i < j :: ks[i]| <= j
  {
    if j > 0 {
      FirstPlaces(ks, j - 1);
      assert (set i | 0 <= i < j :: ks[i]) == (set i | 0 <= i < j - 1 :: ks[i]) + {ks[j - 1]};
    }
  }

  /** When the open segment is the first to need another digit, a pass with anything to
      flush removes it before all others: none of the head's rows is logged any more. */
  lemma NameOrderBreaksCover(s: StorageState, lo: nat, outs: seq<FlushOutcome>, ok: bool, s': StorageState)
    requires CoverInv(s) && Healthy(s) && !s.parts[0].Blank() && Flushes(s) > 0
    requires 0 < lo && !PowerOfTen(lo) && s.wal.active == Pow10(|Decimal(lo)|)
    requires forall k :: k in s.wal.segments <==> lo <= k <= s.wal.active
    requires FlushPass(s, false, outs, ok, s')
    ensures s'.parts != [] && s'.parts[0] == s.parts[0] && Held(s.parts[0]) != multiset{}
    ensures forall r: Row :: LogCount(s'.wal, s.parts[0].segment, r) == 0
  {
    hide CoverInv, Healthy, FlushPass, Decimal, Pow10, PowerOfTen, LexLess, FirstByName, MemCount;
    var ks := ListingExists(s.wal.segments.Keys);
    NewestListedFirst(s.wal.segments.Keys, lo, s.wal.active);
    assert s.wal.active in ks;
    ListedFirst(s.wal.segments.Keys, ks);
    FirstByNameUnique(s.wal.segments.Keys, ks[0], s.wal.active);
    assert Taken(ks, Flushes(s))[0] == ks[0];
    HeadLoggedIff(s, outs, ok, s', ks);
  }

  // ----- Queries -----

  lemma QueryKeepsCover(s: StorageState, name: Name, s': StorageState)
    requires CoverInv(s) && OnlyTouched(s.parts, s'.parts, name) && s'.wal == s.wal
    ensures CoverInv(s')
  {
    hide Content, LogCount;
    forall i | 0 <= i < |s.parts|
      ensures s'.parts[i].MemPart? == s.parts[i].MemPart? && Held(s'.parts[i]) == Held(s.parts[i])
      ensures s.parts[i].MemPart? ==> s'.parts[i].segment == s.parts[i].segment
    {
      if s.parts[i].MemPart? {
        TouchKeepsContent(s.parts[i].m, name);
      }
    }
    forall i | 0 <= i < |s'.parts| && s'.parts[i].MemPart?
      ensures CoveredPart(s'.parts[i], s'.wal)
    {
      assert CoveredPart(s.parts[i], s.wal);
    }
  }

  // ----- Expiry -----

  lemma {:induction false} ExpireKeepsCover(kept: seq<Part>, rest: seq<Part>, w: WalState, now: int)
    requires CoverInv(StorageState(kept + rest, w)) && kept != []
    ensures CoverInv(StorageState(kept + Unexpired(rest, now), w))
    decreases |rest|
  {
    hide CoverInv, Unexpired, ExpiredOf, Expired;
    if rest == [] {
      NoneExpired(kept, now);
    } else {
      var p, later := rest[0], rest[1..];
      assert rest == [p] + later;
      ExpiredCons(kept, p, later, now);
      if Expired(p, now) {
        OnDisk(p, now);
        CoverWithout(kept, p, later, w);
        ExpireKeepsCover(kept, later, w, now);
      } else {
        ExpireKeepsCover(kept + [p], later, w, now);
      }
    }
  }

  lemma OnDisk(p: Part, now: int)
    requires Expired(p, now)
    ensures p.DiskPart?
  {
  }

  /** Behind a disk partition there is none in memory. */
  lemma CoverWithout(kept: seq<Part>, p: Part, later: seq<Part>, w: WalState)
    requires CoverInv(StorageState(kept + ([p] + later), w)) && p.DiskPart? && kept != []
    ensures CoverInv(StorageState(kept + later, w))
  {
    hide CoveredPart;
    var parts, parts' := kept + ([p] + later), kept + later;
    assert parts[|kept|] == p && forall i | 0 <= i < |parts'| :: parts'[i] == parts[if i < |kept| then i else i + 1];
    forall i | |kept| <= i < |parts'|
      ensures parts'[i].DiskPart?
    {
      DiskBehind(parts, w, |kept|, i + 1);
    }
  }

  lemma DiskBehind(parts: seq<Part>, w: WalState, i: nat, j: nat)
    requires Staircase(parts, w) && i < j < |parts| && parts[i].DiskPart?
    ensures parts[j].DiskPart?
  {
  }

  // ----- Runs -----

  lemma StartCovered(c: Config)
    requires !c.inMemory && c.logged
    ensures CoverInv(Start(c))
  {
    hide Content;
    NothingHeld();
  }

  /** The directory can be listed so that a pass spares the writable partitions. */
  ghost predicate Spared(s: StorageState) {
    exists ks :: Listing(s.wal.segments.Keys, ks) && SparedBy(s, ks)
  }

  lemma EventKeepsCover(c: Config, s: StorageState, e: Event, s': StorageState)
    requires CoverInv(s) && Healthy(s) && c.duration >= 2 && !c.inMemory && Admissible(c, s, e) && Transition(c, s, e, s')
    ensures CoverInv(s') <==> (e.Pass? ==> Spared(s))
  {
    hide Healthy, CoverInv, FlushPass, InsertedRows, Readable, Newer, AllPositive, OnlyTouched, Purged, Listing, SparedBy;
    match e {
      case Batch(rows, now) =>
        BatchKeepsCover(c, s, rows, now);
      case Pass(outs, ok) =>
        var ks := ListingExists(s.wal.segments.Keys);
        PassKeepsCoverIff(s, outs, ok, s', ks);
        if Spared(s) {
          var ks' :| Listing(s.wal.segments.Keys, ks') && SparedBy(s, ks');
          PassKeepsCoverIff(s, outs, ok, s', ks');
        }
      case Query(name) =>
        QueryKeepsCover(s, name, s');
      case Expire(at) =>
        ExpireKeepsHealthy(s, at);
        ExpireBehindHead(s, at);
    }
  }

  lemma ExpireBehindHead(s: StorageState, at: int)
    requires CoverInv(s)
    ensures CoverInv(s.(parts := Unexpired(s.parts, at)))
  {
    hide Covered, LogShape, Staircase, OwnSegments, Unexpired, ExpiredOf;
    var head, tail := s.parts[0], s.parts[1..];
    assert s.parts == [head] + tail;
    ExpiredCons([], head, tail, at);
    ExpireKeepsCover([head], tail, s.wal, at);
  }

  /** In every admissible run with a log, the log covers memory in all states if and only if
      every flush pass spares the segments of the writable partitions. */
  lemma {:induction false} RunStaysCoveredIff(c: Config, states: seq<StorageState>, events: seq<Event>, n: nat)
    requires Run(c, states, events) && c.duration >= 2 && !c.inMemory && c.logged && n <= |events|
    requires forall i | 0 <= i < |events| :: Admissible(c, states[i], events[i])
    ensures (forall j | 0 <= j <= n :: CoverInv(states[j])) <==> forall i | 0 <= i < n && events[i].Pass? :: Spared(states[i])
  {
    hide Healthy, CoverInv, Admissible, Transition, Spared;
    if n == 0 {
      StartCovered(c);
    } else {
      RunStaysCoveredIff(c, states, events, n - 1);
      RunStaysHealthy(c, states, events, n - 1);
      assert Transition(c, states[n - 1], events[n - 1], states[n - 1 + 1]);
      if CoverInv(states[n - 1]) {
        EventKeepsCover(c, states[n - 1], events[n - 1], states[n]);
      }
    }
  }

  /** In particular as long as every pass meets segment names of one length. */
  lemma {:induction false} SameLengthKeepsCover(c: Config, states: seq<StorageState>, events: seq<Event>, n: nat)
    requires Run(c, states, events) && c.duration >= 2 && !c.inMemory && c.logged && n <= |events|
    requires forall i | 0 <= i < |events| :: Admissible(c, states[i], events[i])
    requires forall i | 0 <= i < n && events[i].Pass? :: SameLength(states[i].wal.segments.Keys)
    ensures CoverInv(states[n]) && forall i | 0 <= i < n && events[i].Pass? :: Spared(states[i])
  {
    hide Healthy, CoverInv, Admissible, Transition, Spared, SameLength;
    RunStaysCoveredIff(c, states, events, n);
    if n > 0 {
      SameLengthKeepsCover(c, states, events, n - 1);
      if events[n - 1].Pass? {
        SpareIt(states[n - 1]);
      }
    }
  }

  lemma SpareIt(s: StorageState)
    requires CoverInv(s) && SameLength(s.wal.segments.Keys)
    ensures Spared(s)
  {
    hide CoverInv, SameLength, SparedBy, Listing;
    var ks := ListingExists(s.wal.segments.Keys);
    SameLengthSpares(s, ks);
  }
}
