/** The log as bytes on disk: what a recovery of the surviving segments brings back. */
module WalRecovery {
  import opened Words
  import opened Rows
  import opened WalSegments
  import opened StorageModel
  import opened StorageRuns
  import opened WalCoverage
  import WalRecord

  function Groups(w: WalState, ks: seq<nat>): (gs: seq<seq<Row>>)
    requires forall k | k in ks :: k in w.segments
    ensures |gs| == |ks| && forall i | 0 <= i < |ks| :: gs[i] == w.segments[ks[i]]
  {
    seq(|ks|, i requires 0 <= i < |ks| => w.segments[ks[i]])
  }

  ghost predicate AllLoggable(w: WalState) {
    forall k | k in w.segments :: WalRecord.AllLoggable(w.segments[k])
  }

  /** A listing reads every segment once. */
  lemma {:induction false} FlattenCounts(w: WalState, ks: seq<nat>, from: nat, r: Row)
    requires Listing(w.segments.Keys, ks)
    ensures forall k | k in ks :: k in w.segments
    ensures LogCount(w, from, r) <= multiset(WalRecord.Flatten(Groups(w, ks)))[r]
    decreases |ks|
  {
    hide Listing, LogCount;
    ListingHolds(w, ks);
    if ks == [] {
      ListingSize(w.segments.Keys, ks);
      CountEmpty(w, from, r);
    } else {
      var k, w' := ks[0], w.(segments := w.segments - {ks[0]});
      assert w'.segments.Keys == w.segments.Keys - {k};
      ListedFirst(w.segments.Keys, ks);
      FlattenCounts(w', ks[1..], from, r);
      CountWithout(w, k, from, r);
      assert Groups(w, ks)[1..] == Groups(w', ks[1..]);
    }
  }

  lemma {:induction false} CountEmpty(w: WalState, from: nat, r: Row)
    requires |w.segments.Keys| == 0
    ensures LogCount(w, from, r) == 0
    decreases w.active + 1 - from
  {
    if from <= w.active {
      CountEmpty(w, from + 1, r);
    }
  }

  lemma {:induction false} CountWithout(w: WalState, k: nat, from: nat, r: Row)
    requires k in w.segments
    ensures LogCount(w, from, r) <= LogCount(w.(segments := w.segments - {k}), from, r) + if from <= k then multiset(w.segments[k])[r] else 0
    decreases w.active + 1 - from
  {
    if from <= w.active {
      CountWithout(w, k, from + 1, r);
    }
  }

  /** Uncut segments come back whole. */
  lemma {:induction false} RecoverLog(gs: seq<seq<Row>>)
    requires forall i | 0 <= i < |gs| :: WalRecord.AllLoggable(gs[i])
    ensures WalRecord.ReadLog(WalRecord.Segments(gs)) == WalRecord.Recovery(WalRecord.Flatten(gs), true)
    decreases |gs|
  {
    hide WalRecord.ReadSegment, WalRecord.LogBytes;
    if gs != [] {
      WalRecord.SegmentRoundTrip(gs[0]);
      WalRecord.ReadLogCons(WalRecord.LogBytes(gs[0]), WalRecord.Segments(gs[1..]));
      RecoverLog(gs[1..]);
    }
  }

  /** While the log covers memory, recovery brings back every row held in memory, at least
      as often as it is held. */
  lemma CoveredRecovers(s: StorageState, ks: seq<nat>, i: nat, r: Row)
    requires CoverInv(s) && Listing(s.wal.segments.Keys, ks) && AllLoggable(s.wal)
    requires i < |s.parts| && s.parts[i].MemPart?
    ensures forall k | k in ks :: k in s.wal.segments
    ensures var log := WalRecord.ReadLog(WalRecord.Segments(Groups(s.wal, ks)));
            log.ok && Held(s.parts[i])[r] <= multiset(log.rows)[r]
  {
    hide Held, OwnSegments, LogShape, Staircase, LogCount, Listing, WalRecord.ReadLog, WalRecord.Segments, WalRecord.Flatten, WalRecord.AllLoggable;
    ListingHolds(s.wal, ks);
    GroupsLoggable(s.wal, ks);
    RecoverLog(Groups(s.wal, ks));
    assert CoveredPart(s.parts[i], s.wal);
    FlattenCounts(s.wal, ks, s.parts[i].segment, r);
  }

  /** So in every run whose flush passes spare the writable partitions' segments, at any moment. */
  lemma RunRecovers(c: Config, states: seq<StorageState>, events: seq<Event>, n: nat, ks: seq<nat>, i: nat, r: Row)
    requires Run(c, states, events) && c.duration >= 2 && !c.inMemory && c.logged && n <= |events|
    requires forall i | 0 <= i < |events| :: Admissible(c, states[i], events[i])
    requires forall i | 0 <= i < n && events[i].Pass? :: Spared(states[i])
    requires Listing(states[n].wal.segments.Keys, ks) && AllLoggable(states[n].wal)
    requires i < |states[n].parts| && states[n].parts[i].MemPart?
    ensures forall k | k in ks :: k in states[n].wal.segments
    ensures var log := WalRecord.ReadLog(WalRecord.Segments(Groups(states[n].wal, ks)));
            log.ok && Held(states[n].parts[i])[r] <= multiset(log.rows)[r]
  {
    hide Transition, Admissible, Spared, CoverInv, Listing, AllLoggable, Held;
    RunStaysCoveredIff(c, states, events, n);
    CoveredRecovers(states[n], ks, i, r);
  }

  lemma ListingHolds(w: WalState, ks: seq<nat>)
    requires Listing(w.segments.Keys, ks)
    ensures forall k | k in ks :: k in w.segments
  {
  }

  lemma GroupsLoggable(w: WalState, ks: seq<nat>)
    requires AllLoggable(w) && forall k | k in ks :: k in w.segments
    ensures forall i | 0 <= i < |ks| :: WalRecord.AllLoggable(Groups(w, ks)[i])
  {
    hide WalRecord.AllLoggable;
  }

  // ----- A torn open segment -----

  /** The files when the open segment, listed at place i, has been cut to `cut` bytes. */
  function Torn(w: WalState, ks: seq<nat>, i: nat, cut: nat): seq<seq<uint8>>
    requires (forall k | k in ks :: k in w.segments) && i < |ks| && cut <= |WalRecord.LogBytes(w.segments[ks[i]])|
  {
    WalRecord.Segments(Groups(w, ks[..i])) + [WalRecord.LogBytes(w.segments[ks[i]])[..cut]] + WalRecord.Segments(Groups(w, ks[i + 1..]))
  }

  /** Cut inside a record, it costs its last rows and every segment listed behind it. */
  lemma TornOpenCosts(w: WalState, ks: seq<nat>, i: nat, cut: nat)
    requires Listing(w.segments.Keys, ks) && AllLoggable(w) && i < |ks| && cut <= |WalRecord.LogBytes(w.segments[ks[i]])|
    ensures forall k | k in ks :: k in w.segments
    ensures var open := w.segments[ks[i]];
            var n := WalRecord.WholeRecords(open, cut);
            var later := if cut != |WalRecord.LogBytes(open[..n])| then [] else WalRecord.Flatten(Groups(w, ks[i + 1..]));
            WalRecord.ReadLog(Torn(w, ks, i, cut)) == WalRecord.Recovery(WalRecord.Flatten(Groups(w, ks[..i])) + open[..n] + later, true)
  {
    hide Listing, WalRecord.ReadLog, WalRecord.Segments, WalRecord.Flatten, WalRecord.AllLoggable, WalRecord.WholeRecords, WalRecord.LogBytes;
    ListingHolds(w, ks);
    var before, after := Groups(w, ks[..i]), Groups(w, ks[i + 1..]);
    GroupsLoggable(w, ks[..i]);
    GroupsLoggable(w, ks[i + 1..]);
    RecoverLog(after);
    WalRecord.RecoverTornLog(before, w.segments[ks[i]], cut, WalRecord.Segments(after));
  }

  /** With names of one length the open segment is listed last, so that only its own last
      rows are at stake. */
  lemma OpenListedLast(w: WalState, ks: seq<nat>)
    requires LogShape(w) && w.active in w.segments && Listing(w.segments.Keys, ks) && SameLength(w.segments.Keys)
    ensures ks != [] && ks[|ks| - 1] == w.active
  {
    hide Decimal, LexLess;
    assert w.active in ks;
    var i :| 0 <= i < |ks| && ks[i] == w.active;
    var last := ks[|ks| - 1];
    assert last in w.segments;
    if i < |ks| - 1 {
      SameLengthOrder(last, w.active);
    }
  }
}
