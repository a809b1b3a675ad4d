/** removeExpiredPartitions: the expired partitions are listed first and then
    removed one by one, each found again by its lower bound. */
module StorageExpiry {
  import opened StorageModel
  import opened StorageFlush
  import opened StorageTwins

  /** Memory partitions never expire. */
  predicate Expired(p: Part, now: int) {
    p.DiskPart? && p.d.Expired(now)
  }

  function ExpiredOf(parts: seq<Part>, now: int): seq<Part> {
    if parts == [] then [] else (if Expired(parts[0], now) then [parts[0]] else []) + ExpiredOf(parts[1..], now)
  }

  function Unexpired(parts: seq<Part>, now: int): seq<Part> {
    if parts == [] then [] else (if Expired(parts[0], now) then [] else [parts[0]]) + Unexpired(parts[1..], now)
  }

  /** Expired are exactly the disk partitions whose file is older than its retention. */
  lemma {:induction false} ExpiredMembers(parts: seq<Part>, now: int, p: Part)
    ensures p in ExpiredOf(parts, now) <==> p in parts && p.DiskPart? && now - p.d.meta.createdAt > p.d.retention
    ensures p in Unexpired(parts, now) <==> p in parts && (p.DiskPart? ==> now - p.d.meta.createdAt <= p.d.retention)
    decreases |parts|
  {
    if parts != [] {
      ExpiredMembers(parts[1..], now, p);
      assert parts == [parts[0]] + parts[1..];
    }
  }

  datatype Purge = Purge(parts: seq<Part>, ok: bool)

  /** The removals in order; one that finds nothing ends them with an error. */
  function RemovedAll(parts: seq<Part>, victims: seq<Part>): Purge
    decreases |victims|
  {
    if victims == [] then Purge(parts, true)
    else if FirstStart(parts, victims[0].MinT()) == |parts| then Purge(parts, false)
    else RemovedAll(WithoutFirst(parts, victims[0].MinT()), victims[1..])
  }

  function Purged(parts: seq<Part>, now: int): Purge {
    RemovedAll(parts, ExpiredOf(parts, now))
  }

  // ----- Exactly when the right partitions go -----

  /** No expired partition starts where a live one before it starts. */
  ghost predicate NoLiveTwin(kept: seq<Part>, rest: seq<Part>, now: int) {
    && (forall j | 0 <= j < |rest| && Expired(rest[j], now) :: NewStart(kept, rest[j]))
    && (forall i, j | 0 <= i < j < |rest| && !Expired(rest[i], now) && Expired(rest[j], now) :: rest[i].MinT() != rest[j].MinT())
  }

  lemma NoLiveTwinCons(kept: seq<Part>, p: Part, later: seq<Part>, now: int)
    ensures NoLiveTwin(kept, [p] + later, now)
       <==> if Expired(p, now) then NewStart(kept, p) && NoLiveTwin(kept, later, now) else NoLiveTwin(kept + [p], later, now)
  {
    hide NoLiveTwin;
    if NoLiveTwin(kept, [p] + later, now) {
      NoLiveTwinTail(kept, p, later, now);
    }
    if if Expired(p, now) then NewStart(kept, p) && NoLiveTwin(kept, later, now) else NoLiveTwin(kept + [p], later, now) {
      NoLiveTwinJoin(kept, p, later, now);
    }
  }

  lemma NoLiveTwinTail(kept: seq<Part>, p: Part, later: seq<Part>, now: int)
    requires NoLiveTwin(kept, [p] + later, now)
    ensures if Expired(p, now) then NewStart(kept, p) && NoLiveTwin(kept, later, now) else NoLiveTwin(kept + [p], later, now)
  {
    hide Expired, Part.MinT;
    var rest := [p] + later;
    assert rest[0] == p && forall j | 0 <= j < |later| :: later[j] == rest[j + 1];
    forall j | 0 <= j < |later| && Expired(later[j], now)
      ensures NewStart(if Expired(p, now) then kept else kept + [p], later[j])
    {
      assert NewStart(kept, rest[j + 1]);
      assert !Expired(p, now) ==> rest[0].MinT() != rest[j + 1].MinT();
    }
  }

  lemma NoLiveTwinJoin(kept: seq<Part>, p: Part, later: seq<Part>, now: int)
    requires if Expired(p, now) then NewStart(kept, p) && NoLiveTwin(kept, later, now) else NoLiveTwin(kept + [p], later, now)
    ensures NoLiveTwin(kept, [p] + later, now)
  {
    hide Expired, NewStart, Part.MinT;
    var rest, kept' := [p] + later, if Expired(p, now) then kept else kept + [p];
    forall j | 0 <= j < |rest| && Expired(rest[j], now)
      ensures NewStart(kept, rest[j])
    {
      if j > 0 {
        StillNew(kept, kept', later[j - 1]);
      }
    }
    forall i, j | 0 <= i < j < |rest| && !Expired(rest[i], now) && Expired(rest[j], now)
      ensures rest[i].MinT() != rest[j].MinT()
    {
      assert rest[j] == later[j - 1];
      if i == 0 {
        NewAmong(kept', |kept|, later[j - 1]);
      } else {
        assert rest[i] == later[i - 1];
      }
    }
  }

  /** Without live twins exactly the expired partitions go. */
  lemma {:induction false} RemovesExpired(kept: seq<Part>, rest: seq<Part>, now: int)
    requires NoLiveTwin(kept, rest, now)
    ensures RemovedAll(kept + rest, ExpiredOf(rest, now)) == Purge(kept + Unexpired(rest, now), true)
    decreases |rest|
  {
    hide NoLiveTwin, NewStart, Expired, RemovedAll, ExpiredOf, Unexpired;
    if rest == [] {
      NoneExpired(kept, now);
    } else {
      var p, later := rest[0], rest[1..];
      assert rest == [p] + later;
      NoLiveTwinCons(kept, p, later, now);
      ExpiredCons(kept, p, later, now);
      if Expired(p, now) {
        RemovesOne(kept, p, later, ExpiredOf(later, now));
        RemovesExpired(kept, later, now);
      } else {
        RemovesExpired(kept + [p], later, now);
      }
    }
  }

  /** Removals bring nothing new. */
  lemma {:induction false} RemovesOnly(parts: seq<Part>, victims: seq<Part>, x: Part)
    requires x !in parts
    ensures x !in RemovedAll(parts, victims).parts
    decreases |victims|
  {
    hide FirstStart;
    if victims != [] && FirstStart(parts, victims[0].MinT()) < |parts| {
      RemovesOnly(WithoutFirst(parts, victims[0].MinT()), victims[1..], x);
    }
  }

  /** With a live twin a live partition is lost. */
  lemma {:induction false} TwinPurgeLoses(kept: seq<Part>, rest: seq<Part>, now: int) returns (x: Part)
    requires Distinct(kept + rest) && !NoLiveTwin(kept, rest, now)
    ensures x in kept + Unexpired(rest, now) && x !in RemovedAll(kept + rest, ExpiredOf(rest, now)).parts
    decreases |rest|
  {
    hide NoLiveTwin, NewStart, Expired, RemovedAll, ExpiredOf, Unexpired, Distinct, WithoutFirst, FirstStart;
    NoneLeft(kept, now);
    var p, later := rest[0], rest[1..];
    assert rest == [p] + later;
    NoLiveTwinCons(kept, p, later, now);
    ExpiredCons(kept, p, later, now);
    DistinctWithout(kept, p, later);
    if Expired(p, now) {
      if NewStart(kept, p) {
        RemovesOne(kept, p, later, ExpiredOf(later, now));
        x := TwinPurgeLoses(kept, later, now);
      } else {
        var k := FindsTwin(kept, p);
        x := kept[k];
        TakenIsGone(kept, p, later, k);
        FoundBefore(kept, p, later, p);
        assert kept + [p] + later == kept + rest;
        RemovesFirst(kept + rest, p, ExpiredOf(later, now));
        RemovesOnly(WithoutFirst(kept + rest, p.MinT()), ExpiredOf(later, now), x);
      }
    } else {
      x := TwinPurgeLoses(kept + [p], later, now);
    }
  }

  lemma NoneLeft(kept: seq<Part>, now: int)
    ensures NoLiveTwin(kept, [], now)
  {
  }

  /** Expiry removes exactly the expired partitions, without an error, if and only if none
      of them starts where an earlier live partition starts. */
  lemma PurgesExpiredIff(parts: seq<Part>, now: int)
    requires Distinct(parts)
    ensures Purged(parts, now) == Purge(Unexpired(parts, now), true) <==> NoLiveTwin([], parts, now)
  {
    hide NoLiveTwin, Distinct, RemovedAll, ExpiredOf, Unexpired;
    assert [] + parts == parts && [] + Unexpired(parts, now) == Unexpired(parts, now);
    if NoLiveTwin([], parts, now) {
      RemovesExpired([], parts, now);
    } else {
      var x := TwinPurgeLoses([], parts, now);
    }
  }

  // ----- Range order -----

  lemma {:induction false} UnexpiredInOrder(kept: seq<Part>, rest: seq<Part>, now: int)
    requires Sweepable(kept, rest)
    ensures NoLiveTwin(kept, rest, now) && Sweepable(kept, Unexpired(rest, now))
    decreases |rest|
  {
    hide Sweepable, ProperRanges, Ordered, AllSound, Expired, ExpiredOf, Unexpired, NoLiveTwin, NewStart, FirstStart;
    if rest == [] {
      NoneExpired(kept, now);
      NoneLeft(kept, now);
    } else {
      var p, later := rest[0], rest[1..];
      assert rest == [p] + later;
      GoodSplit(kept, p, later);
      ExpiredCons(kept, p, later, now);
      NoLiveTwinCons(kept, p, later, now);
      if Expired(p, now) {
        FoundInPlace(kept, p);
        NewIsLast(kept, p);
        GoodDrop(kept, p, later);
        UnexpiredInOrder(kept, later, now);
      } else {
        UnexpiredInOrder(kept + [p], later, now);
        SweepableJoin(kept, p, Unexpired(later, now));
      }
    }
  }

  lemma NoneExpired(kept: seq<Part>, now: int)
    ensures ExpiredOf([], now) == [] && Unexpired([], now) == []
    ensures RemovedAll(kept + [], []) == Purge(kept + [], true) && kept + [] == kept
  {
  }

  lemma ExpiredCons(kept: seq<Part>, p: Part, later: seq<Part>, now: int)
    ensures Expired(p, now) ==>
      ExpiredOf([p] + later, now) == [p] + ExpiredOf(later, now) && Unexpired([p] + later, now) == Unexpired(later, now)
    ensures !Expired(p, now) ==>
      && ExpiredOf([p] + later, now) == ExpiredOf(later, now) && Unexpired([p] + later, now) == [p] + Unexpired(later, now)
      && kept + Unexpired([p] + later, now) == (kept + [p]) + Unexpired(later, now)
      && kept + ([p] + later) == (kept + [p]) + later
  {
    hide Expired;
    assert ([p] + later)[1..] == later;
    assert [] + ExpiredOf(later, now) == ExpiredOf(later, now) && [] + Unexpired(later, now) == Unexpired(later, now);
  }

  lemma RemovesOne(kept: seq<Part>, p: Part, later: seq<Part>, victims: seq<Part>)
    requires NewStart(kept, p)
    ensures RemovedAll(kept + ([p] + later), [p] + victims) == RemovedAll(kept + later, victims)
  {
    hide FirstStart, WithoutFirst, NewStart, RemovedAll;
    NewIsLast(kept, p);
    DropsLast(kept, p);
    FoundBefore(kept, p, later, p);
    assert kept + [p] + later == kept + ([p] + later);
    RemovesFirst(kept + [p] + later, p, victims);
  }

  lemma RemovesFirst(parts: seq<Part>, p: Part, victims: seq<Part>)
    requires FirstStart(parts, p.MinT()) < |parts|
    ensures RemovedAll(parts, [p] + victims) == RemovedAll(WithoutFirst(parts, p.MinT()), victims)
  {
    hide FirstStart, WithoutFirst;
    assert ([p] + victims)[1..] == victims;
  }

  /** When an expired partition starts where a live one starts, the live one goes. */
  lemma TwinStartPurgesLive(a: Part, b: Part, now: int)
    requires !Expired(a, now) && Expired(b, now) && a.MinT() == b.MinT()
    ensures Purged([a, b], now) == Purge([b], true)
  {
    hide Expired;
    ExpiredCons([], b, [], now);
    ExpiredCons([], a, [b], now);
    assert [b] + [] == [b] && [a] + [b] == [a, b] && [b][1..] == [];
    assert FirstStart([a, b], b.MinT()) == 0;
    assert [a, b][..0] + [a, b][1..] == [b];
    assert RemovedAll([b], []) == Purge([b], true);
  }
}
