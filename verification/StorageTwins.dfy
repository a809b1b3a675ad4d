/** Partitions are found again by their lower bound alone: exactly when a flush pass
    takes the right ones, and what it loses otherwise. */
module StorageTwins {
  import opened WalSegments
  import opened Metric
  import opened Disk
  import opened StorageModel
  import opened StorageFlush

  /** x starts where a memory partition of rest starts. */
  ghost predicate HasTwin(x: Part, rest: seq<Part>) {
    exists j :: 0 <= j < |rest| && rest[j].MemPart? && rest[j].MinT() == x.MinT()
  }

  lemma TwinLater(x: Part, p: Part, later: seq<Part>)
    requires HasTwin(x, later)
    ensures HasTwin(x, [p] + later)
  {
    var j :| 0 <= j < |later| && later[j].MemPart? && later[j].MinT() == x.MinT();
    assert ([p] + later)[j + 1] == later[j];
  }

  lemma TwinHere(x: Part, p: Part, later: seq<Part>)
    requires p.MemPart? && p.MinT() == x.MinT()
    ensures HasTwin(x, [p] + later)
  {
    assert ([p] + later)[0] == p;
  }

  /** The search for p ends at an entry nearer the head. */
  lemma FindsTwin(kept: seq<Part>, p: Part) returns (k: nat)
    requires !NewStart(kept, p)
    ensures k < |kept| && k == FirstStart(kept + [p], p.MinT()) && kept[k].MinT() == p.MinT()
  {
    hide FirstStart, NewStart;
    NewIsLast(kept, p);
    k := FirstStart(kept + [p], p.MinT());
    assert (kept + [p])[|kept|] == p;
    assert (kept + [p])[k] == kept[k];
  }

  // ----- The in-memory mode -----

  /** The entries of a list, as objects: no two are the same. */
  ghost predicate Distinct(parts: seq<Part>) {
    forall i, j | 0 <= i < j < |parts| :: parts[i] != parts[j]
  }

  /** A sweep that drops partitions brings no new ones. */
  lemma {:induction false} DropsOnly(kept: seq<Part>, rest: seq<Part>, wal: WalState, outs: seq<FlushOutcome>, ok: bool, final: StorageState, x: Part)
    requires Swept(kept, rest, wal, true, outs, ok, final) && x !in kept && x !in rest
    ensures x !in final.parts
    decreases |rest|
  {
    hide Swept, FirstStart;
    if rest == [] {
      SweptNone(kept, wal, true, outs, ok, final);
      assert kept + [] == kept;
    } else {
      var p, later := rest[0], rest[1..];
      assert rest == [p] + later;
      SweptInMemory(kept, p, later, wal, outs, ok, final);
      DropsOnly(if p.DiskPart? then kept + [p] else WithoutFirst(kept + [p], p.MinT()), later, wal, outs, ok, final, x);
    }
  }

  lemma DistinctWithout(kept: seq<Part>, p: Part, later: seq<Part>)
    requires Distinct(kept + ([p] + later))
    ensures Distinct((kept + [p]) + later) && Distinct(kept + later)
  {
    var parts, rest := kept + ([p] + later), kept + later;
    assert (kept + [p]) + later == parts;
    assert forall i | 0 <= i < |rest| :: rest[i] == parts[if i < |kept| then i else i + 1];
  }

  /** Once k has been taken for p, it is in neither list. */
  lemma TakenIsGone(kept: seq<Part>, p: Part, later: seq<Part>, k: nat)
    requires Distinct(kept + ([p] + later)) && k < |kept| && k == FirstStart(kept + [p], p.MinT())
    ensures kept[k] !in WithoutFirst(kept + [p], p.MinT()) && kept[k] !in later
  {
    hide FirstStart, Distinct;
    var parts, front := kept + ([p] + later), kept + [p];
    assert parts == front + later;
    OnceOnly(front, later, k);
    assert front[k] == kept[k];
  }

  lemma OnceOnly(front: seq<Part>, later: seq<Part>, k: nat)
    requires Distinct(front + later) && k < |front|
    ensures front[k] !in front[..k] + front[k + 1..] && front[k] !in later
  {
    var parts := front + later;
    assert parts[k] == front[k];
    var left := front[..k] + front[k + 1..];
    forall i | 0 <= i < |left|
      ensures left[i] != front[k]
    {
      assert left[i] == parts[if i < k then i else i + 1];
    }
    forall i | 0 <= i < |later|
      ensures later[i] != front[k]
    {
      assert later[i] == parts[|front| + i];
    }
  }

  /** With a twin the sweep loses a partition that should have stayed. */
  lemma {:induction false} TwinDropLoses(kept: seq<Part>, rest: seq<Part>, wal: WalState, outs: seq<FlushOutcome>, ok: bool, final: StorageState)
    returns (x: Part)
    requires Swept(kept, rest, wal, true, outs, ok, final) && Distinct(kept + rest) && !NoTwin(kept, rest, true)
    ensures x in kept + Disks(rest) && x !in final.parts && HasTwin(x, rest)
    decreases |rest|
  {
    hide Swept, Disks, FirstStart, NoTwin, NewStart, WithoutFirst, HasTwin, Distinct;
    NoRestNoTwin(kept, true);
    var p, later := rest[0], rest[1..];
    assert rest == [p] + later;
    SweptInMemory(kept, p, later, wal, outs, ok, final);
    DisksCons(kept, p, later);
    NoTwinCons(kept, p, later, p, true);
    DistinctWithout(kept, p, later);
    if p.MemPart? && !NewStart(kept, p) {
      var k := FindsTwin(kept, p);
      x := kept[k];
      TakenIsGone(kept, p, later, k);
      DropsOnly(WithoutFirst(kept + [p], p.MinT()), later, wal, outs, ok, final, x);
      TwinHere(x, p, later);
    } else {
      if p.MemPart? {
        NewIsLast(kept, p);
        DropsLast(kept, p);
      }
      x := TwinDropLoses(if p.DiskPart? then kept + [p] else kept, later, wal, outs, ok, final);
      TwinLater(x, p, later);
    }
  }

  lemma NoRestNoTwin(kept: seq<Part>, inMemory: bool)
    ensures NoTwin(kept, [], inMemory)
  {
  }

  /** The in-memory pass leaves exactly the writable and the disk partitions if and only
      if no memory partition to be dropped has a twin nearer the head. */
  lemma DropsInPlaceIff(kept: seq<Part>, rest: seq<Part>, wal: WalState, outs: seq<FlushOutcome>, ok: bool, final: StorageState)
    requires Swept(kept, rest, wal, true, outs, ok, final) && Distinct(kept + rest)
    ensures final.parts == kept + Disks(rest) <==> NoTwin(kept, rest, true)
  {
    hide Swept, Disks, NoTwin, HasTwin, Distinct;
    if NoTwin(kept, rest, true) {
      SweepDrops(kept, rest, wal, outs, ok, final);
    } else {
      var x := TwinDropLoses(kept, rest, wal, outs, ok, final);
    }
  }

  // ----- With a data directory -----

  /** How many partitions a pass comes by before the log runs out of segments. */
  ghost function Reach(rest: seq<Part>, nop: bool, left: nat): (n: nat)
    ensures n <= |rest|
  {
    if rest == [] then 0
    else if !rest[0].MemPart? || Hollow(rest[0]) then 1 + Reach(rest[1..], nop, left)
    else if nop then 1 + Reach(rest[1..], nop, left)
    else if left == 0 then 1
    else 1 + Reach(rest[1..], nop, left - 1)
  }

  /** The memory partitions with points. */
  ghost function Solids(rest: seq<Part>): nat {
    if rest == [] then 0 else (if rest[0].MemPart? && !Hollow(rest[0]) then 1 else 0) + Solids(rest[1..])
  }

  /** Each memory partition flushed so far gives way to its file, or to nothing. */
  function Forms(rest: seq<Part>, outs: seq<FlushOutcome>): seq<Part> {
    if rest == [] then []
    else if rest[0].DiskPart? then [rest[0]] + Forms(rest[1..], outs)
    else if outs == [] then rest
    else (if outs[0].disk.data == [] then [] else [DiskPart(outs[0].disk)]) + Forms(rest[1..], outs[1..])
  }

  lemma {:induction false} NoFormsLeft(rest: seq<Part>)
    ensures Forms(rest, []) == rest
    decreases |rest|
  {
    if rest != [] {
      NoFormsLeft(rest[1..]);
    }
  }

  lemma FormsCons(kept: seq<Part>, p: Part, later: seq<Part>, outs: seq<FlushOutcome>)
    ensures p.DiskPart? ==> kept + Forms([p] + later, outs) == (kept + [p]) + Forms(later, outs)
    ensures p.MemPart? && outs != [] ==>
      kept + Forms([p] + later, outs)
        == (if outs[0].disk.data == [] then kept else kept + [DiskPart(outs[0].disk)]) + Forms(later, outs[1..])
  {
    assert ([p] + later)[1..] == later;
  }

  /** One memory partition in turn. */
  lemma SweptFlushed(kept: seq<Part>, p: Part, later: seq<Part>, wal: WalState, outs: seq<FlushOutcome>, ok: bool, final: StorageState)
    returns (wal': WalState)
    requires p.MemPart? && Swept(kept, [p] + later, wal, false, outs, ok, final)
    ensures outs != [] && FlushedAs(p.m, outs[0]) && (outs[0].disk.data == [] <==> Hollow(p))
    ensures var p', q, t := p.(m := outs[0].sorted), DiskPart(outs[0].disk), p.MinT();
            && p'.MinT() == t && q.MinT() == t && wal'.nop == wal.nop && (wal.nop ==> wal' == wal)
            && if Hollow(p) then wal' == wal && Swept(WithoutFirst(kept + [p'], t), later, wal, false, outs[1..], ok, final)
               else if !wal.nop && |wal.segments| == 0 then
                 !ok && outs[1..] == [] && final.parts == WithFirst(kept + [p'], t, q) + later
               else
                 && (!wal.nop ==> |wal'.segments| == |wal.segments| - 1)
                 && Swept(WithFirst(kept + [p'], t, q), later, wal', false, outs[1..], ok, final)
  {
    hide FirstStart, WithFirst, WithoutFirst, Indexed, BufferSorted, Shortened;
    wal' := wal;
    var rest := [p] + later;
    assert rest[0] == p && rest[1..] == later;
    if outs[0].disk.data != [] && (wal.nop || wal.segments != map[]) {
      var there := WithFirst(kept + [p.(m := outs[0].sorted)], p.MinT(), DiskPart(outs[0].disk));
      wal' :| Shortened(wal, wal') && Swept(there, later, wal', false, outs[1..], ok, final);
      ShortenedSize(wal, wal');
      ShortenedNop(wal, wal');
    }
  }

  lemma ShortenedNop(w: WalState, w': WalState)
    requires Shortened(w, w')
    ensures w.nop ==> w' == w
  {
  }

  lemma SweptPastDisk(kept: seq<Part>, p: Part, later: seq<Part>, wal: WalState, outs: seq<FlushOutcome>, ok: bool, final: StorageState)
    requires p.DiskPart? && Swept(kept, [p] + later, wal, false, outs, ok, final)
    ensures Swept(kept + [p], later, wal, false, outs, ok, final)
  {
    hide FirstStart, WithFirst, WithoutFirst, FlushedAs, Shortened;
    assert ([p] + later)[1..] == later;
  }

  /** A pass completes exactly when the log has a segment for every partition with points. */
  lemma {:induction false} PassCompletesIff(kept: seq<Part>, rest: seq<Part>, wal: WalState, outs: seq<FlushOutcome>, ok: bool, final: StorageState)
    requires Swept(kept, rest, wal, false, outs, ok, final)
    ensures ok <==> wal.nop || Solids(rest) <= |wal.segments|
    ensures ok ==> Reach(rest, wal.nop, |wal.segments|) == |rest|
    decreases |rest|
  {
    hide Swept, Hollow, FlushedAs, WithFirst, WithoutFirst;
    if rest == [] {
      SweptNone(kept, wal, false, outs, ok, final);
    } else {
      var p, later := rest[0], rest[1..];
      assert rest == [p] + later;
      if p.DiskPart? {
        SweptPastDisk(kept, p, later, wal, outs, ok, final);
        PassCompletesIff(kept + [p], later, wal, outs, ok, final);
      } else {
        var wal' := SweptFlushed(kept, p, later, wal, outs, ok, final);
        var p', q := p.(m := outs[0].sorted), DiskPart(outs[0].disk);
        if Hollow(p) {
          PassCompletesIff(WithoutFirst(kept + [p'], p.MinT()), later, wal, outs[1..], ok, final);
        } else if wal.nop || |wal.segments| > 0 {
          PassCompletesIff(WithFirst(kept + [p'], p.MinT(), q), later, wal', outs[1..], ok, final);
        }
      }
    }
  }

  /** Up to where a pass comes, no memory partition has a twin nearer the head. */
  ghost predicate NoTwinReached(kept: seq<Part>, rest: seq<Part>, wal: WalState) {
    NoTwin(kept, rest[..Reach(rest, wal.nop, |wal.segments|)], false)
  }

  lemma ReachedNone(kept: seq<Part>, wal: WalState)
    ensures NoTwinReached(kept, [], wal)
  {
  }

  lemma ReachedCons(kept: seq<Part>, p: Part, later: seq<Part>, wal: WalState, q: Part, wal': WalState)
    requires q.MinT() == p.MinT() && wal'.nop == wal.nop && (wal.nop ==> wal' == wal)
    ensures p.DiskPart? ==> (NoTwinReached(kept, [p] + later, wal) <==> NoTwinReached(kept + [q], later, wal))
    ensures p.MemPart? && Hollow(p) ==> (NoTwinReached(kept, [p] + later, wal) <==> NewStart(kept, p) && NoTwinReached(kept, later, wal))
    ensures p.MemPart? && !Hollow(p) && !wal.nop && |wal.segments| == 0 ==> (NoTwinReached(kept, [p] + later, wal) <==> NewStart(kept, p))
    ensures p.MemPart? && !Hollow(p) && (wal.nop || |wal'.segments| == |wal.segments| - 1) ==>
      (NoTwinReached(kept, [p] + later, wal) <==> NewStart(kept, p) && NoTwinReached(kept + [q], later, wal'))
  {
    hide NoTwin, NewStart, Hollow;
    var rest, left := [p] + later, |wal.segments|;
    assert rest[0] == p && rest[1..] == later;
    var ns := if p.MemPart? && !Hollow(p) && !wal.nop then (if left == 0 then 0 else Reach(later, false, left - 1))
              else Reach(later, wal.nop, left);
    assert Reach(rest, wal.nop, left) == 1 + ns;
    assert rest[..1 + ns] == [p] + later[..ns];
    NoTwinCons(kept, p, later[..ns], q, false);
    NoRestNoTwin(kept + [q], false);
  }

  lemma SwapsLast(kept: seq<Part>, p: Part, q: Part)
    requires NewStart(kept, p)
    ensures WithFirst(kept + [p], p.MinT(), q) == kept + [q] && WithoutFirst(kept + [p], p.MinT()) == kept
  {
    hide FirstStart, NewStart;
    NewIsLast(kept, p);
  }

  lemma SameStart(kept: seq<Part>, p: Part, p': Part)
    requires p'.MinT() == p.MinT()
    ensures NewStart(kept, p') <==> NewStart(kept, p)
  {
  }

  /** Without twins each file takes its own partition's place. */
  lemma {:induction false} SwapsInPlace(kept: seq<Part>, rest: seq<Part>, wal: WalState, outs: seq<FlushOutcome>, ok: bool, final: StorageState)
    requires Swept(kept, rest, wal, false, outs, ok, final) && NoTwinReached(kept, rest, wal)
    ensures final.parts == kept + Forms(rest, outs)
    decreases |rest|
  {
    hide Swept, Hollow, FlushedAs, WithFirst, WithoutFirst, NewStart, NoTwinReached, Forms;
    if rest == [] {
      SweptNone(kept, wal, false, outs, ok, final);
      NoFormsLeft(rest);
    } else {
      var p, later := rest[0], rest[1..];
      assert rest == [p] + later;
      FormsCons(kept, p, later, outs);
      if p.DiskPart? {
        SweptPastDisk(kept, p, later, wal, outs, ok, final);
        ReachedCons(kept, p, later, wal, p, wal);
        SwapsInPlace(kept + [p], later, wal, outs, ok, final);
      } else {
        var wal' := SweptFlushed(kept, p, later, wal, outs, ok, final);
        var p', q := p.(m := outs[0].sorted), DiskPart(outs[0].disk);
        ReachedCons(kept, p, later, wal, q, wal');
        SameStart(kept, p, p');
        SwapsLast(kept, p', q);
        if Hollow(p) {
          SwapsInPlace(kept, later, wal, outs[1..], ok, final);
        } else if !wal.nop && |wal.segments| == 0 {
          NoFormsLeft(later);
        } else {
          SwapsInPlace(kept + [q], later, wal', outs[1..], ok, final);
        }
      }
    }
  }

  // ----- What a twin costs -----

  /** A list entry apart from the order of its buffers, which a flush changes in place. */
  ghost function Look(p: Part): Part {
    match p
    case DiskPart(_) => p
    case MemPart(m, _) => p.(m := m.(metrics := map n | n in m.metrics :: m.metrics[n].(outOfOrder := [])))
  }

  ghost function Looks(parts: seq<Part>): (ls: seq<Part>)
    ensures |ls| == |parts| && forall i | 0 <= i < |parts| :: ls[i] == Look(parts[i])
  {
    seq(|parts|, i requires 0 <= i < |parts| => Look(parts[i]))
  }

  function Files(outs: seq<FlushOutcome>): seq<Part> {
    if outs == [] then [] else [DiskPart(outs[0].disk)] + Files(outs[1..])
  }

  /** All entries of the list and all files written. */
  ghost function Crowd(kept: seq<Part>, rest: seq<Part>, outs: seq<FlushOutcome>): multiset<Part> {
    multiset(Looks(kept)) + multiset(Looks(rest)) + multiset(Files(outs))
  }

  /** They are different objects. */
  ghost predicate Unalike(kept: seq<Part>, rest: seq<Part>, outs: seq<FlushOutcome>) {
    forall x | x in Crowd(kept, rest, outs) :: Crowd(kept, rest, outs)[x] == 1
  }

  lemma SortedLook(p: Part, o: FlushOutcome)
    requires p.MemPart? && FlushedAs(p.m, o)
    ensures Look(p.(m := o.sorted)) == Look(p)
  {
    hide Indexed, Sorted;
    var a, b := p.m.metrics, o.sorted.metrics;
    forall n | n in a
      ensures a[n].(outOfOrder := []) == b[n].(outOfOrder := [])
    {
      assert BufferSorted(a[n], b[n]);
    }
  }

  /** x looks like nothing in sight. */
  ghost predicate Foreign(x: Part, kept: seq<Part>, rest: seq<Part>, outs: seq<FlushOutcome>) {
    Look(x) !in Crowd(kept, rest, outs)
  }

  lemma ForeignMember(x: Part, kept: seq<Part>, rest: seq<Part>, outs: seq<FlushOutcome>)
    requires Foreign(x, kept, rest, outs)
    ensures x !in kept && x !in rest
  {
    hide Look;
    assert forall i | 0 <= i < |kept| :: Looks(kept)[i] in multiset(Looks(kept));
    assert forall i | 0 <= i < |rest| :: Looks(rest)[i] in multiset(Looks(rest));
  }

  // How the crowd changes when p's turn comes.

  lemma LooksSwap(front: seq<Part>, k: nat, d: DiskPartition)
    requires k < |front|
    ensures multiset(Looks(front[..k] + front[k + 1..])) + multiset{Look(front[k])} == multiset(Looks(front))
    ensures multiset(Looks(front[k := DiskPart(d)])) + multiset{Look(front[k])} == multiset(Looks(front)) + multiset{DiskPart(d)}
  {
    hide Look;
    DiskLook(d);
    var ls := Looks(front);
    assert ls == ls[..k] + [ls[k]] + ls[k + 1..];
    assert Looks(front[..k] + front[k + 1..]) == ls[..k] + ls[k + 1..];
    assert Looks(front[k := DiskPart(d)]) == ls[..k] + [DiskPart(d)] + ls[k + 1..];
  }

  lemma DiskLook(d: DiskPartition)
    ensures Look(DiskPart(d)) == DiskPart(d)
  {
  }

  lemma CrowdMoves(kept: seq<Part>, p: Part, p': Part, later: seq<Part>, outs: seq<FlushOutcome>)
    requires Look(p') == Look(p)
    ensures Crowd(kept + [p'], later, outs) == Crowd(kept, [p] + later, outs)
    ensures Crowd(kept, [p] + later, outs) == Crowd(kept, later, outs) + multiset{Look(p)}
    ensures outs != [] ==> Crowd(kept, later, outs) == Crowd(kept, later, outs[1..]) + multiset{DiskPart(outs[0].disk)}
  {
    hide Look;
    assert Looks(kept + [p']) == Looks(kept) + [Look(p)];
    assert Looks([p] + later) == [Look(p)] + Looks(later);
  }

  lemma CrowdTakes(kept: seq<Part>, p: Part, p': Part, later: seq<Part>, outs: seq<FlushOutcome>, k: nat)
    requires Look(p') == Look(p) && outs != [] && k <= |kept|
    ensures var front, d := kept + [p'], DiskPart(outs[0].disk);
            && Crowd(front[..k] + front[k + 1..], later, outs[1..]) + multiset{Look(front[k])} + multiset{d} == Crowd(kept, [p] + later, outs)
            && Crowd(front[k := d], later, outs[1..]) + multiset{Look(front[k])} == Crowd(kept, [p] + later, outs)
  {
    hide Look, Looks, Files;
    var front, d := kept + [p'], DiskPart(outs[0].disk);
    CrowdMoves(kept, p, p', later, outs);
    CrowdMoves(front, p, p', later, outs);
    LooksSwap(front, k, outs[0].disk);
    Rearranged(multiset(Looks(front)), multiset(Looks(front[..k] + front[k + 1..])), multiset(Looks(front[k := d])),
               Look(front[k]), d, multiset(Looks(later)), multiset(Files(outs[1..])));
  }

  lemma Rearranged(all: multiset<Part>, without: multiset<Part>, swapped: multiset<Part>, x: Part, d: Part, b: multiset<Part>, c: multiset<Part>)
    requires without + multiset{x} == all && swapped + multiset{x} == all + multiset{d}
    ensures (without + b + c) + multiset{x} + multiset{d} == (all + b + c) + multiset{d}
    ensures (swapped + b + c) + multiset{x} == (all + b + c) + multiset{d}
  {
    assert (swapped + b + c) + multiset{x} == (swapped + multiset{x}) + b + c;
  }

  lemma ForeignStep(x: Part, kept: seq<Part>, p: Part, p': Part, later: seq<Part>, outs: seq<FlushOutcome>)
    requires Foreign(x, kept, [p] + later, outs) && Look(p') == Look(p)
    ensures Foreign(x, kept + [p'], later, outs)
    ensures outs != [] ==> Foreign(x, WithoutFirst(kept + [p'], p'.MinT()), later, outs[1..])
    ensures outs != [] ==> Foreign(x, WithFirst(kept + [p'], p'.MinT(), DiskPart(outs[0].disk)), later, outs[1..])
  {
    hide Look, FirstStart, Crowd;
    CrowdMoves(kept, p, p', later, outs);
    if outs != [] {
      SearchEndsEarly(kept, p', []);
      assert kept + [p'] + [] == kept + [p'];
      CrowdTakes(kept, p, p', later, outs, FirstStart(kept + [p'], p'.MinT()));
    }
  }

  /** Nothing foreign comes into the list. */
  lemma {:induction false} SwapsOnly(kept: seq<Part>, rest: seq<Part>, wal: WalState, outs: seq<FlushOutcome>, ok: bool, final: StorageState, x: Part)
    requires Swept(kept, rest, wal, false, outs, ok, final) && Foreign(x, kept, rest, outs)
    ensures x !in final.parts
    decreases |rest|
  {
    hide Swept, Hollow, FlushedAs, WithFirst, WithoutFirst, Foreign, Look;
    if rest == [] {
      SweptNone(kept, wal, false, outs, ok, final);
      ForeignMember(x, kept, rest, outs);
      assert kept + [] == kept;
    } else {
      var p, later := rest[0], rest[1..];
      assert rest == [p] + later;
      if p.DiskPart? {
        SweptPastDisk(kept, p, later, wal, outs, ok, final);
        ForeignStep(x, kept, p, p, later, outs);
        SwapsOnly(kept + [p], later, wal, outs, ok, final, x);
      } else {
        var wal' := SweptFlushed(kept, p, later, wal, outs, ok, final);
        var p', q, t := p.(m := outs[0].sorted), DiskPart(outs[0].disk), p.MinT();
        SortedLook(p, outs[0]);
        ForeignStep(x, kept, p, p', later, outs);
        if Hollow(p) {
          SwapsOnly(WithoutFirst(kept + [p'], t), later, wal, outs[1..], ok, final, x);
        } else if !wal.nop && |wal.segments| == 0 {
          ForeignMember(x, WithFirst(kept + [p'], t, q), later, outs[1..]);
        } else {
          SwapsOnly(WithFirst(kept + [p'], t, q), later, wal', outs[1..], ok, final, x);
        }
      }
    }
  }

  /** Once k has been taken for p, nothing looks like it any more. */
  lemma TakenIsForeign(kept: seq<Part>, p: Part, p': Part, later: seq<Part>, outs: seq<FlushOutcome>, k: nat)
    requires Unalike(kept, [p] + later, outs) && Look(p') == Look(p) && outs != []
    requires k < |kept| && k == FirstStart(kept + [p'], p'.MinT())
    ensures Foreign(kept[k], WithoutFirst(kept + [p'], p'.MinT()), later, outs[1..])
    ensures Foreign(kept[k], WithFirst(kept + [p'], p'.MinT(), DiskPart(outs[0].disk)), later, outs[1..])
  {
    hide Look, FirstStart, Crowd;
    CrowdTakes(kept, p, p', later, outs, k);
    var x, d := Look(kept[k]), DiskPart(outs[0].disk);
    assert (kept + [p'])[k] == kept[k];
    assert x in Crowd(kept, [p] + later, outs);
  }

  lemma UnalikeStep(kept: seq<Part>, p: Part, later: seq<Part>, outs: seq<FlushOutcome>)
    requires Unalike(kept, [p] + later, outs)
    ensures Unalike(kept + [p], later, outs)
    ensures outs != [] ==> Unalike(kept, later, outs[1..]) && Unalike(kept + [DiskPart(outs[0].disk)], later, outs[1..])
  {
    hide Look, Crowd;
    CrowdMoves(kept, p, p, later, outs);
    if outs != [] {
      var all, q := Crowd(kept, [p] + later, outs), DiskPart(outs[0].disk);
      DiskLook(outs[0].disk);
      CrowdMoves(kept, q, q, later, outs[1..]);
      Subcrowd(all, Crowd(kept, later, outs[1..]));
      Subcrowd(all, Crowd(kept + [q], later, outs[1..]));
    }
  }

  lemma Subcrowd(all: multiset<Part>, some: multiset<Part>)
    requires some <= all && forall x | x in all :: all[x] == 1
    ensures forall x | x in some :: some[x] == 1
  {
  }

  /** With a twin some partition that should be there is lost: the file of the memory
      partition has taken the place of another one. */
  lemma {:induction false} TwinSwapLoses(kept: seq<Part>, rest: seq<Part>, wal: WalState, outs: seq<FlushOutcome>, ok: bool, final: StorageState)
    returns (x: Part)
    requires Swept(kept, rest, wal, false, outs, ok, final) && Unalike(kept, rest, outs) && !NoTwinReached(kept, rest, wal)
    ensures x in kept + Forms(rest, outs) && x !in final.parts && HasTwin(x, rest)
    decreases |rest|
  {
    hide Swept, Hollow, FlushedAs, WithFirst, WithoutFirst, NewStart, NoTwinReached, Forms, FirstStart, Foreign, Unalike, HasTwin, Look;
    ReachedNone(kept, wal);
    var p, later := rest[0], rest[1..];
    assert rest == [p] + later;
    FormsCons(kept, p, later, outs);
    UnalikeStep(kept, p, later, outs);
    if p.DiskPart? {
      SweptPastDisk(kept, p, later, wal, outs, ok, final);
      ReachedCons(kept, p, later, wal, p, wal);
      x := TwinSwapLoses(kept + [p], later, wal, outs, ok, final);
      TwinLater(x, p, later);
    } else {
      var wal' := SweptFlushed(kept, p, later, wal, outs, ok, final);
      var p', q := p.(m := outs[0].sorted), DiskPart(outs[0].disk);
      ReachedCons(kept, p, later, wal, q, wal');
      SameStart(kept, p, p');
      if !NewStart(kept, p) {
        x := TwinTaken(kept, p, p', later, wal, wal', outs, ok, final);
      } else {
        SwapsLast(kept, p', q);
        x := TwinSwapLoses(if Hollow(p) then kept else kept + [q], later, wal', outs[1..], ok, final);
        TwinLater(x, p, later);
      }
    }
  }

  lemma TwinTaken(kept: seq<Part>, p: Part, p': Part, later: seq<Part>, wal: WalState, wal': WalState, outs: seq<FlushOutcome>, ok: bool, final: StorageState)
    returns (x: Part)
    requires p.MemPart? && outs != [] && FlushedAs(p.m, outs[0]) && p' == p.(m := outs[0].sorted) && p'.MinT() == p.MinT()
    requires Unalike(kept, [p] + later, outs) && !NewStart(kept, p')
    requires var q, t := DiskPart(outs[0].disk), p.MinT();
             || Swept(WithoutFirst(kept + [p'], t), later, wal, false, outs[1..], ok, final)
             || Swept(WithFirst(kept + [p'], t, q), later, wal', false, outs[1..], ok, final)
             || final.parts == WithFirst(kept + [p'], t, q) + later
    ensures x in kept && x !in final.parts && HasTwin(x, [p] + later)
  {
    hide Swept, Hollow, FlushedAs, WithFirst, WithoutFirst, NewStart, FirstStart, Foreign, Unalike, HasTwin, Look;
    var q, t := DiskPart(outs[0].disk), p.MinT();
    var k := FindsTwin(kept, p');
    x := kept[k];
    SortedLook(p, outs[0]);
    TakenIsForeign(kept, p, p', later, outs, k);
    TwinHere(x, p, later);
    if Swept(WithoutFirst(kept + [p'], t), later, wal, false, outs[1..], ok, final) {
      SwapsOnly(WithoutFirst(kept + [p'], t), later, wal, outs[1..], ok, final, x);
    } else if Swept(WithFirst(kept + [p'], t, q), later, wal', false, outs[1..], ok, final) {
      SwapsOnly(WithFirst(kept + [p'], t, q), later, wal', outs[1..], ok, final, x);
    } else {
      ForeignMember(x, WithFirst(kept + [p'], t, q), later, outs[1..]);
    }
  }

  /** With a data directory a pass puts every file in its own partition's place if and only
      if no memory partition it comes by has a twin nearer the head. */
  lemma SwapsInPlaceIff(kept: seq<Part>, rest: seq<Part>, wal: WalState, outs: seq<FlushOutcome>, ok: bool, final: StorageState)
    requires Swept(kept, rest, wal, false, outs, ok, final) && Unalike(kept, rest, outs)
    ensures final.parts == kept + Forms(rest, outs) <==> NoTwinReached(kept, rest, wal)
  {
    hide Swept, Forms, NoTwinReached, Unalike, HasTwin;
    if NoTwinReached(kept, rest, wal) {
      SwapsInPlace(kept, rest, wal, outs, ok, final);
    } else {
      var x := TwinSwapLoses(kept, rest, wal, outs, ok, final);
    }
  }

  // ----- The head as the twin -----

  /** In the in-memory mode the newest partition is dropped, the old one stays. */
  lemma TwinStartDropsHead(a: Part, b: Part, c: Part, wal: WalState, outs: seq<FlushOutcome>, ok: bool, final: StorageState)
    requires c.MemPart? && a.MinT() == c.MinT()
    requires FlushPass(StorageState([a, b, c], wal), true, outs, ok, final)
    ensures final.parts == [b, c]
  {
    hide Swept;
    var parts := [a, b, c];
    assert parts[..2] == [a, b] && parts[2..] == [c] + [] && [a, b] + [c] == parts;
    SweptInMemory([a, b], c, [], wal, outs, ok, final);
    assert FirstStart(parts, c.MinT()) == 0 && parts[..0] + parts[1..] == [b, c];
    SweptNone([b, c], wal, true, outs, ok, final);
    assert [b, c] + Disks([]) == [b, c];
  }

  /** With a data directory the old partition's file takes the head's place: the head's
      rows are in no partition any more, the old one's are in two. */
  lemma TwinStartReplacesHead(a: Part, b: Part, c: Part, wal: WalState, outs: seq<FlushOutcome>, ok: bool, final: StorageState)
    requires c.MemPart? && !Hollow(c) && a.MinT() == c.MinT()
    requires FlushPass(StorageState([a, b, c], wal), false, outs, ok, final)
    ensures outs != [] && FlushedAs(c.m, outs[0])
    ensures final.parts == [DiskPart(outs[0].disk), b, c.(m := outs[0].sorted)]
  {
    hide Swept, Hollow, FlushedAs;
    var parts := [a, b, c];
    assert parts[..2] == [a, b] && parts[2..] == [c] + [];
    var wal' := SweptFlushed([a, b], c, [], wal, outs, ok, final);
    var c', q := c.(m := outs[0].sorted), DiskPart(outs[0].disk);
    assert [a, b] + [c'] == [a, b, c'];
    assert FirstStart([a, b, c'], c.MinT()) == 0;
    assert [a, b, c'][0 := q] == [q, b, c'] && [q, b, c'] + [] == [q, b, c'];
    SweptNone([q, b, c'], wal', false, outs[1..], ok, final);
    assert [q, b, c'] + Disks([]) == [q, b, c'];
  }
}
