/** The write-ahead log as a set of numbered segment files. A segment is its
    file together with what is still buffered for it. */
module WalSegments {
  import opened Words
  import opened Rows

  /** `nop` is the log that does nothing, used when no data path is given. */
  datatype WalState = WalState(nop: bool, segments: map<nat, seq<Row>>, active: nat, index: nat)

  /** Rows go to the open segment; once its file is unlinked they reach no file. */
  function Appended(w: WalState, rows: seq<Row>): WalState {
    if w.nop || w.active !in w.segments then w
    else w.(segments := w.segments[w.active := w.segments[w.active] + rows])
  }

  /** A new segment named after the index; an existing file is appended to. */
  function Punctuated(w: WalState): WalState {
    if w.nop then w
    else
      var content := if w.index in w.segments then w.segments[w.index] else [];
      w.(segments := w.segments[w.index := content], active := w.index, index := w.index + 1)
  }

  /** All segment files are gone. */
  function Emptied(w: WalState): WalState {
    if w.nop then w else w.(segments := map[])
  }

  lemma NothingLogged(w: WalState)
    ensures var w' := Emptied(w);
            w'.nop == w.nop && w'.index == w.index && w'.active == w.active && (!w.nop ==> w'.segments == map[])
  {
  }

  // ----- File names -----

  /** strconv.Itoa, as digits. */
  function Decimal(n: nat): (ds: seq<nat>)
    ensures ds != []
  {
    if n < 10 then [n] else Decimal(n / 10) + [n % 10]
  }

  function Spelled(ds: seq<nat>): nat {
    if ds == [] then 0 else 10 * Spelled(ds[..|ds| - 1]) + ds[|ds| - 1]
  }

  /** The digits spell the number. */
  lemma {:induction false} DecimalSpells(n: nat)
    ensures Spelled(Decimal(n)) == n && forall d | d in Decimal(n) :: d < 10
    ensures n > 0 ==> Decimal(n)[0] > 0
  {
    if n >= 10 {
      DecimalSpells(n / 10);
    }
  }

  /** os.ReadDir sorts by file name. */
  ghost predicate FirstByName(keys: set<nat>, k: nat) {
    k in keys && forall j | j in keys :: !LexLess(Decimal(j), Decimal(k))
  }

  /** One removeOldest call. */
  ghost predicate Shortened(w: WalState, w': WalState) {
    if w.nop then w' == w
    else exists k :: FirstByName(w.segments.Keys, k) && w' == w.(segments := w.segments - {k})
  }

  lemma {:induction false} DecimalInjective(m: nat, n: nat)
    requires Decimal(m) == Decimal(n)
    ensures m == n
  {
    var a, b := Decimal(m), Decimal(n);
    assert a[|a| - 1] == m % 10 && b[|b| - 1] == n % 10;
    assert (m >= 10 <==> |a| > 1) && (n >= 10 <==> |b| > 1);
    if m >= 10 && n >= 10 {
      assert a[..|a| - 1] == Decimal(m / 10) && b[..|b| - 1] == Decimal(n / 10);
      DecimalInjective(m / 10, n / 10);
    }
  }

  lemma FirstByNameUnique(keys: set<nat>, j: nat, k: nat)
    requires FirstByName(keys, j) && FirstByName(keys, k)
    ensures j == k
  {
    LexTotal(Decimal(j), Decimal(k));
    if Decimal(j) == Decimal(k) {
      DecimalInjective(j, k);
    }
  }

  /** Names of the same length sort by number. */
  lemma {:induction false} SameLengthOrder(m: nat, n: nat)
    requires |Decimal(m)| == |Decimal(n)|
    ensures LexLess(Decimal(m), Decimal(n)) <==> m < n
  {
    if m < 10 || n < 10 {
      assert |Decimal(m)| == 1 && |Decimal(n)| == 1;
    } else {
      SameLengthOrder(m / 10, n / 10);
      LastDigitOrder(Decimal(m / 10), m % 10, Decimal(n / 10), n % 10);
      if Decimal(m / 10) == Decimal(n / 10) {
        DecimalInjective(m / 10, n / 10);
      }
    }
  }

  lemma {:induction false} LastDigitOrder(a: seq<nat>, x: nat, b: seq<nat>, y: nat)
    requires |a| == |b|
    ensures LexLess(a + [x], b + [y]) <==> LexLess(a, b) || (a == b && x < y)
  {
    if a == [] {
    } else if a[0] == b[0] {
      LastDigitOrder(a[1..], x, b[1..], y);
      assert (a + [x])[1..] == a[1..] + [x] && (b + [y])[1..] == b[1..] + [y];
      assert a == [a[0]] + a[1..] && b == [b[0]] + b[1..];
    }
  }

  /** With names of one length, the file listed first is the oldest segment. */
  lemma SameLengthFirstIsOldest(keys: set<nat>, k: nat)
    requires forall i, j | i in keys && j in keys :: |Decimal(i)| == |Decimal(j)|
    requires FirstByName(keys, k)
    ensures forall j | j in keys :: k <= j
  {
    forall j | j in keys
      ensures k <= j
    {
      SameLengthOrder(j, k);
    }
  }

  // When exactly the file listed first is the oldest segment.

  function Pow10(n: nat): (p: nat)
    ensures p > 0
  {
    if n == 0 then 1 else 10 * Pow10(n - 1)
  }

  predicate PowerOfTen(n: nat) {
    n == Pow10(|Decimal(n)| - 1)
  }

  lemma {:induction false} DecimalLength(n: nat, k: nat)
    requires k > 0
    ensures |Decimal(n)| > k <==> n >= Pow10(k)
    decreases n
  {
    if n >= 10 {
      if k > 1 {
        DecimalLength(n / 10, k - 1);
      }
    } else {
      Pow10AtLeast(k);
    }
  }

  lemma {:induction false} Pow10AtLeast(k: nat)
    requires k > 0
    ensures Pow10(k) >= 10
  {
    if k > 1 {
      Pow10AtLeast(k - 1);
    }
  }

  lemma {:induction false} LengthMonotone(m: nat, n: nat)
    requires m <= n
    ensures |Decimal(m)| <= |Decimal(n)|
  {
    if m >= 10 {
      LengthMonotone(m / 10, n / 10);
    }
  }

  /** The number that the digits of k spell without the last d. */
  function Leading(k: nat, d: nat): nat {
    if d == 0 then k else Leading(k / 10, d - 1)
  }

  /** A name comes before a shorter one exactly when the number its first digits spell is smaller. */
  lemma {:induction false} LongerNameOrder(k: nat, n: nat)
    requires |Decimal(k)| >= |Decimal(n)|
    ensures LexLess(Decimal(k), Decimal(n)) <==> Leading(k, |Decimal(k)| - |Decimal(n)|) < n
    decreases k
  {
    hide LexLess, Leading;
    if |Decimal(k)| == |Decimal(n)| {
      SameLengthOrder(k, n);
      LeadingAll(k);
    } else {
      LongerNameOrder(k / 10, n);
      LeadingTenth(k, |Decimal(k)| - |Decimal(n)|);
      LastDigitIdle(Decimal(k / 10), k % 10, Decimal(n));
    }
  }

  lemma LeadingAll(k: nat)
    ensures Leading(k, 0) == k
  {
  }

  lemma LeadingTenth(k: nat, d: nat)
    requires d > 0
    ensures Leading(k, d) == Leading(k / 10, d - 1)
  {
  }

  lemma {:induction false} LastDigitIdle(a: seq<nat>, d: nat, b: seq<nat>)
    requires |a| >= |b|
    ensures LexLess(a + [d], b) <==> LexLess(a, b)
  {
    if b != [] {
      assert (a + [d])[1..] == a[1..] + [d];
      LastDigitIdle(a[1..], d, b[1..]);
    }
  }

  /** No name begins with digits that spell a smaller number than lo. */
  ghost predicate NoneLeads(keys: set<nat>, lo: nat) {
    forall k | k in keys :: |Decimal(lo)| <= |Decimal(k)| && lo <= Leading(k, |Decimal(k)| - |Decimal(lo)|)
  }

  /** The oldest segment is listed first exactly when no other name begins with digits that
      spell a smaller number. */
  lemma FirstIsOldestIff(keys: set<nat>, lo: nat)
    requires lo in keys && forall k | k in keys :: lo <= k
    ensures FirstByName(keys, lo) <==> NoneLeads(keys, lo)
  {
    hide LexLess, Decimal, Leading;
    forall k | k in keys
      ensures |Decimal(lo)| <= |Decimal(k)|
      ensures LexLess(Decimal(k), Decimal(lo)) <==> Leading(k, |Decimal(k)| - |Decimal(lo)|) < lo
    {
      LengthMonotone(lo, k);
      LongerNameOrder(k, lo);
    }
  }

  /** Of the segments lo..hi, the directory lists the oldest first exactly when all
      names are as long as the oldest one's, or that one is zero or a power of ten. */
  lemma BlockFirstIsOldestIff(keys: set<nat>, lo: nat, hi: nat)
    requires lo <= hi && forall k :: k in keys <==> lo <= k <= hi
    ensures FirstByName(keys, lo) <==> |Decimal(lo)| == |Decimal(hi)| || lo == 0 || PowerOfTen(lo)
  {
    hide Decimal, FirstByName, PowerOfTen, NoneLeads;
    FirstIsOldestIff(keys, lo);
    if |Decimal(lo)| == |Decimal(hi)| || lo == 0 || PowerOfTen(lo) {
      BlockHolds(keys, lo, hi);
    } else {
      var p := BlockBreaks(lo, hi);
      SomeLeads(keys, lo, p);
    }
  }

  lemma BlockHolds(keys: set<nat>, lo: nat, hi: nat)
    requires forall k | k in keys :: lo <= k <= hi
    requires |Decimal(lo)| == |Decimal(hi)| || lo == 0 || PowerOfTen(lo)
    ensures NoneLeads(keys, lo)
  {
    hide Decimal, Leading, PowerOfTen;
    forall k | k in keys
      ensures |Decimal(lo)| <= |Decimal(k)| && lo <= Leading(k, |Decimal(k)| - |Decimal(lo)|)
    {
      LengthMonotone(lo, k);
      LeadingEnough(lo, k, hi);
    }
  }

  lemma SomeLeads(keys: set<nat>, lo: nat, p: nat)
    requires p in keys && |Decimal(lo)| <= |Decimal(p)| && Leading(p, |Decimal(p)| - |Decimal(lo)|) < lo
    ensures !NoneLeads(keys, lo)
  {
  }

  /** The block reaches the next power of ten. */
  lemma BlockBreaks(lo: nat, hi: nat) returns (p: nat)
    requires lo <= hi && |Decimal(lo)| != |Decimal(hi)| && lo != 0 && !PowerOfTen(lo)
    ensures lo <= p <= hi && |Decimal(p)| == |Decimal(lo)| + 1 && Leading(p, |Decimal(p)| - |Decimal(lo)|) < lo
  {
    hide Decimal, Leading;
    LengthMonotone(lo, hi);
    p := Pow10(|Decimal(lo)|);
    DecimalLength(hi, |Decimal(lo)|);
    NextPower(lo);
  }

  lemma LeadingEnough(lo: nat, k: nat, hi: nat)
    requires lo <= k <= hi && |Decimal(lo)| <= |Decimal(k)|
    requires |Decimal(lo)| == |Decimal(hi)| || lo == 0 || PowerOfTen(lo)
    ensures lo <= Leading(k, |Decimal(k)| - |Decimal(lo)|)
  {
    hide Decimal, Leading, Pow10;
    LengthMonotone(k, hi);
    LeadingAll(k);
    LeadingPower(k, |Decimal(k)| - |Decimal(lo)|);
  }

  /** The leading digits of a longer number are at least a one and zeros. */
  lemma {:induction false} LeadingPower(k: nat, d: nat)
    requires 0 <= d < |Decimal(k)|
    ensures d > 0 ==> Leading(k, d) >= Pow10(|Decimal(k)| - d - 1)
    decreases k
  {
    hide Leading;
    if d == 1 {
      LeadingTenth(k, 1);
      LeadingAll(k / 10);
      AtLeastPower(k / 10);
    } else if d > 1 {
      LeadingTenth(k, d);
      LeadingPower(k / 10, d - 1);
    }
  }

  lemma AtLeastPower(n: nat)
    ensures n > 0 ==> n >= Pow10(|Decimal(n)| - 1)
  {
    if |Decimal(n)| > 1 {
      DecimalLength(n, |Decimal(n)| - 1);
    }
  }

  /** The next power of ten has one digit more and begins with a smaller number, unless n
      is a power of ten itself. */
  lemma NextPower(n: nat)
    requires n > 0 && !PowerOfTen(n)
    ensures var p := Pow10(|Decimal(n)|);
            n < p && |Decimal(p)| == |Decimal(n)| + 1 && Leading(p, 1) < n
  {
    hide Decimal;
    var d := |Decimal(n)|;
    var p := Pow10(d);
    DecimalLength(n, d);
    DecimalLength(p, d);
    DecimalLength(p, d + 1);
    AtLeastPower(n);
    assert p / 10 == Pow10(d - 1) && Pow10(1) == 10 * Pow10(0);
  }

  /** A block that has just reached the next power of ten lists its newest segment first. */
  lemma NewestListedFirst(keys: set<nat>, lo: nat, hi: nat)
    requires 0 < lo && !PowerOfTen(lo) && hi == Pow10(|Decimal(lo)|)
    requires forall k :: k in keys <==> lo <= k <= hi
    ensures FirstByName(keys, hi) && lo < hi
  {
    hide LexLess, Decimal, Pow10, PowerOfTen;
    DecimalLength(lo, |Decimal(lo)|);
    forall j | j in keys
      ensures !LexLess(Decimal(j), Decimal(hi))
    {
      if j == hi {
        LexIrreflexive(Decimal(hi));
      } else {
        SameBlock(lo, j);
        NextPower(j);
        LongerNameOrder(hi, j);
        LexAsymmetric(Decimal(hi), Decimal(j));
      }
    }
  }

  lemma SameBlock(lo: nat, j: nat)
    requires 0 < lo <= j < Pow10(|Decimal(lo)|) && !PowerOfTen(lo)
    ensures |Decimal(j)| == |Decimal(lo)| && !PowerOfTen(j)
  {
    LengthMonotone(lo, j);
    DecimalLength(j, |Decimal(lo)|);
    if |Decimal(lo)| > 1 {
      DecimalLength(lo, |Decimal(lo)| - 1);
    }
  }

  // ----- The directory listing -----

  /** The segments in the order in which os.ReadDir lists them. */
  ghost predicate Listing(keys: set<nat>, ks: seq<nat>) {
    && (forall k :: k in keys <==> k in ks)
    && (forall i, j | 0 <= i < j < |ks| :: ks[i] != ks[j] && !LexLess(Decimal(ks[j]), Decimal(ks[i])))
  }

  lemma {:induction false} FirstByNameExists(keys: set<nat>) returns (k: nat)
    requires keys != {}
    ensures FirstByName(keys, k)
    decreases |keys|
  {
    hide LexLess, Decimal;
    k :| k in keys;
    LexIrreflexive(Decimal(k));
    if keys != {k} {
      var rest := keys - {k};
      assert rest != {};
      var j := FirstByNameExists(rest);
      if LexLess(Decimal(j), Decimal(k)) {
        LexAsymmetric(Decimal(j), Decimal(k));
        k := j;
      } else {
        forall i | i in keys
          ensures !LexLess(Decimal(i), Decimal(k))
        {
          NotBefore(i, j, k);
        }
      }
    }
  }

  /** If j is not before k and i not before j, then i is not before k. */
  lemma NotBefore(i: nat, j: nat, k: nat)
    requires !LexLess(Decimal(j), Decimal(k)) && (i == k || !LexLess(Decimal(i), Decimal(j)))
    ensures !LexLess(Decimal(i), Decimal(k))
  {
    hide LexLess, Decimal;
    LexIrreflexive(Decimal(k));
    if i != k && LexLess(Decimal(i), Decimal(k)) {
      LexBefore(Decimal(k), Decimal(j), Decimal(i));
    }
  }

  lemma {:induction false} ListingExists(keys: set<nat>) returns (ks: seq<nat>)
    ensures Listing(keys, ks)
    decreases |keys|
  {
    hide Listing, FirstByName;
    if keys == {} {
      ks := [];
      ListingNone();
    } else {
      var k := FirstByNameExists(keys);
      FirstListed(keys, k);
      var rest := ListingExists(keys - {k});
      ks := [k] + rest;
      ListingCons(keys, k, rest);
    }
  }

  lemma FirstListed(keys: set<nat>, k: nat)
    requires FirstByName(keys, k)
    ensures k in keys
  {
  }

  lemma ListingNone()
    ensures Listing({}, [])
  {
  }

  lemma ListingCons(keys: set<nat>, k: nat, rest: seq<nat>)
    requires FirstByName(keys, k) && Listing(keys - {k}, rest)
    ensures Listing(keys, [k] + rest)
  {
    hide LexLess, Decimal;
    var ks := [k] + rest;
    forall i, j | 0 <= i < j < |ks|
      ensures ks[i] != ks[j] && !LexLess(Decimal(ks[j]), Decimal(ks[i]))
    {
      assert ks[j] == rest[j - 1] && rest[j - 1] in rest;
      assert i > 0 ==> ks[i] == rest[i - 1];
    }
    forall x
      ensures x in keys <==> x in ks
    {
      assert x in keys - {k} <==> x in rest;
    }
  }

  lemma {:induction false} ListingSize(keys: set<nat>, ks: seq<nat>)
    requires Listing(keys, ks)
    ensures |ks| == |keys|
    decreases |ks|
  {
    hide LexLess, Decimal;
    if ks == [] {
      assert keys == {};
    } else {
      assert ks[0] in keys;
      ListedFirst(keys, ks);
      ListingSize(keys - {ks[0]}, ks[1..]);
    }
  }

  lemma ListedFirst(keys: set<nat>, ks: seq<nat>)
    requires Listing(keys, ks) && ks != []
    ensures FirstByName(keys, ks[0]) && Listing(keys - {ks[0]}, ks[1..])
  {
    hide LexLess, Decimal;
    LexIrreflexive(Decimal(ks[0]));
    forall j | j in keys
      ensures !LexLess(Decimal(j), Decimal(ks[0]))
    {
      var i :| 0 <= i < |ks| && ks[i] == j;
    }
    var rest := ks[1..];
    assert forall i | 0 <= i < |rest| :: rest[i] == ks[i + 1];
    forall k
      ensures k in keys - {ks[0]} <==> k in rest
    {
      if k in keys && k != ks[0] {
        var i :| 0 <= i < |ks| && ks[i] == k;
        assert rest[i - 1] == k;
      }
    }
  }

  /** Removing the oldest segment takes the first file off the listing. */
  lemma ShortenListed(w: WalState, w': WalState, ks: seq<nat>)
    requires !w.nop && Listing(w.segments.Keys, ks) && Shortened(w, w')
    ensures ks != [] && w' == w.(segments := w.segments - {ks[0]}) && Listing(w'.segments.Keys, ks[1..])
  {
    hide LexLess, Decimal;
    var k :| FirstByName(w.segments.Keys, k) && w' == w.(segments := w.segments - {k});
    assert k in ks;
    ListedFirst(w.segments.Keys, ks);
    FirstByNameUnique(w.segments.Keys, k, ks[0]);
    assert w'.segments.Keys == w.segments.Keys - {k};
  }

  // ----- The log object -----

  class DiskWal {
    const nop: bool
    var segments: map<nat, seq<Row>>
    var active: nat
    var index: nat

    ghost function State(): WalState
      reads this
    {
      WalState(nop, segments, active, index)
    }

    /** A fresh log directory with its first segment. */
    constructor (nop: bool)
      ensures State() == WalState(nop, if nop then map[] else map[0 := []], 0, if nop then 0 else 1)
    {
      this.nop := nop;
      segments := if nop then map[] else map[0 := []];
      active := 0;
      index := if nop then 0 else 1;
    }

    method Append(rows: seq<Row>)
      modifies this
      ensures State() == Appended(old(State()), rows)
      ensures segments == if nop || active !in old(segments) then old(segments) else old(segments)[active := old(segments)[active] + rows]
      ensures active == old(active) && index == old(index)
    {
      if !nop && active in segments {
        segments := segments[active := segments[active] + rows];
      }
    }

    method Punctuate()
      modifies this
      ensures State() == Punctuated(old(State()))
      ensures !nop ==> active == old(index) && index == old(index) + 1
      ensures !nop ==> segments == old(segments)[active := if active in old(segments) then old(segments)[active] else []]
    {
      if nop {
        return;
      }
      // createSegmentFile
      if index !in segments {
        segments := segments[index := []];
      }
      active, index := index, index + 1;
    }

    /** Removes the file that the directory lists first. */
    method RemoveOldest() returns (ok: bool)
      modifies this
      ensures ok <==> old(nop || segments != map[])
      ensures if ok then Shortened(old(State()), State()) else State() == old(State())
    {
      if nop {
        return true;
      }
      if segments == map[] {
        return false;
      }
      ghost var w := State();
      var rest := segments.Keys;
      var first :| first in rest;
      ghost var seen := {first};
      LexIrreflexive(Decimal(first));
      rest := rest - {first};
      while rest != {}
        invariant State() == w && rest + seen == w.segments.Keys
        invariant FirstByName(seen, first)
        decreases rest
      {
        var k :| k in rest;
        LexIrreflexive(Decimal(k));
        if LexLess(Decimal(k), Decimal(first)) {
          forall j | j in seen
            ensures !LexLess(Decimal(j), Decimal(k))
          {
            if LexLess(Decimal(j), Decimal(k)) {
              LexTransitive(Decimal(j), Decimal(k), Decimal(first));
            }
          }
          first := k;
        }
        rest, seen := rest - {k}, seen + {k};
      }
      assert seen == w.segments.Keys;
      segments := segments - {first};
      assert FirstByName(w.segments.Keys, first);
      assert State() == w.(segments := w.segments - {first});
      assert Shortened(w, State());
      return true;
    }

    /** removeAll: an empty directory. */
    method RemoveAll()
      modifies this
      ensures State() == Emptied(old(State()))
      ensures !nop ==> segments == map[]
      ensures index == old(index) && active == old(active) && (nop ==> segments == old(segments))
    {
      if !nop {
        segments := map[];
      }
    }
  }
}
