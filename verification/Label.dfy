/** Metric names: a metric and its labels as one canonical byte string. */
module Label {
  import opened Words
  import opened Rows

  datatype Label = Label(name: seq<uint8>, value: seq<uint8>)

  const MAX_NAME_LEN: nat := 256
  const MAX_VALUE_LEN: nat := 16 * 1024

  predicate Invalid(l: Label) {
    l.name == [] || l.value == []
  }

  function Truncated(l: Label): Label {
    if Invalid(l) then l
    else Label(if |l.name| > MAX_NAME_LEN then l.name[..MAX_NAME_LEN] else l.name,
               if |l.value| > MAX_VALUE_LEN then l.value[..MAX_VALUE_LEN] else l.value)
  }

  function TruncatedAll(ls: seq<Label>): (r: seq<Label>)
    ensures |r| == |ls| && forall i | 0 <= i < |ls| :: r[i] == Truncated(ls[i])
  {
    seq(|ls|, i requires 0 <= i < |ls| => Truncated(ls[i]))
  }

  function ValidOnly(ls: seq<Label>): seq<Label> {
    if ls == [] then [] else (if Invalid(ls[0]) then [] else [ls[0]]) + ValidOnly(ls[1..])
  }

  /** encoding.MarshalUint16 of a length, cut to 16 bits. */
  function Uint16Bytes(n: nat): seq<uint8> {
    [n / 0x100 % 0x100, n % 0x100]
  }

  function FieldBytes(s: seq<uint8>): seq<uint8> {
    Uint16Bytes(|s|) + s
  }

  function LabelsBytes(ls: seq<Label>): seq<uint8> {
    if ls == [] then []
    else (if Invalid(ls[0]) then [] else FieldBytes(ls[0].name) + FieldBytes(ls[0].value)) + LabelsBytes(ls[1..])
  }

  /** The name built from labels that are already sorted and truncated. */
  function NameBytes(metric: seq<uint8>, ls: seq<Label>): Name {
    if ls == [] then metric else FieldBytes(metric) + LabelsBytes(ls)
  }

  ghost predicate SortedByName(ls: seq<Label>) {
    forall i, j | 0 <= i < j < |ls| :: !LexLess(ls[j].name, ls[i].name)
  }

  // ----- marshalMetricName -----

  /** Sorts and truncates the labels in place, then builds the name. */
  method MarshalMetricName(metric: seq<uint8>, labels: array<Label>) returns (name: Name, ghost sorted: seq<Label>)
    modifies labels
    ensures SortedByName(sorted) && multiset(sorted) == multiset(old(labels[..]))
    ensures labels[..] == TruncatedAll(sorted)
    ensures forall i | 0 <= i < |sorted| :: Shortened(sorted[i], labels[i])
    ensures name == NameBytes(metric, TruncatedAll(sorted))
  {
    hide Shortened, Truncated;
    if labels.Length == 0 {
      sorted := [];
      return metric, sorted;
    }
    sorted := Arrange(labels);
    forall i | 0 <= i < |sorted|
      ensures Shortened(sorted[i], labels[i])
    {
      assert labels[i] == labels[..][i];
      TruncatedShortens(sorted[i]);
    }
    name := BuildName(metric, labels[..]);
  }

  /** s' is s, or its first n bytes if s is longer. */
  ghost predicate CutTo(s: seq<uint8>, n: nat, s': seq<uint8>) {
    s' <= s && |s'| == if |s| < n then |s| else n
  }

  /** A label with a name and a value keeps 256 bytes of the one and 16384 of the other;
      any other label stays as it is. */
  ghost predicate Shortened(l: Label, l': Label) {
    if l.name == [] || l.value == [] then l' == l
    else CutTo(l.name, 256, l'.name) && CutTo(l.value, 16384, l'.value)
  }

  lemma TruncatedShortens(l: Label)
    ensures Shortened(l, Truncated(l))
  {
  }

  /** The in-place part. */
  method Arrange(labels: array<Label>) returns (ghost sorted: seq<Label>)
    modifies labels
    ensures SortedByName(sorted) && multiset(sorted) == multiset(old(labels[..]))
    ensures labels[..] == TruncatedAll(sorted)
  {
    hide SortedByName, Truncated;
    var s := SortLabels(labels[..]);
    sorted := s;
    SameLength(s, labels[..]);
    for i := 0 to labels.Length
      invariant forall k | 0 <= k < i :: labels[k] == s[k]
    {
      labels[i] := s[i];
    }
    for i := 0 to labels.Length
      invariant forall k | 0 <= k < i :: labels[k] == Truncated(s[k])
      invariant forall k | i <= k < labels.Length :: labels[k] == s[k]
    {
      labels[i] := Truncated(labels[i]);
    }
  }

  method BuildName(metric: seq<uint8>, ls: seq<Label>) returns (out: Name)
    requires ls != []
    ensures out == NameBytes(metric, ls)
  {
    hide FieldBytes, Invalid;
    out := FieldBytes(metric);
    for i := 0 to |ls|
      invariant out + LabelsBytes(ls[i..]) == NameBytes(metric, ls)
    {
      assert ls[i..][0] == ls[i] && ls[i..][1..] == ls[i + 1..];
      ghost var before, field := out, if Invalid(ls[i]) then [] else FieldBytes(ls[i].name) + FieldBytes(ls[i].value);
      if !Invalid(ls[i]) {
        out := out + FieldBytes(ls[i].name) + FieldBytes(ls[i].value);
      }
      assert out == before + field;
      assert before + (field + LabelsBytes(ls[i + 1..])) == out + LabelsBytes(ls[i + 1..]);
    }
  }

  lemma SameLength(a: seq<Label>, b: seq<Label>)
    requires multiset(a) == multiset(b)
    ensures |a| == |b|
  {
    assert |multiset(a)| == |a| && |multiset(b)| == |b|;
  }

  /** sort.Slice by name: callers may rely on the order, not on how ties fall. */
  method SortLabels(ls: seq<Label>) returns (r: seq<Label>)
    ensures SortedByName(r) && multiset(r) == multiset(ls)
  {
    hide SortedByName;
    r := [];
    NoLabelsSorted();
    for i := 0 to |ls|
      invariant SortedByName(r) && multiset(r) == multiset(ls[..i])
    {
      assert ls[..i + 1] == ls[..i] + [ls[i]];
      r := InsertLabel(r, ls[i]);
    }
    assert ls[..|ls|] == ls;
  }

  lemma NoLabelsSorted()
    ensures SortedByName([])
  {
  }

  method InsertLabel(ls: seq<Label>, l: Label) returns (r: seq<Label>)
    requires SortedByName(ls)
    ensures SortedByName(r) && multiset(r) == multiset(ls) + multiset{l}
  {
    hide LexLess;
    var k := |ls|;
    while k > 0 && LexLess(l.name, ls[k - 1].name)
      invariant 0 <= k <= |ls|
      invariant forall j | k <= j < |ls| :: LexLess(l.name, ls[j].name)
    {
      k := k - 1;
    }
    forall j | 0 <= j < k
      ensures !LexLess(l.name, ls[j].name)
    {
      if LexLess(l.name, ls[j].name) && j < k - 1 {
        LexBefore(ls[j].name, ls[k - 1].name, l.name);
      }
    }
    forall j | k <= j < |ls|
      ensures !LexLess(ls[j].name, l.name)
    {
      LexAsymmetric(l.name, ls[j].name);
    }
    r := ls[..k] + [l] + ls[k..];
    PlacedByName(ls, k, l);
  }

  lemma PlacedByName(ls: seq<Label>, k: nat, l: Label)
    requires SortedByName(ls) && k <= |ls|
    requires forall j | 0 <= j < k :: !LexLess(l.name, ls[j].name)
    requires forall j | k <= j < |ls| :: !LexLess(ls[j].name, l.name)
    ensures var r := ls[..k] + [l] + ls[k..];
            SortedByName(r) && multiset(r) == multiset(ls) + multiset{l}
  {
    hide LexLess;
    assert ls == ls[..k] + ls[k..];
  }

  // ----- Canonical: the order of the labels given does not matter -----

  /** Sorted with no two equal names. */
  ghost predicate StrictByName(ls: seq<Label>) {
    forall i, j | 0 <= i < j < |ls| :: LexLess(ls[i].name, ls[j].name)
  }

  lemma {:induction false} StrictUnique(a: seq<Label>, b: seq<Label>)
    requires StrictByName(a) && StrictByName(b) && multiset(a) == multiset(b)
    ensures a == b
    decreases |a|
  {
    hide StrictByName;
    SameLength(a, b);
    if a != [] {
      SameHead(a, b);
      StrictTail(a);
      StrictTail(b);
      StrictUnique(a[1..], b[1..]);
      assert a == [a[0]] + a[1..] && b == [b[0]] + b[1..];
    }
  }

  lemma StrictTail(ls: seq<Label>)
    requires StrictByName(ls) && ls != []
    ensures StrictByName(ls[1..]) && multiset(ls[1..]) == multiset(ls) - multiset{ls[0]}
  {
    hide LexLess;
    assert ls == [ls[0]] + ls[1..];
  }

  lemma SameHead(a: seq<Label>, b: seq<Label>)
    requires StrictByName(a) && StrictByName(b) && multiset(a) == multiset(b) && a != [] && b != []
    ensures a[0] == b[0]
  {
    hide LexLess;
    assert a[0] in multiset(b) && b[0] in multiset(a);
    var i :| 0 <= i < |b| && b[i] == a[0];
    var j :| 0 <= j < |a| && a[j] == b[0];
    if i > 0 && j > 0 {
      LexAsymmetric(b[0].name, a[0].name);
    }
  }

  /** Valid labels that share no name. */
  ghost predicate DistinctValid(ls: seq<Label>) {
    forall i, j | 0 <= i < j < |ls| && !Invalid(ls[i]) && !Invalid(ls[j]) :: ls[i].name != ls[j].name
  }

  lemma {:induction false} ValidMultiset(ls: seq<Label>, l: Label)
    ensures multiset(ValidOnly(ls))[l] == if Invalid(l) then 0 else multiset(ls)[l]
    ensures l in ValidOnly(ls) ==> l in ls && !Invalid(l)
    decreases |ls|
  {
    hide Invalid;
    if ls != [] {
      assert ls == [ls[0]] + ls[1..];
      ValidMultiset(ls[1..], l);
    }
  }

  lemma {:induction false} ValidStrict(ls: seq<Label>)
    requires SortedByName(ls) && DistinctValid(ls)
    ensures StrictByName(ValidOnly(ls))
    decreases |ls|
  {
    hide LexLess, Invalid, SortedByName, DistinctValid, StrictByName;
    if ls == [] {
      NoneStrict();
    } else {
      ValidTail(ls);
      ValidStrict(ls[1..]);
      if Invalid(ls[0]) {
        assert [] + ValidOnly(ls[1..]) == ValidOnly(ls[1..]);
      } else {
        StrictCons(ls[0], ValidOnly(ls[1..]));
      }
    }
  }

  lemma NoneStrict()
    ensures StrictByName([])
  {
  }

  lemma ValidTail(ls: seq<Label>)
    requires SortedByName(ls) && DistinctValid(ls) && ls != []
    ensures SortedByName(ls[1..]) && DistinctValid(ls[1..])
    ensures !Invalid(ls[0]) ==> forall k | 0 <= k < |ValidOnly(ls[1..])| :: LexLess(ls[0].name, ValidOnly(ls[1..])[k].name)
  {
    hide LexLess, Invalid;
    var tail, rest := ls[1..], ValidOnly(ls[1..]);
    assert forall i | 0 <= i < |tail| :: tail[i] == ls[i + 1];
    forall k | 0 <= k < |rest| && !Invalid(ls[0])
      ensures LexLess(ls[0].name, rest[k].name)
    {
      ValidMultiset(tail, rest[k]);
      var j :| 0 <= j < |tail| && tail[j] == rest[k];
      LexTotal(ls[0].name, ls[j + 1].name);
    }
  }

  lemma StrictCons(l: Label, rest: seq<Label>)
    requires StrictByName(rest) && forall k | 0 <= k < |rest| :: LexLess(l.name, rest[k].name)
    ensures StrictByName([l] + rest)
  {
    hide LexLess;
  }

  lemma {:induction false} TruncationKeepsValid(ls: seq<Label>)
    ensures ValidOnly(TruncatedAll(ls)) == TruncatedAll(ValidOnly(ls))
    decreases |ls|
  {
    if ls != [] {
      TruncationKeepsValid(ls[1..]);
      assert TruncatedAll(ls)[1..] == TruncatedAll(ls[1..]);
      if !Invalid(ls[0]) {
        assert TruncatedAll([ls[0]] + ValidOnly(ls[1..])) == [Truncated(ls[0])] + TruncatedAll(ValidOnly(ls[1..]));
      }
    }
  }

  lemma {:induction false} BytesOfValid(ls: seq<Label>)
    ensures LabelsBytes(ls) == LabelsBytes(ValidOnly(ls))
    decreases |ls|
  {
    hide FieldBytes;
    if ls != [] {
      var rest := ValidOnly(ls[1..]);
      BytesOfValid(ls[1..]);
      if Invalid(ls[0]) {
        assert [] + rest == rest;
        assert [] + LabelsBytes(ls[1..]) == LabelsBytes(ls[1..]);
      } else {
        assert ([ls[0]] + rest)[1..] == rest;
      }
    }
  }

  /** However the labels are ordered, and however the sort breaks ties among invalid
      ones, the name is the same. */
  lemma PermutedLabelsSameName(metric: seq<uint8>, ls: seq<Label>, a: seq<Label>, b: seq<Label>)
    requires DistinctValid(ls)
    requires SortedByName(a) && multiset(a) == multiset(ls)
    requires SortedByName(b) && multiset(b) == multiset(ls)
    ensures NameBytes(metric, TruncatedAll(a)) == NameBytes(metric, TruncatedAll(b))
  {
    hide SortedByName, DistinctValid, StrictByName, Invalid, Truncated;
    SameLength(a, b);
    DistinctPermuted(ls, a);
    DistinctPermuted(ls, b);
    ValidStrict(a);
    ValidStrict(b);
    forall l: Label
      ensures multiset(ValidOnly(a))[l] == multiset(ValidOnly(b))[l]
    {
      ValidMultiset(a, l);
      ValidMultiset(b, l);
    }
    StrictUnique(ValidOnly(a), ValidOnly(b));
    TruncationKeepsValid(a);
    TruncationKeepsValid(b);
    BytesOfValid(TruncatedAll(a));
    BytesOfValid(TruncatedAll(b));
  }

  lemma DistinctPermuted(ls: seq<Label>, a: seq<Label>)
    requires DistinctValid(ls) && multiset(a) == multiset(ls)
    ensures DistinctValid(a)
  {
    hide Invalid;
    forall i, j | 0 <= i < j < |a| && !Invalid(a[i]) && !Invalid(a[j])
      ensures a[i].name != a[j].name
    {
      if a[i] == a[j] {
        TwiceIn(a, i, j);
        Twice(ls, a[i]);
      } else {
        assert a[i] in multiset(ls) && a[j] in multiset(ls);
        var x :| 0 <= x < |ls| && ls[x] == a[i];
        var y :| 0 <= y < |ls| && ls[y] == a[j];
      }
    }
  }

  lemma TwiceIn(a: seq<Label>, i: nat, j: nat)
    requires i < j < |a| && a[i] == a[j]
    ensures multiset(a)[a[i]] >= 2
  {
    assert a == a[..j] + [a[j]] + a[j + 1..];
    assert a[i] in a[..j];
  }

  /** A label that occurs twice gives two places with the same name. */
  lemma {:induction false} Twice(ls: seq<Label>, l: Label)
    requires multiset(ls)[l] >= 2
    ensures exists i, j :: 0 <= i < j < |ls| && ls[i] == l && ls[j] == l
    decreases |ls|
  {
    assert ls == [ls[0]] + ls[1..];
    if ls[0] == l {
      assert l in multiset(ls[1..]);
      var j :| 0 <= j < |ls[1..]| && ls[1..][j] == l;
      assert ls[0] == l && ls[j + 1] == l;
    } else {
      Twice(ls[1..], l);
      var i, j :| 0 <= i < j < |ls[1..]| && ls[1..][i] == l && ls[1..][j] == l;
      assert ls[i + 1] == l && ls[j + 1] == l;
    }
  }

  // ----- Uniquely decodable -----

  datatype Field = Field(value: seq<uint8>, rest: seq<uint8>) | NoField

  function ReadField(bs: seq<uint8>): (f: Field)
    ensures f.Field? ==> |f.rest| + 2 <= |bs|
  {
    if |bs| < 2 || |bs| < 2 + Uint16(bs) then NoField
    else Field(bs[2..2 + Uint16(bs)], bs[2 + Uint16(bs)..])
  }

  /** encoding.UnmarshalUint16 */
  function Uint16(bs: seq<uint8>): (n: nat)
    requires |bs| >= 2
    ensures n < 0x1_0000
  {
    var hi: int, lo: int := bs[0], bs[1];
    0x100 * hi + lo
  }

  datatype Decoded = Named(metric: seq<uint8>, labels: seq<Label>) | Malformed

  function ReadLabels(bs: seq<uint8>, metric: seq<uint8>): Decoded
    decreases |bs|
  {
    if bs == [] then Named(metric, [])
    else
      var n := ReadField(bs);
      if n.NoField? then Malformed
      else
        var v := ReadField(n.rest);
        if v.NoField? then Malformed
        else
          var later := ReadLabels(v.rest, metric);
          if later.Malformed? then Malformed else Named(metric, [Label(n.value, v.value)] + later.labels)
  }

  function DecodeName(bs: seq<uint8>): Decoded {
    var m := ReadField(bs);
    if m.NoField? then Malformed else ReadLabels(m.rest, m.value)
  }

  lemma FieldRoundTrip(s: seq<uint8>, rest: seq<uint8>)
    requires |s| < 0x1_0000
    ensures ReadField(FieldBytes(s) + rest) == Field(s, rest)
  {
    var bs, n := FieldBytes(s) + rest, |s|;
    assert 0x100 * (n / 0x100 % 0x100) + n % 0x100 == n;
    assert bs[0] == n / 0x100 % 0x100 && bs[1] == n % 0x100;
    assert bs[2..2 + n] == s && bs[2 + n..] == rest;
  }

  /** What truncation leaves: names and values that fit their length fields. */
  ghost predicate Bounded(ls: seq<Label>) {
    forall i | 0 <= i < |ls| && !Invalid(ls[i]) :: |ls[i].name| <= MAX_NAME_LEN && |ls[i].value| <= MAX_VALUE_LEN
  }

  lemma TruncatedBounded(ls: seq<Label>)
    ensures Bounded(TruncatedAll(ls))
  {
  }

  lemma {:induction false} LabelsRoundTrip(ls: seq<Label>, metric: seq<uint8>)
    requires Bounded(ls)
    ensures ReadLabels(LabelsBytes(ls), metric) == Named(metric, ValidOnly(ls))
    decreases |ls|
  {
    hide FieldBytes, ReadField;
    if ls != [] {
      var l, rest := ls[0], LabelsBytes(ls[1..]);
      LabelsRoundTrip(ls[1..], metric);
      if Invalid(l) {
        assert LabelsBytes(ls) == rest;
      } else {
        assert LabelsBytes(ls) == FieldBytes(l.name) + (FieldBytes(l.value) + rest);
        FieldNonempty(l.name);
        FieldRoundTrip(l.name, FieldBytes(l.value) + rest);
        FieldRoundTrip(l.value, rest);
      }
    }
  }

  lemma FieldNonempty(s: seq<uint8>)
    ensures FieldBytes(s) != []
  {
  }

  /** With labels given, the name determines the metric and its truncated valid
      labels exactly when the metric's length fits 16 bits. */
  lemma NameDecodesIff(metric: seq<uint8>, labels: seq<Label>)
    requires labels != []
    ensures var ls := TruncatedAll(labels);
            DecodeName(NameBytes(metric, ls)) == Named(metric, ValidOnly(ls)) <==> |metric| < 0x1_0000
  {
    hide LabelsBytes, ReadLabels;
    var ls := TruncatedAll(labels);
    TruncatedBounded(labels);
    if |metric| < 0x1_0000 {
      hide FieldBytes, ReadField;
      FieldRoundTrip(metric, LabelsBytes(ls));
      LabelsRoundTrip(ls, metric);
    } else {
      var m := ReadField(NameBytes(metric, ls));
      if m.Field? {
        assert |m.value| < 0x1_0000;
        ReadLabelsMetric(m.rest, m.value);
      }
    }
  }

  /** Equal names mean equal metrics and equal valid labels. */
  lemma EqualNamesSameSeries(m: seq<uint8>, a: seq<Label>, n: seq<uint8>, b: seq<Label>)
    requires a != [] && b != [] && |m| < 0x1_0000 && |n| < 0x1_0000
    requires NameBytes(m, TruncatedAll(a)) == NameBytes(n, TruncatedAll(b))
    ensures m == n && ValidOnly(TruncatedAll(a)) == ValidOnly(TruncatedAll(b))
  {
    hide NameBytes, DecodeName, ValidOnly, TruncatedAll;
    NameDecodesIff(m, a);
    NameDecodesIff(n, b);
  }

  /** Among labels that need no cut, equal names mean the same metric and the same labels,
      as often as given, apart from those without a name or a value. */
  lemma EqualNamesSameLabels(m: seq<uint8>, a: seq<Label>, n: seq<uint8>, b: seq<Label>, l: Label)
    requires a != [] && b != [] && |m| < 0x1_0000 && |n| < 0x1_0000
    requires forall i | 0 <= i < |a| :: |a[i].name| <= 256 && |a[i].value| <= 16384
    requires forall i | 0 <= i < |b| :: |b[i].name| <= 256 && |b[i].value| <= 16384
    requires NameBytes(m, TruncatedAll(a)) == NameBytes(n, TruncatedAll(b))
    requires l.name != [] && l.value != []
    ensures m == n && multiset(a)[l] == multiset(b)[l]
  {
    hide NameBytes, ValidOnly, Invalid, Truncated;
    EqualNamesSameSeries(m, a, n, b);
    UncutLabels(a);
    UncutLabels(b);
    ValidMultiset(a, l);
    ValidMultiset(b, l);
    ValidLabel(l);
  }

  lemma UncutLabels(ls: seq<Label>)
    requires forall i | 0 <= i < |ls| :: |ls[i].name| <= 256 && |ls[i].value| <= 16384
    ensures TruncatedAll(ls) == ls
  {
    hide Shortened;
    forall i | 0 <= i < |ls|
      ensures Truncated(ls[i]) == ls[i]
    {
      TruncatedShortens(ls[i]);
      ShortStays(ls[i], Truncated(ls[i]));
    }
  }

  lemma ShortStays(l: Label, l': Label)
    requires Shortened(l, l') && |l.name| <= 256 && |l.value| <= 16384
    ensures l' == l
  {
  }

  lemma ValidLabel(l: Label)
    requires l.name != [] && l.value != []
    ensures !Invalid(l)
  {
  }

  /** A label writes its name and its value, each behind its length; one without a name or
      a value writes nothing. */
  lemma LabelWrites(a: seq<Label>, l: Label, b: seq<Label>)
    ensures l.name == [] || l.value == [] ==> LabelsBytes(a + [l] + b) == LabelsBytes(a + b)
    ensures l.name != [] && l.value != [] ==>
      LabelsBytes(a + [l] + b) == LabelsBytes(a) + FieldBytes(l.name) + FieldBytes(l.value) + LabelsBytes(b)
  {
    hide FieldBytes, LabelsBytes;
    LabelsBytesConcat(a + [l], b);
    LabelsBytesConcat(a, [l]);
    LabelsBytesConcat(a, b);
    OneLabelBytes(l);
  }

  lemma OneLabelBytes(l: Label)
    ensures LabelsBytes([l]) == if l.name == [] || l.value == [] then [] else FieldBytes(l.name) + FieldBytes(l.value)
  {
    hide FieldBytes;
    assert [l][1..] == [];
  }

  lemma {:induction false} LabelsBytesConcat(a: seq<Label>, b: seq<Label>)
    ensures LabelsBytes(a + b) == LabelsBytes(a) + LabelsBytes(b)
    decreases |a|
  {
    hide FieldBytes, Invalid;
    if a == [] {
      assert a + b == b;
    } else {
      assert (a + b)[1..] == a[1..] + b;
      LabelsBytesConcat(a[1..], b);
    }
  }

  /** Two bytes of length, the higher one first, then the bytes themselves. */
  lemma FieldLayout(s: seq<uint8>)
    ensures var f := FieldBytes(s);
            |f| == |s| + 2 && f[2..] == s && Uint16(f) == |s| % 0x1_0000 && f[0] == |s| / 0x100 % 0x100
  {
  }

  lemma ReadLabelsMetric(bs: seq<uint8>, metric: seq<uint8>)
    ensures ReadLabels(bs, metric).Named? ==> ReadLabels(bs, metric).metric == metric
  {
  }

  // ----- Names without labels -----

  /** Reading a field undoes writing it, and nothing else does. */
  lemma FieldCanonical(bs: seq<uint8>)
    ensures ReadField(bs).Field? ==> bs == FieldBytes(ReadField(bs).value) + ReadField(bs).rest
  {
    if |bs| >= 2 && |bs| >= 2 + Uint16(bs) {
      var n := Uint16(bs);
      var hi: int, lo: int := bs[0], bs[1];
      assert n / 0x100 == hi && n % 0x100 == lo;
      assert bs == [bs[0], bs[1]] + (bs[2..2 + n] + bs[2 + n..]);
    }
  }

  lemma {:induction false} LabelsCanonical(bs: seq<uint8>, metric: seq<uint8>)
    requires ReadLabels(bs, metric).Named? && forall l | l in ReadLabels(bs, metric).labels :: !Invalid(l)
    ensures bs == LabelsBytes(ReadLabels(bs, metric).labels)
    decreases |bs|
  {
    hide FieldBytes, ReadField, Invalid, LabelsBytes;
    if bs == [] {
      NoLabelsBytes();
    } else {
      var n := ReadField(bs);
      var v := ReadField(n.rest);
      var l, later := Label(n.value, v.value), ReadLabels(v.rest, metric).labels;
      FieldCanonical(bs);
      FieldCanonical(n.rest);
      assert l in [l] + later && forall x | x in later :: x in [l] + later;
      LabelsCanonical(v.rest, metric);
      LabelsBytesCons(l, later);
    }
  }

  lemma NoLabelsBytes()
    ensures LabelsBytes([]) == []
  {
  }

  lemma LabelsBytesCons(l: Label, later: seq<Label>)
    requires !Invalid(l)
    ensures LabelsBytes([l] + later) == FieldBytes(l.name) + (FieldBytes(l.value) + LabelsBytes(later))
  {
    hide FieldBytes, Invalid;
    assert ([l] + later)[1..] == later;
  }

  lemma {:induction false} ValidOnlyValid(ls: seq<Label>)
    ensures forall l | l in ValidOnly(ls) :: !Invalid(l)
    decreases |ls|
  {
    hide Invalid;
    if ls != [] {
      ValidOnlyValid(ls[1..]);
    }
  }

  /** A metric without labels is not marked as such: its plain name is the name of a
      labelled metric exactly when it decodes to that metric and its valid labels. */
  lemma PlainNameCollidesIff(plain: seq<uint8>, metric: seq<uint8>, labels: seq<Label>)
    requires labels != [] && |metric| < 0x1_0000
    ensures var ls := TruncatedAll(labels);
            NameBytes(plain, []) == NameBytes(metric, ls) <==> DecodeName(plain) == Named(metric, ValidOnly(ls))
  {
    hide FieldBytes, ReadField, LabelsBytes, ReadLabels, ValidOnly, Invalid, Truncated;
    var ls := TruncatedAll(labels);
    NameDecodesIff(metric, labels);
    if DecodeName(plain) == Named(metric, ValidOnly(ls)) {
      var m := ReadField(plain);
      FieldCanonical(plain);
      ReadLabelsMetric(m.rest, m.value);
      ValidOnlyValid(ls);
      LabelsCanonical(m.rest, m.value);
      BytesOfValid(ls);
    }
  }

  /** So every labelled name is also a plain one. */
  lemma PlainNameCollides(metric: seq<uint8>, ls: seq<Label>)
    requires ls != []
    ensures NameBytes(FieldBytes(metric) + LabelsBytes(ls), []) == NameBytes(metric, ls)
  {
  }
}
