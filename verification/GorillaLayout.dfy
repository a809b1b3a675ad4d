/** The encoded series in numbers: which bits stand where, and what a point costs. */
module GorillaLayout {
  import opened Words
  import opened Varint
  import opened GorillaFormat
  import opened GorillaRoundTrip

  // ----- Varints -----

  /** A varint takes a byte for every seven bits of the number. */
  lemma {:induction false} UvarintLength(x: nat)
    ensures var k := |UvarintBytes(x)|; x < Pow2(7 * k) && (k > 1 ==> x >= Pow2(7 * (k - 1)))
    decreases x
  {
    hide Pow2;
    if x < 0x80 {
      SevenMore(0);
    } else {
      var k := |UvarintBytes(x / 0x80)|;
      UvarintLength(x / 0x80);
      SevenMore(k);
      SevenMore(k - 1);
      assert |UvarintBytes(x)| == k + 1;
      ScaleBound(x, Pow2(7 * k), Pow2(7 * (k - 1)));
    }
  }

  /** Byte i carries the seven bits 7i to 7i + 6; the top bit marks all but the last. */
  lemma {:induction false} UvarintLayout(x: nat, i: nat)
    requires i < |UvarintBytes(x)|
    ensures var bs := UvarintBytes(x);
            bs[i] == x / Pow2(7 * i) % 0x80 + if i < |bs| - 1 then 0x80 else 0
    decreases x
  {
    hide Pow2, UvarintBytes;
    SevenMore(0);
    UvarintCons(x);
    if x >= 0x80 && i > 0 {
      UvarintLayout(x / 0x80, i - 1);
      SevenMore(i - 1);
      DivideTwice(x, Pow2(7 * (i - 1)));
    }
  }

  lemma UvarintCons(x: nat)
    ensures x < 0x80 ==> UvarintBytes(x) == [x]
    ensures x >= 0x80 ==> UvarintBytes(x) == [x % 0x80 + 0x80] + UvarintBytes(x / 0x80)
  {
  }

  lemma SevenMore(k: nat)
    ensures Pow2(7 * k + 7) == 0x80 * Pow2(7 * k) && Pow2(0) == 1
  {
    hide Pow2;
    Pow2Add(7 * k, 7);
    Pow2Table();
  }

  lemma ScaleBound(x: nat, p: nat, q: nat)
    ensures x / 0x80 < p ==> x < 0x80 * p
    ensures x / 0x80 >= q ==> x >= 0x80 * q
  {
  }

  lemma DivideTwice(x: nat, p: nat)
    requires p > 0
    ensures x / 0x80 / p == x / (0x80 * p)
  {
    var q, r := x / 0x80 / p, x / 0x80 % p;
    assert x / 0x80 == q * p + r;
    assert x == q * (0x80 * p) + (0x80 * r + x % 0x80);
    DivModUnique(x, 0x80 * p, q, 0x80 * r + x % 0x80);
  }

  // ----- Delta of delta -----

  /** The prefix, then n bits that spell v. */
  ghost predicate Bucket(bits: seq<bool>, prefix: seq<bool>, n: nat, v: nat) {
    |bits| == |prefix| + n && prefix <= bits && FromBits(bits[|prefix|..]) == v
  }

  /** Five buckets: their ranges, prefixes and widths, and what they hold. */
  lemma DodLayout(dod: int64)
    ensures dod == 0 ==> DodBits(dod) == [false]
    ensures dod != 0 && -63 <= dod <= 64 ==> Bucket(DodBits(dod), [true, false], 7, dod % 0x80)
    ensures !(-63 <= dod <= 64) && -255 <= dod <= 256 ==> Bucket(DodBits(dod), [true, true, false], 9, dod % 0x200)
    ensures !(-255 <= dod <= 256) && -2047 <= dod <= 2048 ==> Bucket(DodBits(dod), [true, true, true, false], 12, dod % 0x1000)
    ensures !(-2047 <= dod <= 2048) ==> Bucket(DodBits(dod), [true, true, true, true], 64, dod % 0x1_0000_0000_0000_0000)
  {
    hide Bits, FromBits, Pow2;
    Payload(dod, 7);
    Payload(dod, 9);
    Payload(dod, 12);
    Payload(dod, 64);
  }

  lemma Payload(dod: int64, n: nat)
    requires n == 7 || n == 9 || n == 12 || n == 64
    ensures FromBits(Bits(U64(dod), n))
         == dod % (if n == 7 then 0x80 else if n == 9 then 0x200 else if n == 12 then 0x1000 else 0x1_0000_0000_0000_0000)
  {
    hide Bits, FromBits, Pow2, U64;
    FromBitsOfBits(U64(dod), n);
    Pow2Table();
    Pow2Of64();
    WordMod(dod, 0x80, 0x200_0000_0000_0000);
    WordMod(dod, 0x200, 0x80_0000_0000_0000);
    WordMod(dod, 0x1000, 0x10_0000_0000_0000);
    WordMod(dod, 0x1_0000_0000_0000_0000, 1);
  }

  /** The low bits of a word are those of the number. */
  lemma WordMod(x: int, m: int, q: int)
    requires m > 0 && m * q == 0x1_0000_0000_0000_0000
    ensures U64(x) % m == x % m
  {
    var k, a, r := x / 0x1_0000_0000_0000_0000, x / m, x % m;
    assert x == k * 0x1_0000_0000_0000_0000 + U64(x) && x == a * m + r;
    Regrouped(x, k, m, q, a, r);
    DivModUnique(U64(x), m, a - k * q, r);
  }

  lemma Regrouped(x: int, k: int, m: int, q: int, a: int, r: int)
    requires m * q == 0x1_0000_0000_0000_0000 && x == a * m + r
    ensures x - k * 0x1_0000_0000_0000_0000 == (a - k * q) * m + r
  {
    assert k * (m * q) == (k * q) * m;
  }

  /** The bits of a delta of delta. */
  function DodCost(dod: int): nat {
    if dod == 0 then 1
    else if -63 <= dod <= 64 then 9
    else if -255 <= dod <= 256 then 12
    else if -2047 <= dod <= 2048 then 16
    else 68
  }

  // ----- Points and series -----

  /** The exact cost of a point, by phase. */
  lemma PointCostExact(e: EncoderState, p: Point)
    requires OpenWindow(e)
    ensures var value := if p.value == e.v then 1 else 66;
            |PointBits(e, p)|
              == if e.t0 == 0 then 8 * |UvarintBytes(if p.ts >= 0 then 2 * p.ts else -2 * p.ts - 1)| + 64
                 else if e.t1 == 0 then 8 * |UvarintBytes(U64(p.ts - e.t0))| + value
                 else DodCost(I64(U64(p.ts - e.t) - e.tDelta)) + value
  {
    hide Bits, BytesBits, UvarintBytes, ValueBits, U64, I64, FromBits, DodBits;
    ValueCost(e, p.value);
    if e.t0 != 0 && e.t1 != 0 {
      DodLayout(I64(U64(p.ts - e.t) - e.tDelta));
    }
  }

  ghost predicate Steady(ps: seq<Point>, step: int) {
    && (forall i | 0 < i < |ps| :: ps[i].ts - ps[i - 1].ts == step)
    && (forall i | 0 <= i < |ps| :: ps[i].value == ps[0].value)
  }

  lemma {:induction false} SteadyTail(e: EncoderState, ps: seq<Point>, step: int)
    requires OpenWindow(e) && e.t0 != 0 && e.t1 != 0 && e.tDelta == U64(step) && Steady(ps, step)
    requires ps != [] ==> ps[0].ts - e.t == step && ps[0].value == e.v
    ensures |SeriesBits(e, ps)| == 2 * |ps|
    decreases |ps|
  {
    hide PointBits, U64;
    if ps != [] {
      var p, later := ps[0], ps[1..];
      PointCostExact(e, p);
      SameWord(step);
      PointCost(e, p);
      assert forall i | 0 <= i < |later| :: later[i] == ps[i + 1];
      NextSteady(e, p);
      SteadyTail(Encoded(e, p), later, step);
    }
  }

  lemma SameWord(step: int)
    ensures I64(U64(step) - U64(step)) == 0
  {
  }

  lemma NextSteady(e: EncoderState, p: Point)
    requires e.t0 != 0 && e.t1 != 0
    ensures var e' := Encoded(e, p);
            e'.t0 == e.t0 && e'.t1 == e.t1 && e'.t == p.ts && e'.tDelta == U64(p.ts - e.t) && e'.v == p.value
  {
  }

  /** A steady series with one value takes exactly two bits a point from the third on. */
  lemma SteadySeriesCost(ps: seq<Point>, step: int)
    requires |ps| >= 2 && Steady(ps, step) && ps[0].ts != 0 && ps[1].ts != 0
    ensures |SeriesBits(FRESH_ENCODER, ps)|
         == 8 * |UvarintBytes(if ps[0].ts >= 0 then 2 * ps[0].ts else -2 * ps[0].ts - 1)| + 64
            + 8 * |UvarintBytes(U64(step))| + 1 + 2 * (|ps| - 2)
  {
    hide PointBits, U64, UvarintBytes;
    var a, b, later := ps[0], ps[1], ps[2..];
    var e1 := Encoded(FRESH_ENCODER, a);
    var e2 := Encoded(e1, b);
    PointCostExact(FRESH_ENCODER, a);
    PointCost(FRESH_ENCODER, a);
    PointCostExact(e1, b);
    PointCost(e1, b);
    assert ps[1..][0] == b && ps[1..][1..] == later;
    assert SeriesBits(FRESH_ENCODER, ps) == PointBits(FRESH_ENCODER, a) + (PointBits(e1, b) + SeriesBits(e2, later));
    assert forall i | 0 <= i < |later| :: later[i] == ps[i + 2];
    SteadyTail(e2, later, step);
  }

  // ----- Values -----

  /** The zeros before the first and behind the last one bit of a word. */
  lemma ZerosMean(x: uint64)
    requires x != 0
    ensures var l, z := LeadingZeros64(x), TrailingZeros64(x);
            && l < 64 && Pow2(63 - l) <= x < Pow2(64 - l)
            && x % Pow2(z) == 0 && x / Pow2(z) % 2 == 1
  {
    hide Pow2;
    Pow2Of64();
    BitLenBound(x, 64);
    BitLenAtLeast(x);
    TrailingZerosDivide(x, TrailingZeros(x));
    LowestOne(x);
  }

  lemma {:induction false} BitLenAtLeast(x: nat)
    requires x != 0
    ensures BitLen(x) >= 1 && x >= Pow2(BitLen(x) - 1)
  {
    if x / 2 != 0 {
      BitLenAtLeast(x / 2);
    }
  }

  lemma {:induction false} LowestOne(x: nat)
    requires x != 0
    ensures x / Pow2(TrailingZeros(x)) % 2 == 1
  {
    if x % 2 == 1 {
      assert Pow2(0) == 1;
    } else {
      LowestOne(x / 2);
      var p := Pow2(TrailingZeros(x / 2));
      HalfThenDivide(x, p);
    }
  }

  /** The exact cost of a value in any window: one bit if equal, two and the window's width
      if the window covers the difference, else thirteen and the width of its own window. */
  lemma ValueLayout(e: EncoderState, v: uint64)
    requires e.leading + e.trailing <= 64
    ensures v == e.v ==> ValueBits(e, v) == [false]
    ensures v != e.v ==>
      var x := VDelta(e, v);
      var l, z := LeadingZeros64(x), TrailingZeros64(x);
      var l' := if l >= 32 then 31 else l;
      && x != 0 && l' + z < 64
      && (l' >= e.leading && z >= e.trailing ==>
            |ValueBits(e, v)| == 2 + (64 - e.leading - e.trailing) && [true, false] <= ValueBits(e, v))
      && (!(l' >= e.leading && z >= e.trailing) ==>
            && |ValueBits(e, v)| == 2 + 5 + 6 + (64 - l' - z) && [true, true] <= ValueBits(e, v)
            && FromBits(ValueBits(e, v)[2..7]) == l' && FromBits(ValueBits(e, v)[7..13]) == (64 - l' - z) % 64)
  {
    hide Bits, Shr, FromBits, LeadingZeros64, TrailingZeros64, Xor, Pow2;
    XorRestores(e.v, v);
    if v != e.v {
      var x := VDelta(e, v);
      NonzeroWindow(x);
      var w := Rewindow(e, v);
      if !Reuses(e, x) {
        FromBitsOfBits(w.leading, 5);
        FromBitsOfBits(Significant(w), 6);
        Pow2Table();
        var bits, s := ValueBits(e, v), Bits(Shr(x, w.trailing), Significant(w));
        assert bits == [true, true] + Bits(w.leading, 5) + Bits(Significant(w), 6) + s;
        assert bits[2..7] == Bits(w.leading, 5);
        assert bits[7..13] == Bits(Significant(w), 6);
      }
    }
  }
}
