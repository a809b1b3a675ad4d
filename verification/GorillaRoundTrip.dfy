/** Decoding a Gorilla series gives back what was encoded, and how large it gets. */
module GorillaRoundTrip {
  import opened Words
  import opened Varint
  import opened GorillaFormat

  // ----- Timestamps -----

  /** Reading an n-bit two's-complement bucket that covers dod. */
  lemma BucketRoundTrip(dod: int64, n: nat, rest: seq<bool>)
    requires n == 7 || n == 9 || n == 12
    requires 0 < dod + Pow2(n - 1) && dod <= Pow2(n - 1)
    ensures Bucket(Bits(U64(dod), n) + rest, n) == Next(dod, rest)
  {
    hide Bits, FromBits, U64, I64, Pow2;
    var bits, h := Bits(U64(dod), n), Pow2(n - 1);
    var s := bits + rest;
    assert s[..n] == bits && s[n..] == rest;
    FromBitsOfBits(U64(dod), n);
    SmallBucket(n);
    LowOfWord(dod, 2 * h);
    I64Small(dod);
  }

  lemma SmallBucket(n: nat)
    requires n == 7 || n == 9 || n == 12
    ensures Pow2(n) == 2 * Pow2(n - 1)
    ensures Pow2(n) == 0x80 || Pow2(n) == 0x200 || Pow2(n) == 0x1000
  {
    Pow2Table();
  }

  lemma LowOfWord(x: int64, p: nat)
    requires p == 0x80 || p == 0x200 || p == 0x1000
    requires 0 < x + p && x < p
    ensures U64(x) % p == if x >= 0 then x else x + p
  {
    if x >= 0 {
      U64Small(x);
    } else {
      U64Is(x, -1, x + 0x1_0000_0000_0000_0000);
      var q := 0x1_0000_0000_0000_0000 / p;
      DivModUnique(x + 0x1_0000_0000_0000_0000, p, q - 1, x + p);
    }
  }

  lemma I64Small(x: int64)
    ensures I64(x) == x
  {
    U64Small(x + 0x8000_0000_0000_0000);
  }

  lemma DodRoundTrip(dod: int64, rest: seq<bool>)
    ensures ReadDod(DodBits(dod) + rest) == Next(dod, rest)
  {
    hide Bits, U64, Bucket, Pow2, ReadDod;
    var word := U64(dod);
    Pow2Table();
    if dod == 0 {
      NoDod(rest);
    } else if -63 <= dod <= 64 {
      NarrowDod(2, Bits(word, 7), rest);
      BucketRoundTrip(dod, 7, rest);
    } else if -255 <= dod <= 256 {
      NarrowDod(3, Bits(word, 9), rest);
      BucketRoundTrip(dod, 9, rest);
    } else if -2047 <= dod <= 2048 {
      NarrowDod(4, Bits(word, 12), rest);
      BucketRoundTrip(dod, 12, rest);
    } else {
      WideDod(Bits(word, 64), rest);
      WordRoundTrip(word);
      I64OfU64(dod);
    }
  }

  function Prefix(k: nat): seq<bool>
    requires 2 <= k <= 4
  {
    if k == 2 then [true, false] else if k == 3 then [true, true, false] else [true, true, true, false]
  }

  lemma NoDod(rest: seq<bool>)
    ensures ReadDod([false] + rest) == Next(0, rest)
  {
    assert ([false] + rest)[1..] == rest;
  }

  lemma NarrowDod(k: nat, bits: seq<bool>, rest: seq<bool>)
    requires 2 <= k <= 4
    ensures ReadDod(Prefix(k) + bits + rest) == Bucket(bits + rest, if k == 2 then 7 else if k == 3 then 9 else 12)
  {
    hide Bucket;
    var s := Prefix(k) + bits + rest;
    assert s[k..] == bits + rest;
  }

  lemma WideDod(word: seq<bool>, rest: seq<bool>)
    requires |word| == 64
    ensures ReadDod([true, true, true, true] + word + rest) == Next(I64(FromBits(word)), rest)
  {
    Split([true, true, true, true], word, rest);
  }

  lemma WordRoundTrip(u: uint64)
    ensures FromBits(Bits(u, 64)) == u
  {
    Pow2Of64();
    FromBitsExact(u, 64);
  }

  // Wrap-around arithmetic: only the residue modulo 2^64 matters.

  lemma I64OfU64(x: int64)
    ensures I64(U64(x)) == x
  {
    if x >= 0 {
      U64Small(x);
      I64Small(x);
    } else {
      U64Is(x, -1, x + 0x1_0000_0000_0000_0000);
      U64Is(x + 0x1_8000_0000_0000_0000, 1, x + 0x8000_0000_0000_0000);
    }
  }

  lemma I64Congruent(x: int, k: int)
    ensures I64(x + k * 0x1_0000_0000_0000_0000) == I64(x)
  {
    U64Congruent(x + 0x8000_0000_0000_0000, k);
  }

  lemma Residues(x: int) returns (q: int, r: int)
    ensures U64(x) == x + q * 0x1_0000_0000_0000_0000
    ensures I64(x) == x + r * 0x1_0000_0000_0000_0000
  {
    q := -(x / 0x1_0000_0000_0000_0000);
    r := -((x + 0x8000_0000_0000_0000) / 0x1_0000_0000_0000_0000);
  }

  /** Adding the stored delta back gives the timestamp, even if the delta wrapped. */
  lemma DeltaRoundTrip(t: int64, ts: int64)
    ensures I64(t + I64(U64(ts - t))) == ts
  {
    var q, _ := Residues(ts - t);
    var _, r := Residues(U64(ts - t));
    I64Congruent(ts, q + r);
    I64Small(ts);
  }

  /** Adding the delta of deltas to the last delta gives the new delta. */
  lemma DeltaOfDeltaRoundTrip(last: uint64, delta: uint64)
    ensures U64(I64(last) + I64(delta - last)) == delta
  {
    var _, q := Residues(last);
    var _, r := Residues(delta - last);
    U64Congruent(delta, q + r);
    U64Small(delta);
  }

  lemma UvarintBitsRoundTrip(x: uint64, rest: seq<bool>)
    ensures ReadUvarintBits(BytesBits(UvarintBytes(x)) + rest) == Next(x, rest)
    ensures |UvarintBytes(x)| <= 10
  {
    ToBytesOfBytesBits(UvarintBytes(x), rest);
    UvarintRoundTrip(x, ToBytes(rest));
  }

  // ----- Values -----

  /** The two sides hold the same value and the same valid window. */
  ghost predicate SameWindow(e: EncoderState, d: DecoderState) {
    && e.v == d.v
    && e.leading == d.leading && e.trailing == d.trailing
    && ValidWindow(e.leading, e.trailing)
  }

  lemma XorRoundTrip(e: EncoderState, d: DecoderState, v: uint64, rest: seq<bool>)
    requires SameWindow(e, d) && VDelta(e, v) != 0 && Reuses(e, VDelta(e, v))
    ensures ReadXor(d, Bits(Shr(VDelta(e, v), e.trailing), Significant(e)) + rest) == Next(d.(v := v), rest)
  {
    hide Bits, FromBits, Shr, Shl64, LeadingZeros64, TrailingZeros64;
    var x, n := VDelta(e, v), Significant(e);
    var bits := Bits(Shr(x, e.trailing), n);
    var s := bits + rest;
    assert s[..n] == bits && s[n..] == rest;
    WindowRoundTrip(x, e.leading, e.trailing);
    XorRestores(e.v, v);
  }

  /** Five bits of leading zeros and six of significant bits name the window. */
  lemma WindowHeaderRoundTrip(d: DecoderState, l: nat, t: nat, rest: seq<bool>)
    requires ValidWindow(l, t)
    ensures ReadWindow(d, Bits(l, 5) + Bits(64 - l - t, 6) + rest) == Next(d.(leading := l, trailing := t), rest)
  {
    var m := 64 - l - t;
    HeaderFields(l, m);
    ReadHeader(d, Bits(l, 5), Bits(m, 6), rest, l, m);
  }

  lemma ReadHeader(d: DecoderState, x: seq<bool>, y: seq<bool>, rest: seq<bool>, l: nat, m: nat)
    requires |x| == 5 && |y| == 6 && l <= 31 && 0 < m <= 64 - l
    requires FromBits(x) == l && FromBits(y) == if m == 64 then 0 else m
    ensures ReadWindow(d, x + y + rest) == Next(d.(leading := l, trailing := 64 - l - m), rest)
  {
    hide FromBits;
    Split(x, y, rest);
    var s, t := x + y + rest, 64 - l - m;
    assert s[..5] == x && s[5..11] == y && s[11..] == rest;
    assert t % 0x100 == t;
  }

  lemma HeaderFields(l: nat, m: nat)
    requires l <= 31 && 0 < m <= 64
    ensures FromBits(Bits(l, 5)) == l
    ensures FromBits(Bits(m, 6)) == if m == 64 then 0 else m
  {
    Pow2Table();
    FromBitsExact(l, 5);
    if m == 64 {
      FromBitsOfBits(64, 6);
    } else {
      FromBitsExact(m, 6);
    }
  }

  lemma Split<T>(x: seq<T>, y: seq<T>, z: seq<T>)
    ensures (x + y + z)[..|x|] == x
    ensures (x + y + z)[|x|..|x| + |y|] == y
    ensures (x + y + z)[|x| + |y|..] == z
  {
  }

  /** From any shared window, the value comes back and the windows stay shared. */
  lemma ValueRoundTrip(e: EncoderState, d: DecoderState, v: uint64, rest: seq<bool>)
    requires SameWindow(e, d)
    ensures SameWindow(Rewindow(e, v).(v := v), d.(v := v, leading := Rewindow(e, v).leading, trailing := Rewindow(e, v).trailing))
    ensures ReadValue(d, ValueBits(e, v) + rest)
         == Next(d.(v := v, leading := Rewindow(e, v).leading, trailing := Rewindow(e, v).trailing), rest)
  {
    var x, s := VDelta(e, v), ValueBits(e, v) + rest;
    if x == 0 {
      XorRestores(e.v, v);
      assert s[1..] == rest;
    } else if Reuses(e, x) {
      XorRoundTrip(e, d, v, rest);
      assert s[2..] == Bits(Shr(x, e.trailing), Significant(e)) + rest;
    } else {
      NewWindowRoundTrip(e, d, v, rest);
    }
  }

  lemma NewWindowRoundTrip(e: EncoderState, d: DecoderState, v: uint64, rest: seq<bool>)
    requires SameWindow(e, d) && VDelta(e, v) != 0 && !Reuses(e, VDelta(e, v))
    ensures var w := Rewindow(e, v);
            ValidWindow(w.leading, w.trailing)
            && ReadValue(d, ValueBits(e, v) + rest) == Next(d.(v := v, leading := w.leading, trailing := w.trailing), rest)
  {
    hide Bits, Shr, ReadWindow, ReadXor, ReadValue, ValueBits, LeadingZeros64, TrailingZeros64, Xor;
    var x, w := VDelta(e, v), Rewindow(e, v);
    NonzeroWindow(x);
    var dw := d.(leading := w.leading, trailing := w.trailing);
    var header, significant := Bits(w.leading, 5) + Bits(Significant(w), 6), Bits(Shr(x, w.trailing), Significant(w));
    XorRoundTrip(w, dw, v, rest);
    WindowHeaderRoundTrip(d, w.leading, w.trailing, significant + rest);
    NewWindowBits(e, v, rest);
    ReadNewValue(d, header + (significant + rest));
  }

  lemma NewWindowBits(e: EncoderState, v: uint64, rest: seq<bool>)
    requires VDelta(e, v) != 0 && !Reuses(e, VDelta(e, v))
    ensures var w := Rewindow(e, v);
            var header, significant := Bits(w.leading, 5) + Bits(Significant(w), 6), Bits(Shr(VDelta(e, v), w.trailing), Significant(w));
            ValueBits(e, v) + rest == [true, true] + (header + (significant + rest))
  {
    hide Bits, Shr, Rewindow, VDelta, Reuses;
  }

  lemma ReadNewValue(d: DecoderState, t: seq<bool>)
    ensures var w := ReadWindow(d, t);
            ReadValue(d, [true, true] + t) == if w.Stuck? then Stuck else ReadXor(w.state, w.rest)
  {
    hide ReadWindow, ReadXor;
    assert ([true, true] + t)[2..] == t;
  }

  // ----- Points and series -----

  /** Encoder and decoder after n points of the same series. */
  ghost predicate Paired(e: EncoderState, d: DecoderState, n: nat) {
    && ValidWindow(e.leading, e.trailing)
    && e.leading == d.leading && e.trailing == d.trailing
    && d.numRead == (if n < 2 then n else 2)
    && (e.t0 == 0 <==> n == 0)
    && (n > 0 ==> e.t == d.t && e.v == d.v)
    && (n == 0 ==> e.t1 == 0)
    && (n == 1 ==> e.t1 == 0 && e.t == e.t0)
    && (n > 1 ==> e.t1 != 0 && e.tDelta == d.tDelta)
  }

  /** A point comes back from any paired states; they stay paired unless a zero
      timestamp in one of the first two places reads as "not yet set". */
  lemma PointRoundTrip(e: EncoderState, d: DecoderState, n: nat, p: Point, rest: seq<bool>)
    requires Paired(e, d, n)
    ensures var r := DecodePoint(d, PointBits(e, p) + rest);
            r.Next? && r.rest == rest && Point(r.state.t, r.state.v) == p
            && (n >= 2 || p.ts != 0 ==> Paired(Encoded(e, p), r.state, n + 1))
  {
    if n == 0 {
      FirstPointRoundTrip(e, d, p, rest);
    } else if n == 1 {
      SecondPointRoundTrip(e, d, p, rest);
    } else {
      LaterPointRoundTrip(e, d, p, rest);
    }
  }

  /** The decoder after a point whose value went through the window. */
  function Advanced(d: DecoderState, e: EncoderState, p: Point, delta: uint64): DecoderState {
    var w := Rewindow(e, p.value);
    DecoderState(2, p.ts, delta, p.value, w.leading, w.trailing)
  }

  lemma SecondPointRoundTrip(e: EncoderState, d: DecoderState, p: Point, rest: seq<bool>)
    requires Paired(e, d, 1)
    ensures var w := Rewindow(e, p.value); ValidWindow(w.leading, w.trailing)
    ensures DecodePoint(d, PointBits(e, p) + rest) == Next(Advanced(d, e, p, TimeDelta(e, p.ts)), rest)
  {
    hide UvarintBytes, ReadUvarintBits, ValueBits, ReadValue, Rewindow, I64, U64, BytesBits;
    var delta := TimeDelta(e, p.ts);
    var valueBits := ValueBits(e, p.value) + rest;
    assert PointBits(e, p) + rest == BytesBits(UvarintBytes(delta)) + valueBits;
    UvarintBitsRoundTrip(delta, valueBits);
    DeltaRoundTrip(e.t0, p.ts);
    ValueRoundTrip(e, d.(tDelta := delta, t := p.ts), p.value, rest);
  }

  lemma LaterPointRoundTrip(e: EncoderState, d: DecoderState, p: Point, rest: seq<bool>)
    requires Paired(e, d, 2)
    ensures var w := Rewindow(e, p.value); ValidWindow(w.leading, w.trailing)
    ensures DecodePoint(d, PointBits(e, p) + rest) == Next(Advanced(d, e, p, TimeDelta(e, p.ts)), rest)
  {
    hide DodBits, ReadDod, ValueBits, ReadValue, Rewindow, I64, U64;
    var delta := TimeDelta(e, p.ts);
    var valueBits := ValueBits(e, p.value) + rest;
    assert PointBits(e, p) + rest == DodBits(I64(delta - e.tDelta)) + valueBits;
    DodRoundTrip(I64(delta - e.tDelta), valueBits);
    DeltaOfDeltaRoundTrip(e.tDelta, delta);
    DeltaRoundTrip(e.t, p.ts);
    ValueRoundTrip(e, d.(tDelta := delta, t := p.ts), p.value, rest);
  }

  lemma FirstPointRoundTrip(e: EncoderState, d: DecoderState, p: Point, rest: seq<bool>)
    requires e.t0 == 0 && d.numRead == 0
    ensures DecodePoint(d, PointBits(e, p) + rest) == Next(d.(numRead := 1, t := p.ts, v := p.value), rest)
  {
    var word := Bits(p.value, 64);
    var after := word + rest;
    assert PointBits(e, p) + rest == BytesBits(VarintBytes(p.ts)) + after;
    UvarintBitsRoundTrip(ZigZag(p.ts), after);
    ZigZagRoundTrip(p.ts);
    assert after[..64] == word && after[64..] == rest;
    WordRoundTrip(p.value);
  }

  /** Zero in one of the first two timestamps is safe only on the last point. */
  ghost predicate Encodable(ps: seq<Point>, n: nat := 0) {
    forall i | 0 <= i < |ps| - 1 && n + i < 2 :: ps[i].ts != 0
  }

  lemma {:induction false} SeriesRoundTripFrom(e: EncoderState, d: DecoderState, n: nat, ps: seq<Point>, rest: seq<bool>)
    requires Paired(e, d, n) && Encodable(ps, n)
    ensures DecodeSeries(d, SeriesBits(e, ps) + rest, |ps|) == Points(ps)
    decreases |ps|
  {
    hide PointBits, DecodePoint, Encoded;
    if ps != [] {
      var p, later := ps[0], SeriesBits(Encoded(e, ps[0]), ps[1..]) + rest;
      assert SeriesBits(e, ps) + rest == PointBits(e, p) + later;
      PointRoundTrip(e, d, n, p, later);
      if |ps| == 1 {
        assert ps == [p];
      } else {
        var r := DecodePoint(d, PointBits(e, p) + later);
        assert forall i | 0 <= i < |ps| - 1 :: ps[1..][i] == ps[i + 1];
        SeriesRoundTripFrom(Encoded(e, p), r.state, n + 1, ps[1..], rest);
        assert ps == [p] + ps[1..];
      }
    }
  }

  /** The series comes back, whatever bits follow it. */
  lemma SeriesRoundTrip(ps: seq<Point>, rest: seq<bool>)
    requires Encodable(ps)
    ensures DecodeSeries(FRESH_DECODER, SeriesBits(FRESH_ENCODER, ps) + rest, |ps|) == Points(ps)
  {
    SeriesRoundTripFrom(FRESH_ENCODER, FRESH_DECODER, 0, ps, rest);
  }

  // ----- Zero timestamps -----

  /** A zero first timestamp leaves the encoder in its initial phase, so the
      second timestamp is written as a ZigZag number but read as a plain delta. */
  lemma ZeroStartBreaks(ps: seq<Point>, rest: seq<bool>)
    requires |ps| >= 2 && ps[0].ts == 0 && ps[1].ts != 0
    ensures DecodeSeries(FRESH_DECODER, SeriesBits(FRESH_ENCODER, ps) + rest, |ps|) != Points(ps)
  {
    hide DecodePoint, PointBits, Encoded;
    var e := Encoded(FRESH_ENCODER, ps[0]);
    var s1 := SeriesBits(e, ps[1..]) + rest;
    assert SeriesBits(FRESH_ENCODER, ps) + rest == PointBits(FRESH_ENCODER, ps[0]) + s1;
    FirstPointRoundTrip(FRESH_ENCODER, FRESH_DECODER, ps[0], s1);
    var d := FRESH_DECODER.(numRead := 1, t := ps[0].ts, v := ps[0].value);
    ZeroKeepsPhase(ps[0]);
    var s2 := SeriesBits(Encoded(e, ps[1]), ps[1..][1..]) + rest;
    assert s1 == PointBits(e, ps[1]) + s2;
    SecondReadsZigZag(e, d, ps[1], s2);
    SecondOf(d, s1, |ps| - 1);
  }

  lemma ZeroKeepsPhase(p: Point)
    requires p.ts == 0
    ensures Encoded(FRESH_ENCODER, p).t0 == 0
  {
  }

  lemma SecondOf(d: DecoderState, s: seq<bool>, n: nat)
    requires n > 0
    ensures var all := DecodeSeries(d, s, n);
            all.Points? ==> |all.points| > 0 && DecodePoint(d, s).Next? && all.points[0].ts == DecodePoint(d, s).state.t
  {
  }

  lemma SecondReadsZigZag(e: EncoderState, d: DecoderState, p: Point, rest: seq<bool>)
    requires e.t0 == 0 && d.numRead == 1 && d.t == 0 && p.ts != 0
    ensures var r := DecodePoint(d, PointBits(e, p) + rest); r.Next? ==> r.state.t != p.ts
  {
    hide ReadUvarintBits, ReadValue, BytesBits, UvarintBytes, Bits;
    var after := Bits(p.value, 64) + rest;
    assert PointBits(e, p) + rest == BytesBits(VarintBytes(p.ts)) + after;
    UvarintBitsRoundTrip(ZigZag(p.ts), after);
    ZigZagIsNotPlain(p.ts);
    ReadValueKeepsTime(d.(tDelta := ZigZag(p.ts), t := I64(d.t + I64(ZigZag(p.ts)))), after);
  }

  lemma ReadValueKeepsTime(d: DecoderState, s: seq<bool>)
    ensures var r := ReadValue(d, s); r.Next? ==> r.state.t == d.t
  {
    hide FromBits, Xor, Shl64;
  }

  lemma ZigZagIsNotPlain(x: int64)
    requires x != 0
    ensures I64(0 + I64(ZigZag(x))) != x
  {
    var z: int := ZigZag(x);
    I64Small(I64(z));
    if z < 0x8000_0000_0000_0000 {
      I64Small(z);
    } else {
      I64Congruent(z - 0x1_0000_0000_0000_0000, 1);
      I64Small(z - 0x1_0000_0000_0000_0000);
    }
  }

  /** For strictly ascending timestamps from zero on, a series comes back
      exactly when it has one point at most or does not start at zero. */
  lemma AscendingRoundTripIff(ps: seq<Point>, rest: seq<bool>)
    requires forall i, j | 0 <= i < j < |ps| :: ps[i].ts < ps[j].ts
    requires |ps| > 0 ==> ps[0].ts >= 0
    ensures DecodeSeries(FRESH_DECODER, SeriesBits(FRESH_ENCODER, ps) + rest, |ps|) == Points(ps)
       <==> |ps| <= 1 || ps[0].ts != 0
  {
    if |ps| <= 1 || ps[0].ts != 0 {
      SeriesRoundTrip(ps, rest);
    } else {
      ZeroStartBreaks(ps, rest);
    }
  }

  // ----- Size -----

  ghost predicate OpenWindow(e: EncoderState) {
    e.leading == 0 && e.trailing == 0
  }

  datatype Operation = Encode(p: Point) | Flush

  function AfterOperation(e: EncoderState, op: Operation): EncoderState {
    match op
    case Encode(p) => Encoded(e, p)
    case Flush => FRESH_ENCODER
  }

  function AfterOperations(e: EncoderState, ops: seq<Operation>): EncoderState
    decreases |ops|
  {
    if ops == [] then e else AfterOperations(AfterOperation(e, ops[0]), ops[1..])
  }

  /** From the 0/0 start no run of encodes and flushes ever opens a new window. */
  lemma {:induction false} WindowStaysOpen(e: EncoderState, ops: seq<Operation>)
    requires OpenWindow(e)
    ensures OpenWindow(AfterOperations(e, ops))
    decreases |ops|
  {
    if ops != [] {
      WindowStaysOpen(AfterOperation(e, ops[0]), ops[1..]);
    }
  }

  /** An unchanged value costs one bit, a changed one 66. */
  lemma ValueCost(e: EncoderState, v: uint64)
    requires OpenWindow(e)
    ensures |ValueBits(e, v)| == if v == e.v then 1 else 66
  {
    hide Bits, Shr;
    XorRestores(e.v, v);
  }

  lemma PointCost(e: EncoderState, p: Point)
    requires OpenWindow(e)
    ensures OpenWindow(Encoded(e, p))
    ensures |PointBits(e, p)| <= if e.t0 == 0 then 144 else if e.t1 == 0 then 146 else 134
  {
    hide Bits, BytesBits, UvarintBytes, ValueBits, U64;
    ValueCost(e, p.value);
    UvarintRoundTrip(ZigZag(p.ts), []);
    UvarintRoundTrip(TimeDelta(e, p.ts), []);
  }

  lemma {:induction false} LaterCost(e: EncoderState, ps: seq<Point>)
    requires OpenWindow(e) && e.t0 != 0 && e.t1 != 0
    ensures |SeriesBits(e, ps)| <= 134 * |ps|
    decreases |ps|
  {
    hide PointBits;
    if ps != [] {
      PointCost(e, ps[0]);
      LaterCost(Encoded(e, ps[0]), ps[1..]);
    }
  }

  /** The worst case of a whole series. */
  lemma SeriesCost(ps: seq<Point>)
    requires |ps| >= 2 && Encodable(ps)
    ensures |SeriesBits(FRESH_ENCODER, ps)| <= 144 + 146 + 134 * (|ps| - 2)
  {
    hide PointBits;
    var e1 := Encoded(FRESH_ENCODER, ps[0]);
    var e2 := Encoded(e1, ps[1]);
    PointCost(FRESH_ENCODER, ps[0]);
    PointCost(e1, ps[1]);
    assert ps[1..][1..] == ps[2..];
    assert SeriesBits(e1, ps[1..]) == PointBits(e1, ps[1]) + SeriesBits(e2, ps[2..]);
    if |ps| > 2 {
      LaterCost(e2, ps[2..]);
    }
  }
}
