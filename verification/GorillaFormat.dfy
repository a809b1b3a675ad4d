/** The Gorilla series format on bit sequences: what the encoder emits for a
    point, what the decoder makes of the bits that follow, and that the second
    undoes the first. */
module GorillaFormat {
  import opened Words
  import opened Varint

  /** A data point; the float64 value is its 64-bit pattern. */
  datatype Point = Point(ts: int64, value: uint64)

  // ----- Encoder -----

  datatype EncoderState = EncoderState(
    t0: int64, t1: int64, t: int64, tDelta: uint64,
    v: uint64, leading: uint8, trailing: uint8)

  const FRESH_ENCODER := EncoderState(0, 0, 0, 0, 0, 0, 0)

  function DodBits(dod: int64): seq<bool> {
    if dod == 0 then [false]
    else if -63 <= dod <= 64 then [true, false] + Bits(U64(dod), 7)
    else if -255 <= dod <= 256 then [true, true, false] + Bits(U64(dod), 9)
    else if -2047 <= dod <= 2048 then [true, true, true, false] + Bits(U64(dod), 12)
    else [true, true, true, true] + Bits(U64(dod), 64)
  }

  /** Leading zeros of a difference, clamped to fit five bits. */
  function ClampedLeading(x: uint64): (l: nat)
    ensures l <= 31 && l <= LeadingZeros64(x)
  {
    if LeadingZeros64(x) >= 32 then 31 else LeadingZeros64(x)
  }

  /** The current window covers all significant bits of the difference. */
  predicate Reuses(e: EncoderState, x: uint64) {
    e.leading != 0xff && ClampedLeading(x) >= e.leading && TrailingZeros64(x) >= e.trailing
  }

  function VDelta(e: EncoderState, v: uint64): uint64 {
    Pow2Of64();
    XorBound(v, e.v, 64);
    Xor(v, e.v)
  }

  /** The window in force after writing value v. */
  function Rewindow(e: EncoderState, v: uint64): EncoderState {
    var x := VDelta(e, v);
    if x == 0 || Reuses(e, x) then e
    else
      NonzeroWindow(x);
      e.(leading := ClampedLeading(x), trailing := TrailingZeros64(x))
  }

  function ValueBits(e: EncoderState, v: uint64): seq<bool> {
    var x := VDelta(e, v);
    if x == 0 then [false]
    else if Reuses(e, x) then
      [true, false] + Bits(Shr(x, e.trailing), Significant(e))
    else
      var w := Rewindow(e, v);
      [true, true] + Bits(w.leading, 5) + Bits(Significant(w), 6) + Bits(Shr(x, w.trailing), Significant(w))
  }

  function Significant(e: EncoderState): nat {
    if e.leading + e.trailing <= 64 then 64 - e.leading - e.trailing else 0
  }

  function TimeDelta(e: EncoderState, ts: int64): uint64 {
    if e.t0 == 0 then 0
    else if e.t1 == 0 then U64(ts - e.t0)
    else U64(ts - e.t)
  }

  /** The bits one encodePoint call appends. */
  function PointBits(e: EncoderState, p: Point): seq<bool> {
    if e.t0 == 0 then BytesBits(VarintBytes(p.ts)) + Bits(p.value, 64)
    else if e.t1 == 0 then BytesBits(UvarintBytes(TimeDelta(e, p.ts))) + ValueBits(e, p.value)
    else DodBits(I64(TimeDelta(e, p.ts) - e.tDelta)) + ValueBits(e, p.value)
  }

  function Encoded(e: EncoderState, p: Point): EncoderState {
    var w := if e.t0 == 0 then e else Rewindow(e, p.value);
    w.(t0 := if e.t0 == 0 then p.ts else e.t0,
       t1 := if e.t0 != 0 && e.t1 == 0 then p.ts else e.t1,
       t := p.ts, tDelta := TimeDelta(e, p.ts), v := p.value)
  }

  function SeriesBits(e: EncoderState, ps: seq<Point>): seq<bool>
    decreases |ps|
  {
    if ps == [] then [] else PointBits(e, ps[0]) + SeriesBits(Encoded(e, ps[0]), ps[1..])
  }

  function EncodedAll(e: EncoderState, ps: seq<Point>): EncoderState
    decreases |ps|
  {
    if ps == [] then e else EncodedAll(Encoded(e, ps[0]), ps[1..])
  }

  lemma {:induction false} SeriesSnoc(e: EncoderState, ps: seq<Point>, p: Point)
    ensures EncodedAll(e, ps + [p]) == Encoded(EncodedAll(e, ps), p)
    ensures SeriesBits(e, ps + [p]) == SeriesBits(e, ps) + PointBits(EncodedAll(e, ps), p)
    decreases |ps|
  {
    if ps == [] {
      assert ps + [p] == [p];
    } else {
      assert (ps + [p])[1..] == ps[1..] + [p];
      SeriesSnoc(Encoded(e, ps[0]), ps[1..], p);
    }
  }

  // ----- Decoder -----

  datatype DecoderState = DecoderState(
    numRead: nat, t: int64, tDelta: uint64,
    v: uint64, leading: uint8, trailing: uint8)

  const FRESH_DECODER := DecoderState(0, 0, 0, 0, 0, 0)

  /** A reading step: the new state and the bits left, or not enough sound bits. */
  datatype Step<T> = Next(state: T, rest: seq<bool>) | Stuck

  /** The signed reading of an n-bit bucket: more than half means negative. */
  function Bucket(s: seq<bool>, n: nat): Step<int64>
    requires 0 < n <= 12
  {
    if |s| < n then Stuck
    else
      var b := FromBits(s[..n]);
      Next(I64(if b > Pow2(n - 1) then b - Pow2(n) else b), s[n..])
  }

  function ReadDod(s: seq<bool>): Step<int64> {
    if |s| >= 1 && !s[0] then Next(0, s[1..])
    else if |s| >= 2 && !s[1] then Bucket(s[2..], 7)
    else if |s| >= 3 && !s[2] then Bucket(s[3..], 9)
    else if |s| >= 4 && !s[3] then Bucket(s[4..], 12)
    else if |s| >= 68 then Next(I64(FromBits(s[4..68])), s[68..])
    else Stuck
  }

  function ReadXor(d: DecoderState, s: seq<bool>): Step<DecoderState> {
    var mbits := (64 - d.leading - d.trailing) % 0x100;
    if !(0 < mbits <= 64) || |s| < mbits then Stuck
    else
      var x := Shl64(FromBits(s[..mbits]), d.trailing);
      Pow2Of64();
      XorBound(d.v, x, 64);
      Next(d.(v := Xor(d.v, x)), s[mbits..])
  }

  function ReadWindow(d: DecoderState, s: seq<bool>): Step<DecoderState> {
    if |s| < 11 then Stuck
    else
      BitsOfFromBits(s[..5]);
      assert Pow2(5) == 32;
      var leading := FromBits(s[..5]);
      var stored := FromBits(s[5..11]);
      var mbits := if stored == 0 then 64 else stored;
      Next(d.(leading := leading, trailing := (64 - leading - mbits) % 0x100), s[11..])
  }

  function ReadValue(d: DecoderState, s: seq<bool>): Step<DecoderState> {
    if s == [] then Stuck
    else if !s[0] then Next(d, s[1..])
    else if |s| < 2 then Stuck
    else if !s[1] then ReadXor(d, s[2..])
    else
      var w := ReadWindow(d, s[2..]);
      if w.Stuck? then Stuck else ReadXor(w.state, w.rest)
  }

  /** binary.ReadUvarint on a stream that is not byte-aligned. */
  function ReadUvarintBits(s: seq<bool>): Step<uint64> {
    var r := ReadUvarint(ToBytes(s));
    if r.Value? && 8 * r.length <= |s| then Next(r.value, s[8 * r.length..]) else Stuck
  }

  /** One decodePoint call; the point read is (state.t, state.v). */
  function DecodePoint(d: DecoderState, s: seq<bool>): Step<DecoderState> {
    if d.numRead == 0 then
      var r := ReadUvarintBits(s);
      if r.Stuck? || |r.rest| < 64 then Stuck
      else
        BitsOfFromBits(r.rest[..64]);
        Pow2Of64();
        Next(d.(numRead := 1, t := UnZigZag(r.state), v := FromBits(r.rest[..64])), r.rest[64..])
    else if d.numRead == 1 then
      var r := ReadUvarintBits(s);
      if r.Stuck? then Stuck
      else
        var x := ReadValue(d.(tDelta := r.state, t := I64(d.t + I64(r.state))), r.rest);
        if x.Stuck? then Stuck else x.(state := x.state.(numRead := 2))
    else
      var r := ReadDod(s);
      if r.Stuck? then Stuck
      else
        var delta := U64(I64(d.tDelta) + r.state);
        ReadValue(d.(tDelta := delta, t := I64(d.t + I64(delta))), r.rest)
  }

  datatype Series = Points(points: seq<Point>) | Undecodable

  /** The first n points of the stream. */
  function DecodeSeries(d: DecoderState, s: seq<bool>, n: nat): Series
    decreases n
  {
    if n == 0 then Points([])
    else
      var r := DecodePoint(d, s);
      if r.Stuck? then Undecodable
      else
        var later := DecodeSeries(r.state, r.rest, n - 1);
        if later.Undecodable? then Undecodable
        else Points([Point(r.state.t, r.state.v)] + later.points)
  }

  // ----- Windows -----

  ghost predicate ValidWindow(leading: nat, trailing: nat) {
    leading <= 31 && leading + trailing < 64
  }

  /** A nonzero difference gives a valid window. */
  lemma NonzeroWindow(x: uint64)
    requires x != 0
    ensures ValidWindow(ClampedLeading(x), TrailingZeros64(x))
  {
    TrailingZerosDivide(x, 0);
  }

  /** The significant bits of x, cut out by a window that covers them, put back. */
  lemma WindowRoundTrip(x: uint64, l: nat, t: nat)
    requires x != 0 && ValidWindow(l, t)
    requires l <= LeadingZeros64(x) && t <= TrailingZeros64(x)
    ensures Shl64(FromBits(Bits(Shr(x, t), 64 - l - t)), t) == x
  {
    var m := 64 - l - t;
    LeadingZerosBound(x, l, t);
    TrailingZerosDivide(x, t);
    CutAndPaste(x, Pow2(t), Pow2(m));
    ShrValue(x, t);
    FromBitsOfBits(Shr(x, t), m);
    ShlIsMul(Shr(x, t), t);
    U64Small(x);
  }

  lemma LeadingZerosBound(x: uint64, l: nat, t: nat)
    requires l + t <= 64 && l <= LeadingZeros64(x)
    ensures x < Pow2(t) * Pow2(64 - l - t)
  {
    Pow2Of64();
    BitLenBound(x, 64);
    Pow2Monotone(BitLen(x), 64 - l);
    Pow2Add(t, 64 - l - t);
  }

  lemma CutAndPaste(x: nat, p: nat, q: nat)
    requires p >= 1 && x < p * q && x % p == 0
    ensures q >= 1 && (x / p) % q == x / p
    ensures (x / p) * p == x
  {
    DivLess(x, p, q);
  }
}
