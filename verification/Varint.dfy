/** The base-128 and ZigZag varints of Go's encoding/binary. */
module Varint {
  import opened Words

  datatype VarintError = EndOfInput | Overflow

  datatype Decoded =
    | Value(value: uint64, length: nat)
    | Failed(error: VarintError)

  /** binary.MaxVarintLen64 */
  const MAX_VARINT_LEN64: nat := 10

  // ----- Encoding -----

  /** Seven bits a byte, least significant group first, the top bit set on all but the last. */
  function UvarintBytes(x: nat): (bs: seq<uint8>)
    ensures bs != []
  {
    if x < 0x80 then [x] else [x % 0x80 + 0x80] + UvarintBytes(x / 0x80)
  }

  function ZigZag(x: int64): uint64 {
    if x >= 0 then 2 * x else -2 * x - 1
  }

  function UnZigZag(ux: uint64): int64 {
    if ux % 2 == 0 then ux / 2 else -(ux / 2) - 1
  }

  function VarintBytes(x: int64): (bs: seq<uint8>)
    ensures bs != []
  {
    UvarintBytes(ZigZag(x))
  }

  /** binary.PutUvarint */
  method PutUvarint(x: uint64) returns (buf: seq<uint8>)
    ensures buf == UvarintBytes(x)
  {
    hide Or, Shr;
    buf := [];
    var w: uint64 := x;
    while w >= 0x80
      invariant buf + UvarintBytes(w) == UvarintBytes(x)
    {
      ContinuationByte(w);
      ghost var done := buf;
      buf := buf + [Or(w % 0x100, 0x80)];
      assert done + UvarintBytes(w) == buf + UvarintBytes(w / 0x80);
      w := Shr(w, 7);
    }
    buf := buf + [w];
  }

  /** binary.PutVarint: `uint64(x) << 1`, complemented when x is negative. */
  method PutVarint(x: int64) returns (buf: seq<uint8>)
    ensures buf == VarintBytes(x)
  {
    var ux := U64(2 * U64(x));
    ShiftedOnce(x);
    if x < 0 {
      ux := 0xFFFF_FFFF_FFFF_FFFF - ux;
    }
    buf := PutUvarint(ux);
  }

  lemma ShiftedOnce(x: int64)
    ensures U64(2 * U64(x)) == if x >= 0 then 2 * x else 2 * x + 0x1_0000_0000_0000_0000
  {
    if x >= 0 {
      U64Small(x);
      U64Small(2 * x);
    } else {
      U64Is(x, -1, x + 0x1_0000_0000_0000_0000);
      U64Is(2 * (x + 0x1_0000_0000_0000_0000), 1, 2 * x + 0x1_0000_0000_0000_0000);
    }
  }

  lemma ContinuationByte(w: nat)
    ensures Or(w % 0x100, 0x80) == w % 0x80 + 0x80
    ensures Shr(w, 7) == w / 0x80
  {
    var p := Pow2(7);
    assert p == 0x80;
    ShrValue(w, 7);
    OrTopBit(w % p, 7);
    LowSevenBits(w);
  }

  lemma {:induction false} OrCommutes(a: nat, b: nat)
    ensures Or(a, b) == Or(b, a)
  {
    if a != 0 || b != 0 {
      OrCommutes(a / 2, b / 2);
    }
  }

  lemma LowSevenBits(w: nat)
    ensures w % 0x100 == w % 0x80 || w % 0x100 == 0x80 + w % 0x80
  {
    var q, r := w / 0x100, w % 0x100;
    if r < 0x80 {
      DivModUnique(w, 0x80, 2 * q, r);
    } else {
      DivModUnique(w, 0x80, 2 * q + 1, r - 0x80);
    }
  }

  /** OR with 2^k sets bit k, whether or not it was set. */
  lemma {:induction false} OrTopBit(low: nat, k: nat)
    requires low < Pow2(k)
    ensures Or(low, Pow2(k)) == Pow2(k) + low
    ensures Or(Pow2(k) + low, Pow2(k)) == Pow2(k) + low
    decreases k
  {
    if k != 0 {
      OrTopBit(low / 2, k - 1);
    }
  }

  // ----- Decoding -----

  /** binary.ReadUvarint over the bytes still to come, i of which were read before. */
  function ReadUvarint(bs: seq<uint8>, i: nat := 0): (r: Decoded)
    ensures r.Value? ==> r.length <= |bs|
    decreases |bs|
  {
    if i >= MAX_VARINT_LEN64 then Failed(Overflow)
    else if bs == [] then Failed(EndOfInput)
    else if bs[0] < 0x80 then
      if i == MAX_VARINT_LEN64 - 1 && bs[0] > 1 then Failed(Overflow) else Value(bs[0], 1)
    else
      var r := ReadUvarint(bs[1..], i + 1);
      if r.Failed? then r else Value(U64(bs[0] - 0x80 + 0x80 * r.value), 1 + r.length)
  }

  /** A number of more than 64 bits is refused: nine bytes that go on, and a tenth above one. */
  lemma {:induction false} UvarintOverflows(bs: seq<uint8>, i: nat)
    requires i < 10 <= |bs| + i && (forall k | 0 <= k < 9 - i :: bs[k] >= 0x80) && bs[9 - i] > 1
    ensures ReadUvarint(bs, i) == Failed(Overflow)
    decreases |bs|
  {
    if i < 9 {
      UvarintOverflows(bs[1..], i + 1);
    }
  }

  lemma ZigZagRoundTrip(x: int64)
    ensures UnZigZag(ZigZag(x)) == x
  {
  }

  /** Values that fit after i groups of seven bits. */
  lemma {:induction false} UvarintRoundTripFrom(x: nat, rest: seq<uint8>, i: nat)
    requires i < 10 && x < Pow2(64 - 7 * i)
    ensures |UvarintBytes(x)| <= 10 - i
    ensures x < 0x1_0000_0000_0000_0000
    ensures ReadUvarint(UvarintBytes(x) + rest, i) == Value(x, |UvarintBytes(x)|)
    decreases x
  {
    hide Pow2;
    Pow2Table();
    Pow2Fits(64 - 7 * i);
    var bs := UvarintBytes(x) + rest;
    if i == 9 {
      assert 64 - 7 * i == 1;
    } else if x >= 0x80 {
      Pow2Add(7, 57 - 7 * i);
      DivLess(x, 0x80, Pow2(57 - 7 * i));
      UvarintRoundTripFrom(x / 0x80, rest, i + 1);
      assert bs[1..] == UvarintBytes(x / 0x80) + rest;
    }
  }

  /** Every uint64 reads back, whatever follows, from at most ten bytes. */
  lemma UvarintRoundTrip(x: uint64, rest: seq<uint8>)
    ensures |UvarintBytes(x)| <= MAX_VARINT_LEN64
    ensures ReadUvarint(UvarintBytes(x) + rest) == Value(x, |UvarintBytes(x)|)
  {
    Pow2Of64();
    UvarintRoundTripFrom(x, rest, 0);
  }

  /** A varint cut short reads as the end of input, never as another value. */
  lemma {:induction false} UvarintTorn(x: nat, k: nat, i: nat)
    requires k < |UvarintBytes(x)| <= 10 - i
    ensures ReadUvarint(UvarintBytes(x)[..k], i) == Failed(EndOfInput)
    decreases k
  {
    if k > 0 {
      UvarintTorn(x / 0x80, k - 1, i + 1);
      assert UvarintBytes(x)[..k][1..] == UvarintBytes(x / 0x80)[..k - 1];
    }
  }
}
