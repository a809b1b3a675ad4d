/** The bit writer and the buffered bit reader under the Gorilla codec.
    Both refine plain bit sequences: the writer appends to `Written()`, the
    reader takes bits off the front of `Unread()`. */
module BitStream {
  import opened Words

  // ----- Writer -----

  class BitWriter {
    var stream: seq<uint8>
    /** Free bits in the last byte; 8 after a write of whole bytes. */
    var count: uint8

    ghost predicate Valid()
      reads this
    {
      && count <= 8
      && (count > 0 ==> stream != [])
      && (stream != [] ==> LowZero(stream[|stream| - 1], count))
    }

    /** Everything written since the last reset. */
    ghost function Written(): (s: seq<bool>)
      requires Valid()
      reads this
      ensures |s| == 8 * |stream| - count
    {
      if stream == [] then []
      else BytesBits(stream[..|stream| - 1]) + Bits(stream[|stream| - 1], 8)[..8 - count]
    }

    constructor ()
      ensures Valid() && Written() == [] && stream == []
    {
      stream, count := [], 0;
    }

    lemma WrittenIsPrefix()
      requires Valid()
      ensures Written() <= BytesBits(stream)
      ensures |stream| <= |Written()| / 8 + 1
      ensures Written() != [] ==> stream != []
    {
    }

    method Reset()
      modifies this
      ensures Valid() && Written() == [] && stream == []
    {
      stream, count := [], 0;
    }

    /** Opens a fresh byte when the last one is full. */
    method Extend()
      requires Valid()
      modifies this
      ensures Valid() && count > 0 && Written() == old(Written())
    {
      if count == 0 {
        BitOfZeroAll();
        ghost var whole := stream;
        stream, count := stream + [0], 8;
        assert stream[..|stream| - 1] == whole;
      }
    }

    method WriteBit(bit: bool)
      requires Valid()
      modifies this
      ensures Valid() && Written() == old(Written()) + [bit]
    {
      hide Bits, BytesBits, Or, Shl8;
      Extend();
      var i := |stream| - 1;
      SetBit(stream[i], count);
      ghost var init := stream[..i];
      if bit {
        stream := stream[i := Or(stream[i], Shl8(1, count - 1))];
      }
      assert stream[..i] == init;
      count := count - 1;
    }

    method WriteByte(byt: uint8)
      requires Valid()
      modifies this
      ensures Valid() && Written() == old(Written()) + Bits(byt, 8)
    {
      hide Bits, Or, Shr, Shl8;
      Extend();
      var i := |stream| - 1;
      FillByte(stream[i], byt, count);
      SpillByte(byt, count);
      ghost var init, last := stream[..i], stream[i];
      var full, spill := Or(stream[i], Shr(byt, 8 - count)), Shl8(byt, count);
      stream := stream[i := full] + [spill];
      assert stream[..i + 1] == init + [full];
      BytesBitsSnoc(init, full);
      Reassociate(BytesBits(init), Bits(last, 8)[..8 - count], Bits(byt, 8), count);
    }

    /** Appends the low nbits bits of u, most significant first. */
    method WriteBits(u: uint64, nbits: nat)
      requires Valid() && nbits <= 64
      modifies this
      ensures Valid() && Written() == old(Written()) + Bits(u, nbits)
    {
      hide Bits, Shl64, Shr;
      var w, n := Shl64(u, 64 - nbits), nbits;
      BitsShl64(u, 64 - nbits);
      ghost var target := Written() + Bits(u, nbits);
      while n >= 8
        invariant Valid() && 0 <= n <= nbits
        invariant Written() + Bits(w, 64)[..n] == target
      {
        TopByte(w);
        ShiftOut(Written(), w, 8, n);
        WriteByte(Shr(w, 56) % 0x100);
        w, n := Shl64(w, 8), n - 8;
      }
      while n > 0
        invariant Valid() && 0 <= n <= nbits
        invariant Written() + Bits(w, 64)[..n] == target
      {
        TopBit(w);
        ShiftOut(Written(), w, 1, n);
        WriteBit(Shr(w, 63) == 1);
        w, n := Shl64(w, 1), n - 1;
      }
      assert Written() + [] == Written();
    }
  }

  // ----- Reader -----

  datatype Read<T> = Got(value: T) | Eof

  class BitReader {
    const stream: seq<uint8>
    var streamOffset: nat
    /** The low `valid` bits of the buffer are the next bits to read. */
    var buffer: uint64
    var valid: uint8

    ghost predicate Valid()
      reads this
    {
      streamOffset <= |stream|
    }

    /** `valid` has not wrapped around. */
    ghost predicate InSync()
      reads this
    {
      Valid() && valid <= 64
    }

    /** The bits still to come. */
    ghost function Unread(): (s: seq<bool>)
      requires InSync()
      reads this
      ensures |s| == valid + 8 * (|stream| - streamOffset)
    {
      Bits(buffer, valid) + BytesBits(stream[streamOffset..])
    }

    constructor (stream: seq<uint8>)
      ensures InSync() && Unread() == BytesBits(stream) && this.stream == stream
    {
      this.stream := stream;
      streamOffset, buffer, valid := 0, 0, 0;
    }

    method ReadBitFast() returns (r: Read<bool>)
      requires Valid()
      modifies this
      ensures Valid() && (r.Eof? <==> old(valid) == 0)
      ensures r.Eof? ==> valid == 0 && streamOffset == old(streamOffset)
      ensures old(InSync()) ==> InSync()
      ensures old(InSync()) && r.Got? ==> old(Unread()) == [r.value] + Unread()
    {
      if valid == 0 {
        return Eof;
      }
      valid := valid - 1;
      if valid < 64 {
        FrontBit(buffer, valid);
      }
      var bitmask := Shl64(1, valid);
      return Got(And(buffer, bitmask) != 0);
    }

    method ReadBit() returns (r: Read<bool>)
      requires Valid()
      modifies this
      ensures Valid() && (old(InSync()) ==> InSync())
      ensures old(InSync()) ==> (r.Eof? <==> old(Unread()) == [])
      ensures old(InSync()) && r.Got? ==> old(Unread()) == [r.value] + Unread()
    {
      if valid == 0 {
        var ok := LoadNextBuffer(1);
        if !ok {
          return Eof;
        }
      }
      r := ReadBitFast();
    }

    method ReadBitsFast(nbits: uint8) returns (r: Read<uint64>)
      requires Valid()
      modifies this
      ensures Valid() && (r.Eof? <==> nbits > old(valid))
      ensures r.Eof? ==> valid == old(valid) && streamOffset == old(streamOffset) && buffer == old(buffer)
      ensures old(InSync()) ==> InSync()
      ensures old(InSync()) && r.Got? ==> TakenOff(old(Unread()), nbits, r.value, Unread())
    {
      if nbits > valid {
        return Eof;
      }
      if valid <= 64 {
        FrontBits(buffer, valid, nbits, BytesBits(stream[streamOffset..]));
      }
      var bitmask := Mask64(nbits);
      valid := valid - nbits;
      AndBound(Shr(buffer, valid), bitmask);
      return Got(And(Shr(buffer, valid), bitmask));
    }

    /** With nbits bits left the next nbits come out. With fewer left the call
        reports the end exactly when the buffer or the stream is used up; else
        `valid - nbits` wraps around and the value is not in the stream. */
    method ReadBits(nbits: uint8) returns (r: Read<uint64>)
      requires Valid()
      modifies this
      ensures Valid()
      ensures old(InSync()) && 0 < nbits <= 64 && nbits <= |old(Unread())| ==>
        InSync() && r.Got? && TakenOff(old(Unread()), nbits, r.value, Unread())
      ensures old(InSync()) && |old(Unread())| < nbits <= 64 ==>
        (r.Eof? <==> old(valid) == 0 || old(streamOffset) == |stream|)
    {
      if valid == 0 {
        assert Unread() == BytesBits(stream[streamOffset..]);
        var ok := LoadNextBuffer(nbits);
        if !ok {
          return Eof;
        }
      }
      if nbits <= valid {
        r := ReadBitsFast(nbits);
      } else {
        r := ReadAcross(nbits);
      }
    }

    /** All that is left of this buffer, and a part of the next one. */
    method ReadAcross(nbits: uint8) returns (r: Read<uint64>)
      requires Valid() && valid < nbits
      modifies this
      ensures Valid()
      ensures old(InSync()) && 0 < nbits <= 64 && nbits <= |old(Unread())| ==>
        InSync() && r.Got? && TakenOff(old(Unread()), nbits, r.value, Unread())
      ensures old(InSync()) && |old(Unread())| < nbits <= 64 ==> (r.Eof? <==> old(streamOffset) == |stream|)
    {
      hide Bits, BytesBits, FromBits, Or, And, Shr, Shl64, Mask64;
      ghost var buffer0, valid0, later := buffer, valid, BytesBits(stream[streamOffset..]);
      var bitmask := Mask64(valid);
      var n: uint8 := nbits - valid;
      var v := Shl64(And(buffer, bitmask), n);
      valid := 0;
      var ok := LoadNextBuffer(n);
      if !ok {
        return Eof;
      }
      var shift := (valid - n) % 0x100;
      bitmask := Mask64(n);
      JoinFits(v, Shr(buffer, shift), bitmask);
      v := Or(v, And(Shr(buffer, shift), bitmask));
      if nbits <= 64 && n <= valid {
        assert shift == valid - n;
        Join(buffer0, valid0, buffer, valid, n, BytesBits(stream[streamOffset..]));
        assert TakenOff(Bits(buffer0, valid0) + later, nbits, v, Bits(buffer, shift) + BytesBits(stream[streamOffset..]));
      }
      valid := shift;
      return Got(v);
    }

    method ReadByte() returns (r: Read<uint8>)
      requires Valid()
      modifies this
      ensures Valid()
      ensures old(InSync()) && 8 <= |old(Unread())| ==>
        InSync() && r.Got? && TakenOff(old(Unread()), 8, r.value, Unread())
      ensures old(InSync()) && |old(Unread())| < 8 ==>
        (r.Eof? <==> old(valid) == 0 || old(streamOffset) == |stream|)
    {
      hide Bits, BytesBits, FromBits;
      Pow2Table();
      ghost var next := if InSync() && 8 <= |Unread()| then Unread()[..8] else [];
      var v := ReadBits(8);
      if v.Eof? {
        return Eof;
      }
      BitsOfFromBits(next);
      return Got(v.value % 0x100);
    }

    method LoadNextBuffer(nbits: uint8) returns (ok: bool)
      requires Valid()
      modifies this
      ensures Valid() && (ok <==> old(streamOffset) < |stream|)
      ensures !ok ==> valid == old(valid) && streamOffset == old(streamOffset) && buffer == old(buffer)
      ensures ok ==> InSync() && Unread() == old(BytesBits(stream[streamOffset..])) && 0 < valid
      ensures ok && nbits <= 64 ==> nbits <= valid || streamOffset == |stream|
    {
      hide Bits, BytesBits, BigEndian;
      if streamOffset >= |stream| {
        return false;
      }
      var rest := stream[streamOffset..];
      if streamOffset + 8 < |stream| {
        Chunk(rest, 8);
        buffer := BigEndian(rest[..8]);
        streamOffset := streamOffset + 8;
        valid := 64;
        assert stream[streamOffset..] == rest[8..];
        return true;
      }
      var nbytes := nbits / 8 + 1;
      if streamOffset + nbytes > |stream| {
        nbytes := |stream| - streamOffset;
      }
      Chunk(rest, nbytes);
      buffer := Gather(rest[..nbytes]);
      streamOffset := streamOffset + nbytes;
      valid := nbytes * 8;
      assert stream[streamOffset..] == rest[nbytes..];
      return true;
    }

    /** The byte-by-byte load used near the end of the stream. */
    static method Gather(bs: seq<uint8>) returns (buf: uint64)
      requires |bs| <= 8
      ensures buf == BigEndian(bs)
    {
      hide Or, Shl64, Pow2;
      buf := 0;
      ShlIsMul(0, 8 * |bs|);
      assert 0 * Pow2(8 * |bs|) == 0;
      U64Small(0);
      for i := 0 to |bs|
        invariant buf == Shl64(BigEndian(bs[..i]), 8 * (|bs| - i))
      {
        BigEndianBits(bs[..i]);
        OrShifted(BigEndian(bs[..i]), 8 * i, bs[i], 8 * (|bs| - i - 1));
        assert bs[..i + 1][..i] == bs[..i];
        buf := Or(buf, Shl64(bs[i], 8 * (|bs| - i - 1)));
      }
      assert bs[..|bs|] == bs;
      Chunk(bs, |bs|);
      ShlNone(BigEndian(bs));
    }
  }

  /** n bits spelling v were taken off the front of s. */
  ghost predicate TakenOff(s: seq<bool>, n: nat, v: nat, rest: seq<bool>) {
    n <= |s| && FromBits(s[..n]) == v && s[n..] == rest
  }

  // ----- Word-level facts behind the reader -----

  lemma FrontBit(buffer: uint64, v: nat)
    requires v < 64
    ensures Bits(buffer, v + 1) == [And(buffer, Shl64(1, v)) != 0] + Bits(buffer, v)
  {
    BitsAt(buffer, v + 1);
    BitsSuffix(buffer, v + 1, v);
    AndPow2(buffer, v);
    Pow2Fits(v);
    ShlIsMul(1, v);
    assert 1 * Pow2(v) == Pow2(v);
    U64Small(Pow2(v));
    var s := Bits(buffer, v + 1);
    assert s == [s[0]] + s[1..];
  }

  lemma FrontBits(buffer: uint64, valid: nat, n: nat, rest: seq<bool>)
    requires n <= valid <= 64
    ensures TakenOff(Bits(buffer, valid) + rest, n, And(Shr(buffer, valid - n), Mask64(n)), Bits(buffer, valid - n) + rest)
  {
    var s := Bits(buffer, valid);
    BitsPrefix(buffer, valid, n);
    BitsSuffix(buffer, valid, valid - n);
    LowBits(Shr(buffer, valid - n), n);
    assert (s + rest)[..n] == s[..n];
    assert (s + rest)[n..] == s[n..] + rest;
  }

  lemma LowBits(u: nat, n: nat)
    requires n <= 64
    ensures And(u, Mask64(n)) == FromBits(Bits(u, n)) < Pow2(n)
  {
    MaskValue(n);
    AndMask(u, n);
    FromBitsOfBits(u, n);
  }

  lemma JoinFits(v: uint64, x: nat, mask: uint64)
    ensures Or(v, And(x, mask)) < 0x1_0000_0000_0000_0000
  {
    AndBound(x, mask);
    Pow2Of64();
    OrBound(v, And(x, mask), 64);
  }

  /** What is left of one buffer followed by the first n bits of the next. */
  lemma Join(b0: uint64, v0: nat, b1: uint64, v1: nat, n: nat, rest: seq<bool>)
    requires v0 + n <= 64 && n <= v1 <= 64
    ensures TakenOff(Bits(b0, v0) + (Bits(b1, v1) + rest), v0 + n,
                     Or(Shl64(And(b0, Mask64(v0)), n), And(Shr(b1, v1 - n), Mask64(n))),
                     Bits(b1, v1 - n) + rest)
  {
    var x, y := Bits(b0, v0), Bits(b1, v1) + rest;
    FrontBits(b1, v1, n, rest);
    LowBits(b0, v0);
    BitsOfFromBits(y[..n]);
    ShlValue(FromBits(x), n, v0);
    OrDisjoint(FromBits(x), FromBits(y[..n]), n);
    FromBitsConcat(x, y[..n]);
    assert (x + y)[..v0 + n] == x + y[..n];
    assert (x + y)[v0 + n..] == y[n..];
  }

  /** Loading n whole bytes into the buffer. */
  lemma Chunk(rest: seq<uint8>, n: nat)
    requires n <= |rest| && n <= 8
    ensures BigEndian(rest[..n]) < 0x1_0000_0000_0000_0000
    ensures Bits(BigEndian(rest[..n]), 8 * n) + BytesBits(rest[n..]) == BytesBits(rest)
  {
    var xs, ys := rest[..n], rest[n..];
    assert rest == xs + ys;
    BigEndianBits(xs);
    Pow2Fits(8 * n);
    BytesBitsConcat(xs, ys);
  }

  /** OR-ing a shifted byte below a shifted number appends it. */
  lemma OrShifted(e: nat, m: nat, b: uint8, k: nat)
    requires e < Pow2(m) && m + 8 + k <= 64
    ensures Or(Shl64(e, k + 8), Shl64(b, k)) == Shl64(0x100 * e + b, k)
  {
    var p := Pow2(k);
    Pow2Table();
    Pow2Add(8, k);
    Pow2Add(8, m);
    ShlValue(e, k + 8, m);
    ShlValue(b, k, 8);
    ShlValue(0x100 * e + b, k, m + 8);
    OrDisjoint(e, b * p, k + 8);
    Distribute(e, b, p);
  }

  lemma Distribute(e: nat, b: nat, p: nat)
    ensures e * (0x100 * p) + b * p == (0x100 * e + b) * p
  {
  }

  // ----- Byte-level facts behind the writer -----

  ghost predicate LowZero(b: nat, c: nat) {
    forall i: nat | i < c :: !Bit(b, i)
  }

  lemma BitOfZeroAll()
    ensures LowZero(0, 8)
  {
    forall i: nat
      ensures !Bit(0, i)
    {
      BitOfZero(i);
    }
  }

  lemma SetBit(b: uint8, c: uint8)
    requires 0 < c <= 8 && LowZero(b, c)
    ensures LowZero(b, c - 1)
    ensures Bits(b, 8)[..8 - (c - 1)] == Bits(b, 8)[..8 - c] + [false]
    ensures Or(b, Shl8(1, c - 1)) < 0x100
    ensures LowZero(Or(b, Shl8(1, c - 1)), c - 1)
    ensures Bits(Or(b, Shl8(1, c - 1)), 8)[..8 - (c - 1)] == Bits(b, 8)[..8 - c] + [true]
  {
    hide Or, Shl8, Pow2, Bits, Bit;
    var r := Or(b, Shl8(1, c - 1));
    SetBitBound(b, c);
    forall i: nat
      ensures Bit(r, i) == (Bit(b, i) || i == c - 1)
    {
      SetBitAt(b, c, i);
    }
    BitsAt(b, 8);
    BitsAt(r, 8);
  }

  lemma SetBitBound(b: uint8, c: uint8)
    requires 0 < c <= 8
    ensures Or(b, Shl8(1, c - 1)) < 0x100
  {
    hide Or, Shl8, Pow2;
    Pow2Table();
    OrBound(b, Shl8(1, c - 1), 8);
  }

  lemma SetBitAt(b: uint8, c: uint8, i: nat)
    requires 0 < c <= 8
    ensures Bit(Or(b, Shl8(1, c - 1)), i) == (Bit(b, i) || i == c - 1)
  {
    hide Or, Pow2, Bit;
    Pow2Table();
    BitOr(b, Shl8(1, c - 1), i);
    ShlIsMul(1, c - 1);
    BitMod(1 * Pow2(c - 1), 8, i);
    BitMul(1, c - 1, i);
    BitOfOne(if i >= c - 1 then i - (c - 1) else 0);
  }

  lemma BitOfOne(i: nat)
    ensures Bit(1, i) == (i == 0)
  {
    if i > 0 {
      BitOfZero(i - 1);
    }
  }

  lemma FilledBit(b: uint8, byt: uint8, c: uint8, i: nat)
    requires 0 < c <= 8 && LowZero(b, c) && i < 8
    ensures Bit(Or(b, Shr(byt, 8 - c)), i) == if i < c then Bit(byt, i + 8 - c) else Bit(b, i)
  {
    BitOr(b, Shr(byt, 8 - c), i);
    BitShr(byt, 8 - c, i);
    if i >= c {
      Pow2Table();
      BitHigh(byt, 8, i + 8 - c);
    }
  }

  lemma FilledBits(f: nat, b: nat, byt: nat, c: nat)
    requires c <= 8
    requires forall i: nat | i < 8 :: Bit(f, i) == if i < c then Bit(byt, i + 8 - c) else Bit(b, i)
    ensures Bits(f, 8) == Bits(b, 8)[..8 - c] + Bits(byt, 8)[..c]
  {
    BitsAt(b, 8);
    BitsAt(byt, 8);
    BitsEqual(Bits(b, 8)[..8 - c] + Bits(byt, 8)[..c], f, 8);
  }

  /** Splitting a byte over the free bits of one byte and the next one. */
  lemma FillByte(b: uint8, byt: uint8, c: uint8)
    requires 0 < c <= 8 && LowZero(b, c)
    ensures Or(b, Shr(byt, 8 - c)) < 0x100
    ensures Bits(Or(b, Shr(byt, 8 - c)), 8) == Bits(b, 8)[..8 - c] + Bits(byt, 8)[..c]
  {
    var h := Shr(byt, 8 - c);
    ShrLess(byt, 8 - c);
    assert Or(b, h) < 0x100 by {
      Pow2Table();
      OrBound(b, h, 8);
    }
    forall i: nat | i < 8
      ensures Bit(Or(b, h), i) == if i < c then Bit(byt, i + 8 - c) else Bit(b, i)
    {
      FilledBit(b, byt, c, i);
    }
    FilledBits(Or(b, h), b, byt, c);
  }

  lemma SpillByte(byt: uint8, c: uint8)
    requires 0 < c <= 8
    ensures Bits(Shl8(byt, c), 8)[..8 - c] == Bits(byt, 8)[c..]
    ensures LowZero(Shl8(byt, c), c)
  {
    hide Shl8, Pow2, Bits, Bit;
    forall i: nat | i < 8
      ensures Bit(Shl8(byt, c), i) == (i >= c && Bit(byt, i - c))
    {
      SpillBit(byt, c, i);
    }
    BitsAt(byt, 8);
    BitsAt(Shl8(byt, c), 8);
  }

  lemma SpillBit(byt: uint8, c: uint8, i: nat)
    requires 0 < c <= 8 && i < 8
    ensures Bit(Shl8(byt, c), i) == (i >= c && Bit(byt, i - c))
  {
    hide Shl8, Pow2, Bit;
    Pow2Table();
    ShlIsMul(byt, c);
    BitMod(byt * Pow2(c), 8, i);
    BitMul(byt, c, i);
  }

  lemma Reassociate(x: seq<bool>, y: seq<bool>, z: seq<bool>, c: nat)
    requires c <= |z|
    ensures (x + (y + z[..c])) + z[c..] == (x + y) + z
  {
    assert z == z[..c] + z[c..];
  }

  lemma ShrLess(u: nat, k: nat)
    ensures Shr(u, k) <= u
    decreases k
  {
    if k != 0 {
      ShrLess(u / 2, k - 1);
    }
  }

  lemma TopByte(w: uint64)
    ensures Bits(Shr(w, 56) % 0x100, 8) == Bits(w, 64)[..8]
  {
    BitsPrefix(w, 64, 8);
    Pow2Table();
    BitsMod(Shr(w, 56), 8, 8);
  }

  lemma TopBit(w: uint64)
    ensures (Shr(w, 63) == 1) == Bits(w, 64)[0]
  {
    BitsAt(w, 64);
    BitShr(w, 63, 0);
    ShrValue(w, 63);
    Pow2Of64();
    DivLess(w, Pow2(63), 2);
  }

  /** Writing the top k bits of w and shifting them out keeps the total. */
  lemma ShiftOut(written: seq<bool>, w: uint64, k: nat, n: nat)
    requires k <= n <= 64
    ensures (written + Bits(w, 64)[..k]) + Bits(Shl64(w, k), 64)[..n - k] == written + Bits(w, 64)[..n]
    ensures k == 1 ==> Bits(w, 64)[..k] == [Bits(w, 64)[0]]
  {
    BitsShl64(w, k);
    BitsSuffix(w, 64, 64 - k);
    var top, all := Bits(w, 64)[..k], Bits(w, 64);
    var rest := Bits(Shl64(w, k), 64);
    assert rest[..n - k] == rest[..64 - k][..n - k];
    Regroup(written, all, k, n);
  }

  lemma Regroup(x: seq<bool>, z: seq<bool>, k: nat, n: nat)
    requires k <= n <= |z|
    ensures (x + z[..k]) + z[k..][..n - k] == x + z[..n]
  {
    assert z[k..][..n - k] == z[k..n];
    assert z[..n] == z[..k] + z[k..n];
  }
}
