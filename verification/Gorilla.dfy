/** The Gorilla encoder and decoder on top of the bit writer and reader. */
module Gorilla {
  import opened Words
  import opened Varint
  import opened BitStream
  import opened GorillaFormat

  // ----- Encoder -----

  class GorillaEncoder {
    /** Everything flushed to the backend writer. */
    var written: seq<uint8>
    const buf: BitWriter
    var t0: int64
    var t1: int64
    var t: int64
    var tDelta: uint64
    var v: uint64
    var leading: uint8
    var trailing: uint8

    ghost predicate Valid()
      reads this, buf
    {
      buf.Valid() && ValidWindow(leading, trailing) && (buf.Written() == [] ==> buf.stream == [])
    }

    ghost function State(): EncoderState
      reads this
    {
      EncoderState(t0, t1, t, tDelta, v, leading, trailing)
    }

    /** What is encoded but not yet flushed. */
    ghost function Buffered(): seq<bool>
      requires Valid()
      reads this, buf
    {
      buf.Written()
    }

    constructor ()
      ensures Valid() && fresh(buf)
      ensures State() == FRESH_ENCODER && Buffered() == [] && written == []
    {
      written := [];
      buf := new BitWriter();
      t0, t1, t, tDelta, v, leading, trailing := 0, 0, 0, 0, 0, 0, 0;
    }

    method EncodePoint(p: Point)
      requires Valid()
      modifies this, buf
      ensures Valid() && written == old(written)
      ensures State() == Encoded(old(State()), p)
      ensures Buffered() == old(Buffered()) + PointBits(old(State()), p)
    {
      hide Bits, BytesBits, UvarintBytes, Rewindow, ValueBits, DodBits, BitWriter.Written, BitWriter.Valid;
      ghost var e, before := State(), buf.Written();
      var delta: uint64 := 0;
      if t0 == 0 {
        var bytes := PutVarint(p.ts);
        WriteBytes(bytes);
        buf.WriteBits(p.value, 64);
        t0 := p.ts;
        assert buf.Written() == before + PointBits(e, p);
      } else if t1 == 0 {
        delta := U64(p.ts - t0);
        var bytes := PutUvarint(delta);
        WriteBytes(bytes);
        WriteVDelta(p.value);
        t1 := p.ts;
        assert buf.Written() == before + PointBits(e, p);
      } else {
        delta := U64(p.ts - t);
        WriteDod(I64(delta - tDelta));
        WriteVDelta(p.value);
        assert buf.Written() == before + PointBits(e, p);
      }
      t, v, tDelta := p.ts, p.value, delta;
    }

    method WriteBytes(bytes: seq<uint8>)
      requires Valid()
      modifies buf
      ensures Valid() && buf.Written() == old(buf.Written()) + BytesBits(bytes)
    {
      hide Bits;
      for i := 0 to |bytes|
        invariant Valid() && buf.Written() == old(buf.Written()) + BytesBits(bytes[..i])
      {
        assert bytes[..i + 1] == bytes[..i] + [bytes[i]];
        BytesBitsSnoc(bytes[..i], bytes[i]);
        buf.WriteByte(bytes[i]);
      }
      assert bytes[..|bytes|] == bytes;
    }

    /** Two fields in a row. */
    method WriteTwo(x: uint64, m: nat, y: uint64, n: nat)
      requires Valid() && 0 < m <= 64 && n <= 64
      modifies buf
      ensures Valid() && buf.Written() == old(buf.Written()) + (Bits(x, m) + Bits(y, n))
    {
      hide Bits, BitWriter.Written, BitWriter.Valid;
      buf.WriteBits(x, m);
      buf.WriteBits(y, n);
    }

    method WriteDod(dod: int64)
      requires Valid()
      modifies buf
      ensures Valid() && buf.Written() == old(buf.Written()) + DodBits(dod)
    {
      hide Bits, BitWriter.Written, BitWriter.Valid;
      Delimiters();
      if dod == 0 {
        buf.WriteBit(false);
      } else if -63 <= dod <= 64 {
        WriteTwo(0x02, 2, U64(dod), 7);
      } else if -255 <= dod <= 256 {
        WriteTwo(0x06, 3, U64(dod), 9);
      } else if -2047 <= dod <= 2048 {
        WriteTwo(0x0e, 4, U64(dod), 12);
      } else {
        WriteTwo(0x0f, 4, U64(dod), 64);
      }
    }

    /** The new-window mark, the window, and the significant bits. */
    method WriteWindow(l: nat, sigbits: nat, bits: uint64)
      requires Valid() && l <= 31 && sigbits <= 64
      modifies buf
      ensures Valid()
      ensures buf.Written() == old(buf.Written()) + ([true] + Bits(l, 5) + Bits(sigbits, 6) + Bits(bits, sigbits))
    {
      hide Bits, BitWriter.Written, BitWriter.Valid;
      buf.WriteBit(true);
      WriteTwo(l, 5, sigbits, 6);
      buf.WriteBits(bits, sigbits);
    }

    method WriteVDelta(value: uint64)
      requires Valid()
      modifies this`leading, this`trailing, buf
      ensures Valid() && State() == Rewindow(old(State()), value)
      ensures buf.Written() == old(buf.Written()) + ValueBits(old(State()), value)
    {
      hide Bits, Shr, Xor, LeadingZeros64, TrailingZeros64, BitWriter.Written, BitWriter.Valid;
      ghost var w := buf.Written();
      var vDelta := VDelta(EncoderState(t0, t1, t, tDelta, v, leading, trailing), value);
      if vDelta == 0 {
        buf.WriteBit(false);
        return;
      }
      NonzeroWindow(vDelta);
      ShiftFits(vDelta);
      buf.WriteBit(true);
      var l, z := LeadingZeros64(vDelta), TrailingZeros64(vDelta);
      if l >= 32 {
        l := 31;
      }
      if leading != 0xff && l >= leading && z >= trailing {
        buf.WriteBit(false);
        buf.WriteBits(Shr(vDelta, trailing), 64 - leading - trailing);
        TwoMore(w, false, Bits(Shr(vDelta, trailing), 64 - leading - trailing));
      } else {
        leading, trailing := l, z;
        WriteWindow(l, 64 - l - z, Shr(vDelta, z));
        FlagAndWindow(w, Bits(l, 5), Bits(64 - l - z, 6), Bits(Shr(vDelta, z), 64 - l - z));
      }
    }

    /** Hands the buffer to the backend writer and starts over. The bytes end in
        zero padding, a whole byte of it at most. */
    method Flush()
      requires Valid()
      modifies this, buf
      ensures Valid() && State() == FRESH_ENCODER && Buffered() == []
      ensures old(written) <= written
      ensures var flushed := written[|old(written)|..];
              old(Buffered()) <= BytesBits(flushed)
              && |flushed| <= |old(Buffered())| / 8 + 1
              && (flushed == [] <==> old(Buffered()) == [])
    {
      buf.WrittenIsPrefix();
      written := written + buf.stream;
      buf.Reset();
      t0, t1, t, tDelta, v, leading, trailing := 0, 0, 0, 0, 0, 0, 0;
    }
  }

  // ----- Decoder -----

  datatype DecodeError = EndOfStream | VarintOverflow

  datatype Outcome<T> = Ok(value: T) | Error(error: DecodeError)

  class GorillaDecoder {
    const br: BitReader
    var numRead: nat
    var t: int64
    var tDelta: uint64
    var v: uint64
    var leading: uint8
    var trailing: uint8

    ghost function State(): DecoderState
      reads this
    {
      DecoderState(numRead, t, tDelta, v, leading, trailing)
    }

    constructor (data: seq<uint8>)
      ensures fresh(br) && br.InSync() && br.Unread() == BytesBits(data)
      ensures State() == FRESH_DECODER
    {
      br := new BitReader(data);
      numRead, t, tDelta, v, leading, trailing := 0, 0, 0, 0, 0, 0;
    }

    /** readBitFast, then readBit if the buffer was empty. */
    method NextBit() returns (r: Read<bool>)
      requires br.Valid()
      modifies br
      ensures br.Valid() && (old(br.InSync()) ==> br.InSync())
      ensures old(br.InSync()) ==> (r.Eof? <==> old(br.Unread()) == [])
      ensures old(br.InSync()) && r.Got? ==> old(br.Unread()) == [r.value] + br.Unread()
    {
      r := br.ReadBitFast();
      if r.Eof? {
        r := br.ReadBit();
      }
    }

    /** readBitsFast, then readBits if the buffer held too few. */
    method NextBits(nbits: uint8) returns (r: Read<uint64>)
      requires br.Valid()
      modifies br
      ensures br.Valid()
      ensures old(br.InSync()) && 0 < nbits <= 64 && nbits <= |old(br.Unread())| ==>
        br.InSync() && r.Got? && TakenOff(old(br.Unread()), nbits, r.value, br.Unread())
    {
      r := br.ReadBitsFast(nbits);
      if r.Eof? {
        r := br.ReadBits(nbits);
      }
    }

    /** binary.ReadUvarint over ReadByte. */
    method ReadUvarint() returns (r: Outcome<uint64>)
      requires br.Valid()
      modifies br
      ensures br.Valid()
      ensures old(br.InSync()) && ReadUvarintBits(old(br.Unread())).Next? ==>
        br.InSync() && r.Ok? && ReadUvarintBits(old(br.Unread())) == Next(r.value, br.Unread())
    {
      hide Partial, ReadUvarintBits, Or, Shl64, BitReader.Unread;
      ghost var start := if br.InSync() then br.Unread() else [];
      ghost var sound := br.InSync() && ReadUvarintBits(start).Next?;
      if sound {
        PartialStart(start);
      }
      var x: uint64 := 0;
      for i := 0 to MAX_VARINT_LEN64
        invariant br.Valid()
        invariant sound ==> br.InSync() && Partial(start, x, i, br.Unread())
      {
        if sound {
          PartialHasByte(start, x, i, br.Unread());
        }
        ghost var before := if sound then br.Unread() else [];
        var b := br.ReadByte();
        if b.Eof? {
          return Error(EndOfStream);
        }
        if b.value < 0x80 {
          if i == MAX_VARINT_LEN64 - 1 && b.value > 1 {
            if sound {
              PartialNoOverflow(start, x, i, before, b.value);
            }
            return Error(VarintOverflow);
          }
          if sound {
            PartialLast(start, x, i, before, b.value);
          }
          OrFits(x, Shl64(b.value, 7 * i));
          return Ok(Or(x, Shl64(b.value, 7 * i)));
        }
        if sound {
          PartialMore(start, x, i, before, b.value);
        }
        OrFits(x, Shl64(b.value % 0x80, 7 * i));
        x := Or(x, Shl64(b.value % 0x80, 7 * i));
      }
      if sound {
        PartialHasByte(start, x, MAX_VARINT_LEN64, br.Unread());
      }
      return Error(VarintOverflow);
    }

    /** binary.ReadVarint: the low bit of the unsigned reading is the sign. */
    method ReadVarint() returns (r: Outcome<int64>)
      requires br.Valid()
      modifies br
      ensures br.Valid()
      ensures old(br.InSync()) && ReadUvarintBits(old(br.Unread())).Next? ==>
        br.InSync() && r.Ok? && br.Unread() == ReadUvarintBits(old(br.Unread())).rest
        && r.value == UnZigZag(ReadUvarintBits(old(br.Unread())).state)
    {
      hide ReadUvarintBits;
      var u := ReadUvarint();
      if u.Error? {
        return Error(u.error);
      }
      var x: int64 := u.value / 2;
      if u.value % 2 != 0 {
        x := -1 - x;
      }
      return Ok(x);
    }

    /** Ones up to the first zero, four at most. Of the sixteen 4-bit values only
        five can come out, so the "unknown delimiter" error never does. */
    method ReadDelimiter() returns (r: Outcome<uint8>)
      requires br.Valid()
      modifies br
      ensures br.Valid()
      ensures r.Ok? ==> r.value in {0x00, 0x02, 0x06, 0x0e, 0x0f}
      ensures old(br.InSync()) && DelimiterOf(old(br.Unread())).Next? ==>
        br.InSync() && r.Ok? && DelimiterOf(old(br.Unread())) == Next(r.value, br.Unread())
    {
      hide BitReader.Unread;
      ghost var sound, start := br.InSync(), if br.InSync() then br.Unread() else [];
      var delimiter: uint8 := 0;
      for i := 0 to 4
        invariant br.Valid()
        invariant delimiter == [0, 1, 3, 7, 15][i]
        invariant sound ==> br.InSync() && i <= |start| && br.Unread() == start[i..]
        invariant sound ==> forall j | 0 <= j < i :: start[j]
      {
        delimiter := 2 * delimiter;
        var bit := NextBit();
        if bit.Eof? {
          return Error(EndOfStream);
        }
        assert sound ==> start[i..] == [bit.value] + br.Unread();
        assert sound ==> start[i..][0] == start[i] && start[i..][1..] == start[i + 1..];
        if !bit.value {
          return Ok(delimiter);
        }
        OrOne(delimiter);
        delimiter := Or(delimiter, 1);
      }
      return Ok(delimiter);
    }

    /** The delta of deltas of a third or later point. */
    method ReadDeltaOfDelta() returns (r: Outcome<int64>)
      requires br.Valid()
      modifies br
      ensures br.Valid()
      ensures old(br.InSync()) && ReadDod(old(br.Unread())).Next? ==>
        br.InSync() && r.Ok? && ReadDod(old(br.Unread())) == Next(r.value, br.Unread())
    {
      hide BitReader.Unread, FromBits, Pow2, I64;
      Pow2Table();
      ghost var sound, start := br.InSync(), if br.InSync() then br.Unread() else [];
      DelimiterDecides(start);
      var delimiter := ReadDelimiter();
      if delimiter.Error? {
        return Error(delimiter.error);
      }
      if delimiter.value == 0 {
        return Ok(0);
      }
      if delimiter.value == 0x0f {
        var word := br.ReadBits(64);
        if word.Eof? {
          return Error(EndOfStream);
        }
        return Ok(I64(word.value));
      }
      var sz := if delimiter.value == 0x02 then 7 else if delimiter.value == 0x06 then 9 else 12;
      var bits := NextBits(sz);
      if bits.Eof? {
        return Error(EndOfStream);
      }
      var dod: int := bits.value;
      if bits.value > Pow2(sz - 1) {
        dod := bits.value - Pow2(sz);
      }
      return Ok(I64(dod));
    }

    method ReadXorBits() returns (r: Outcome<()>)
      requires br.Valid()
      modifies this`v, br
      ensures br.Valid()
      ensures old(br.InSync()) && ReadXor(old(State()), old(br.Unread())).Next? ==>
        br.InSync() && r.Ok? && ReadXor(old(State()), old(br.Unread())) == Next(State(), br.Unread())
    {
      hide BitReader.Unread, FromBits, Shl64, Xor;
      var mbits: uint8 := (64 - leading - trailing) % 0x100;
      var bits := NextBits(mbits);
      if bits.Eof? {
        return Error(EndOfStream);
      }
      var x := Shl64(bits.value, trailing);
      Pow2Of64();
      XorBound(v, x, 64);
      v := Xor(v, x);
      return Ok(());
    }

    method ReadNewWindow() returns (r: Outcome<()>)
      requires br.Valid()
      modifies this`leading, this`trailing, br
      ensures br.Valid()
      ensures old(br.InSync()) && ReadWindow(old(State()), old(br.Unread())).Next? ==>
        br.InSync() && r.Ok? && ReadWindow(old(State()), old(br.Unread())) == Next(State(), br.Unread())
    {
      hide BitReader.Unread, FromBits, ReadWindow;
      ghost var start := if br.InSync() then br.Unread() else [];
      FiveThenSix(State(), start);
      var bits := NextBits(5);
      if bits.Eof? {
        return Error(EndOfStream);
      }
      leading := bits.value % 0x100;
      bits := NextBits(6);
      if bits.Eof? {
        return Error(EndOfStream);
      }
      var mbits: int := bits.value % 0x100;
      if mbits == 0 {
        mbits := 64;
      }
      trailing := (64 - leading - mbits) % 0x100;
      return Ok(());
    }

    method ReadValue() returns (r: Outcome<()>)
      requires br.Valid()
      modifies this`v, this`leading, this`trailing, br
      ensures br.Valid()
      ensures old(br.InSync()) && GorillaFormat.ReadValue(old(State()), old(br.Unread())).Next? ==>
        br.InSync() && r.Ok? && GorillaFormat.ReadValue(old(State()), old(br.Unread())) == Next(State(), br.Unread())
    {
      hide BitReader.Unread, ReadXor, ReadWindow;
      ghost var start := if br.InSync() then br.Unread() else [];
      var bit := NextBit();
      if bit.Eof? {
        return Error(EndOfStream);
      }
      if !bit.value {
        return Ok(());
      }
      bit := NextBit();
      if bit.Eof? {
        return Error(EndOfStream);
      }
      assert old(br.InSync()) ==> br.Unread() == start[2..];
      if bit.value {
        r := ReadNewWindow();
        if r.Error? {
          return;
        }
      }
      r := ReadXorBits();
    }

    /** The next point, when the bits to come hold one; else an error or, if the
        stream ends inside a field, possibly a point that was never written. */
    method DecodePoint() returns (r: Outcome<Point>)
      requires br.Valid()
      modifies this, br
      ensures br.Valid()
      ensures old(br.InSync()) && GorillaFormat.DecodePoint(old(State()), old(br.Unread())).Next? ==>
        br.InSync() && r == Ok(Point(t, v))
        && GorillaFormat.DecodePoint(old(State()), old(br.Unread())) == Next(State(), br.Unread())
    {
      hide BitReader.Unread, ReadUvarintBits, ReadDod, GorillaFormat.ReadValue, UnZigZag, I64, U64, FromBits;
      if numRead == 0 {
        var ts := ReadVarint();
        if ts.Error? {
          return Error(ts.error);
        }
        var word := br.ReadBits(64);
        if word.Eof? {
          return Error(EndOfStream);
        }
        t, v, numRead := ts.value, word.value, 1;
        return Ok(Point(t, v));
      }
      if numRead == 1 {
        var delta := ReadUvarint();
        if delta.Error? {
          return Error(delta.error);
        }
        tDelta := delta.value;
        t := I64(t + I64(tDelta));
        var ok := ReadValue();
        if ok.Error? {
          return Error(ok.error);
        }
        numRead := 2;
        return Ok(Point(t, v));
      }
      var dod := ReadDeltaOfDelta();
      if dod.Error? {
        return Error(dod.error);
      }
      tDelta := U64(I64(tDelta) + dod.value);
      t := I64(t + I64(tDelta));
      var ok := ReadValue();
      if ok.Error? {
        return Error(ok.error);
      }
      return Ok(Point(t, v));
    }
  }

  function DelimiterOf(s: seq<bool>): Step<uint8> {
    if |s| >= 1 && !s[0] then Next(0x00, s[1..])
    else if |s| >= 2 && !s[1] then Next(0x02, s[2..])
    else if |s| >= 3 && !s[2] then Next(0x06, s[3..])
    else if |s| >= 4 && !s[3] then Next(0x0e, s[4..])
    else if |s| >= 4 then Next(0x0f, s[4..])
    else Stuck
  }

  function DodAfter(delimiter: uint8, s: seq<bool>): Step<int64> {
    if delimiter == 0x00 then Next(0, s)
    else if delimiter == 0x02 then Bucket(s, 7)
    else if delimiter == 0x06 then Bucket(s, 9)
    else if delimiter == 0x0e then Bucket(s, 12)
    else if |s| >= 64 then Next(I64(FromBits(s[..64])), s[64..])
    else Stuck
  }

  /** The delimiter fixes how the delta of deltas is read. */
  lemma DelimiterDecides(s: seq<bool>)
    ensures ReadDod(s).Next? ==> DelimiterOf(s).Next?
    ensures DelimiterOf(s).Next? ==> ReadDod(s) == DodAfter(DelimiterOf(s).state, DelimiterOf(s).rest)
  {
    hide Bucket, FromBits, I64;
    if |s| >= 68 {
      assert s[4..][..64] == s[4..68] && s[4..][64..] == s[68..];
    }
  }

  lemma OrOne(x: nat)
    requires x % 2 == 0
    ensures Or(x, 1) == x + 1
  {
    Pow2Table();
    OrDisjoint(x / 2, 1, 1);
  }

  lemma TwoMore(w: seq<bool>, b: bool, rest: seq<bool>)
    ensures w + [true] + [b] + rest == w + ([true, b] + rest)
  {
  }

  lemma FlagAndWindow(w: seq<bool>, a: seq<bool>, b: seq<bool>, c: seq<bool>)
    ensures w + [true] + ([true] + a + b + c) == w + ([true, true] + a + b + c)
  {
  }

  /** Five bits, then six more, are a window. */
  lemma FiveThenSix(d: DecoderState, s: seq<bool>)
    ensures ReadWindow(d, s).Next? <==> |s| >= 11
    ensures |s| >= 11 ==>
      var leading, stored := FromBits(s[..5]) % 0x100, FromBits(s[5..][..6]) % 0x100;
      var mbits := if stored == 0 then 64 else stored;
      ReadWindow(d, s) == Next(d.(leading := leading, trailing := (64 - leading - mbits) % 0x100), s[5..][6..])
  {
    hide FromBits, Pow2;
    if |s| >= 11 {
      assert s[5..][..6] == s[5..11] && s[5..][6..] == s[11..];
      ByteSized(s[..5]);
      ByteSized(s[5..11]);
    }
  }

  lemma ByteSized(s: seq<bool>)
    requires |s| <= 8
    ensures FromBits(s) % 0x100 == FromBits(s)
  {
    hide FromBits;
    BitsOfFromBits(s);
    Pow2Table();
  }

  lemma OrFits(x: uint64, y: uint64)
    ensures Or(x, y) < 0x1_0000_0000_0000_0000
  {
    Pow2Of64();
    OrBound(x, y, 64);
  }

  /** i bytes of a readable varint are read, x holds their groups, `left` is unread. */
  ghost predicate Partial(start: seq<bool>, x: nat, i: nat, left: seq<bool>) {
    && i <= MAX_VARINT_LEN64
    && 8 * i <= |start| && left == start[8 * i..]
    && (i < MAX_VARINT_LEN64 ==> x < Pow2(7 * i))
    && var whole, rest := Varint.ReadUvarint(ToBytes(start)), Varint.ReadUvarint(ToBytes(left), i);
       whole.Value? && rest.Value?
       && whole.length == i + rest.length
       && whole.value == U64(x + rest.value * Pow2(7 * i))
  }

  lemma PartialStart(start: seq<bool>)
    requires ReadUvarintBits(start).Next?
    ensures Partial(start, 0, 0, start)
  {
    assert start[0..] == start;
    var r := Varint.ReadUvarint(ToBytes(start));
    U64Small(r.value);
    assert r.value * Pow2(0) == r.value;
  }

  lemma PartialHasByte(start: seq<bool>, x: nat, i: nat, left: seq<bool>)
    requires Partial(start, x, i, left)
    ensures i < MAX_VARINT_LEN64 && |left| >= 8
  {
    hide Pow2, U64;
  }

  lemma FirstByte(left: seq<bool>, b: uint8)
    requires |left| >= 8 && FromBits(left[..8]) == b
    ensures ToBytes(left) == [b] + ToBytes(left[8..])
  {
  }

  lemma PartialNoOverflow(start: seq<bool>, x: nat, i: nat, left: seq<bool>, b: uint8)
    requires Partial(start, x, i, left) && |left| >= 8 && FromBits(left[..8]) == b
    requires i == MAX_VARINT_LEN64 - 1 && b < 0x80
    ensures b <= 1
  {
    hide Pow2, U64, FromBits, ToBytes;
    FirstByte(left, b);
  }

  lemma PartialLast(start: seq<bool>, x: nat, i: nat, left: seq<bool>, b: uint8)
    requires Partial(start, x, i, left) && |left| >= 8 && FromBits(left[..8]) == b
    requires i < MAX_VARINT_LEN64 && b < 0x80 && (i == MAX_VARINT_LEN64 - 1 ==> b <= 1)
    ensures ReadUvarintBits(start) == Next(Or(x, Shl64(b, 7 * i)), left[8..])
  {
    hide Pow2, U64, FromBits, ToBytes, Or, Shl64;
    FirstByte(left, b);
    OrGroup(x, b, i);
    assert start[8 * (i + 1)..] == left[8..];
  }

  lemma PartialMore(start: seq<bool>, x: nat, i: nat, left: seq<bool>, b: uint8)
    requires Partial(start, x, i, left) && |left| >= 8 && FromBits(left[..8]) == b
    requires i < MAX_VARINT_LEN64 && b >= 0x80
    ensures Partial(start, Or(x, Shl64(b % 0x80, 7 * i)), i + 1, left[8..])
  {
    hide Pow2, U64, FromBits, ToBytes, Or, Shl64;
    FirstByte(left, b);
    assert ToBytes(left)[1..] == ToBytes(left[8..]);
    assert start[8 * (i + 1)..] == left[8..];
    assert b % 0x80 == b - 0x80;
    if i + 1 < MAX_VARINT_LEN64 {
      OrGroup(x, b - 0x80, i);
      var rest := Varint.ReadUvarint(ToBytes(left[8..]), i + 1);
      NextGroup(x, b - 0x80, rest.value, i);
    }
  }

  /** OR-ing the i-th seven-bit group above the earlier ones adds it. */
  lemma OrGroup(x: nat, b: nat, i: nat)
    requires i < MAX_VARINT_LEN64 && x < Pow2(7 * i) && b < 0x80 && (i == MAX_VARINT_LEN64 - 1 ==> b <= 1)
    ensures Or(x, Shl64(b, 7 * i)) == x + b * Pow2(7 * i) == U64(x + b * Pow2(7 * i))
    ensures Or(x, Shl64(b, 7 * i)) < Pow2(7 * (i + 1))
  {
    hide Pow2, Or, Shl64, U64;
    Pow2Table();
    var n := if i == MAX_VARINT_LEN64 - 1 then 1 else 7;
    ShlValue(b, 7 * i, n);
    OrDisjoint(b, x, 7 * i);
    OrCommutes(x, b * Pow2(7 * i));
    GroupBound(x, b, 7 * i, n);
    Pow2Monotone(7 * i + n, 7 * (i + 1));
    Pow2Fits(7 * i + n);
    U64Small(x + b * Pow2(7 * i));
  }

  lemma GroupBound(x: nat, b: nat, k: nat, n: nat)
    requires x < Pow2(k) && b < Pow2(n)
    ensures x + b * Pow2(k) < Pow2(k + n)
  {
    Pow2Add(n, k);
    MulMonotone(b + 1, Pow2(n), Pow2(k));
  }

  lemma NextGroup(x: nat, b: nat, v: nat, i: nat)
    ensures U64(x + U64(b + 0x80 * v) * Pow2(7 * i)) == U64((x + b * Pow2(7 * i)) + v * Pow2(7 * (i + 1)))
  {
    hide U64, Pow2;
    Pow2Table();
    var p := Pow2(7 * i);
    Pow2Add(7, 7 * i);
    U64Product(x, b + 0x80 * v, p);
    Distribute2(b, v, p);
  }

  lemma Distribute2(b: nat, v: nat, p: nat)
    ensures (b + 0x80 * v) * p == b * p + v * (0x80 * p)
  {
  }

  lemma Delimiters()
    ensures Bits(0x02, 2) == [true, false]
    ensures Bits(0x06, 3) == [true, true, false]
    ensures Bits(0x0e, 4) == [true, true, true, false]
    ensures Bits(0x0f, 4) == [true, true, true, true]
  {
    BitsAt(0x02, 2);
    BitsAt(0x06, 3);
    BitsAt(0x0e, 4);
    BitsAt(0x0f, 4);
  }

  lemma ShiftFits(x: uint64)
    ensures forall k: nat :: Shr(x, k) <= x
  {
    forall k: nat
      ensures Shr(x, k) <= x
    {
      ShrLess(x, k);
    }
  }
}
