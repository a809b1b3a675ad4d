/** Go's fixed-width integers as bounded integers, their shifts and bitwise
    operators written out, and the bits they stand for. */
module Words {

  type uint8 = x: int | 0 <= x < 0x100
  type uint64 = x: int | 0 <= x < 0x1_0000_0000_0000_0000
  type int64 = x: int | -0x8000_0000_0000_0000 <= x < 0x8000_0000_0000_0000

  /** Conversion to uint64: arithmetic on 64-bit words wraps around. */
  function U64(x: int): uint64 {
    x % 0x1_0000_0000_0000_0000
  }

  /** Conversion to int64: two's complement. */
  function I64(x: int): int64 {
    (x + 0x8000_0000_0000_0000) % 0x1_0000_0000_0000_0000 - 0x8000_0000_0000_0000
  }

  function Pow2(n: nat): (p: nat)
    ensures p >= 1
  {
    if n == 0 then 1 else 2 * Pow2(n - 1)
  }

  lemma Pow2Table()
    ensures Pow2(0) == 1 && Pow2(1) == 2 && Pow2(5) == 32 && Pow2(6) == 64
    ensures Pow2(7) == 0x80 && Pow2(8) == 0x100 && Pow2(9) == 0x200
    ensures Pow2(11) == 0x800 && Pow2(12) == 0x1000
  {
  }

  lemma Pow2Of64()
    ensures Pow2(64) == 0x1_0000_0000_0000_0000
    ensures Pow2(63) == 0x8000_0000_0000_0000
  {
    hide Pow2;
    Pow2Table();
    Pow2Add(8, 8);
    Pow2Add(16, 16);
    Pow2Add(32, 32);
    Pow2Add(1, 63);
  }

  lemma {:induction false} Pow2Add(m: nat, n: nat)
    ensures Pow2(m + n) == Pow2(m) * Pow2(n)
  {
    if m != 0 {
      Pow2Add(m - 1, n);
      assert Pow2(m) * Pow2(n) == 2 * (Pow2(m - 1) * Pow2(n));
    }
  }

  lemma {:induction false} Pow2Monotone(m: nat, n: nat)
    requires m <= n
    ensures Pow2(m) <= Pow2(n)
    decreases n
  {
    if m < n {
      Pow2Monotone(m, n - 1);
    }
  }

  lemma Pow2Fits(n: nat)
    requires n <= 64
    ensures n < 64 ==> Pow2(n) < 0x1_0000_0000_0000_0000
    ensures n == 64 ==> Pow2(n) == 0x1_0000_0000_0000_0000
  {
    Pow2Of64();
    if n < 64 {
      Pow2Monotone(n, 63);
    }
  }

  // ----- Shifts and bitwise operators -----

  // A shift by k is k shifts by one bit; `ShrValue` and `ShlIsMul` give the
  // division and the product. The second measure is never the one that decreases.

  function Shr(u: nat, k: nat): nat
    decreases k, u
  {
    if k == 0 then u else Shr(u / 2, k - 1)
  }

  function Shl64(u: nat, k: nat): uint64
    decreases k, u
  {
    if k == 0 then U64(u) else Shl64(2 * u, k - 1)
  }

  function Shl8(u: nat, k: nat): uint8
    decreases k, u
  {
    if k == 0 then u % 0x100 else Shl8(2 * u, k - 1)
  }

  function Or(a: nat, b: nat): nat {
    if a == 0 && b == 0 then 0
    else 2 * Or(a / 2, b / 2) + if a % 2 == 1 || b % 2 == 1 then 1 else 0
  }

  function And(a: nat, b: nat): nat {
    if a == 0 && b == 0 then 0
    else 2 * And(a / 2, b / 2) + if a % 2 == 1 && b % 2 == 1 then 1 else 0
  }

  function Xor(a: nat, b: nat): nat {
    if a == 0 && b == 0 then 0
    else 2 * Xor(a / 2, b / 2) + if a % 2 != b % 2 then 1 else 0
  }

  /** The mask `(1 << n) - 1`, computed with wrap-around as the code does. */
  function Mask64(n: nat): uint64 {
    U64(Shl64(1, n) - 1)
  }

  /** math/bits.LeadingZeros64 and TrailingZeros64. */
  function BitLen(x: nat): nat {
    if x == 0 then 0 else 1 + BitLen(x / 2)
  }

  function LeadingZeros64(x: uint64): (r: nat)
    ensures r <= 64
  {
    Pow2Of64();
    BitLenBound(x, 64);
    64 - BitLen(x)
  }

  function TrailingZeros64(x: uint64): nat {
    if x == 0 then 64 else TrailingZeros(x)
  }

  function TrailingZeros(x: nat): nat
    requires x != 0
  {
    if x % 2 == 1 then 0 else 1 + TrailingZeros(x / 2)
  }

  // ----- Arithmetic of powers of two -----

  lemma DivModUnique(x: int, d: int, q: int, r: int)
    requires 0 < d && 0 <= r < d && x == q * d + r
    ensures x / d == q && x % d == r
  {
    var q', r' := x / d, x % d;
    assert x == q' * d + r';
    if q > q' {
      MulMonotone(q' + 1, q, d);
    } else if q < q' {
      MulMonotone(q + 1, q', d);
    }
  }

  lemma MulMonotone(x: int, y: int, d: int)
    requires x <= y && 0 <= d
    ensures x * d <= y * d
  {
  }

  /** Halving first and dividing by the rest is one division. */
  lemma HalfThenDivide(u: nat, p: nat)
    requires p >= 1
    ensures (u / 2) / p == u / (2 * p)
    ensures u % (2 * p) == 2 * ((u / 2) % p) + u % 2
  {
    var q, r := (u / 2) / p, (u / 2) % p;
    assert u == 2 * (u / 2) + u % 2;
    assert u / 2 == p * q + r;
    assert u == q * (2 * p) + (2 * r + u % 2);
    DivModUnique(u, 2 * p, q, 2 * r + u % 2);
  }

  lemma DivLess(u: nat, p: nat, q: nat)
    requires p >= 1 && u < p * q
    ensures u / p < q
  {
    var d := u / p;
    assert u == p * d + u % p;
    if d >= q {
      MulMonotone(q, d, p);
    }
  }

  lemma {:induction false} BitLenBound(x: nat, n: nat)
    requires x < Pow2(n)
    ensures BitLen(x) <= n
    ensures x < Pow2(BitLen(x))
  {
    if x != 0 {
      BitLenBound(x / 2, n - 1);
    }
  }

  /** A nonzero word has a one between its leading and trailing zeros, and
      shifting the trailing zeros out and back in restores it. */
  lemma {:induction false} TrailingZerosDivide(x: nat, k: nat)
    requires x != 0 && k <= TrailingZeros(x)
    ensures TrailingZeros(x) < BitLen(x)
    ensures x % Pow2(k) == 0
  {
    if x % 2 == 1 {
    } else if k == 0 {
      TrailingZerosDivide(x / 2, 0);
    } else {
      TrailingZerosDivide(x / 2, k - 1);
      HalfThenDivide(x, Pow2(k - 1));
    }
  }

  lemma {:induction false} ShrValue(u: nat, k: nat)
    ensures Shr(u, k) == u / Pow2(k)
    decreases k
  {
    if k != 0 {
      HalfThenDivide(u, Pow2(k - 1));
      ShrValue(u / 2, k - 1);
    }
  }

  lemma {:induction false} ShlIsMul(u: nat, k: nat)
    ensures Shl64(u, k) == U64(u * Pow2(k))
    ensures Shl8(u, k) == (u * Pow2(k)) % 0x100
    decreases k
  {
    if k != 0 {
      assert u * Pow2(k) == (2 * u) * Pow2(k - 1);
      ShlIsMul(2 * u, k - 1);
    }
  }

  // ----- Bitwise operators as arithmetic -----

  lemma {:induction false} OrDisjoint(a: nat, b: nat, k: nat)
    requires b < Pow2(k)
    ensures Or(a * Pow2(k), b) == a * Pow2(k) + b
  {
    if k == 0 {
      OrZero(a);
    } else {
      var p := Pow2(k - 1);
      assert a * Pow2(k) == 2 * (a * p);
      OrDisjoint(a, b / 2, k - 1);
    }
  }

  lemma {:induction false} OrZero(a: nat)
    ensures Or(a, 0) == a
  {
    if a != 0 {
      OrZero(a / 2);
    }
  }

  lemma {:induction false} AndMask(u: nat, k: nat)
    ensures And(u, Pow2(k) - 1) == u % Pow2(k)
  {
    if k == 0 {
      AndZero(u);
    } else {
      var p := Pow2(k - 1);
      AndMask(u / 2, k - 1);
      HalfThenDivide(u, p);
      assert (2 * p - 1) / 2 == p - 1 && (2 * p - 1) % 2 == 1;
    }
  }

  lemma {:induction false} AndPow2(u: nat, k: nat)
    ensures And(u, Pow2(k)) == if Bit(u, k) then Pow2(k) else 0
    decreases k
  {
    if k == 0 {
      AndZero(u / 2);
    } else {
      AndPow2(u / 2, k - 1);
    }
  }

  lemma {:induction false} AndBound(a: nat, b: nat)
    ensures And(a, b) <= b
  {
    if a != 0 || b != 0 {
      AndBound(a / 2, b / 2);
    }
  }

  lemma {:induction false} AndZero(u: nat)
    ensures And(u, 0) == 0
  {
    if u != 0 {
      AndZero(u / 2);
    }
  }

  lemma MaskValue(n: nat)
    requires n <= 64
    ensures Mask64(n) == Pow2(n) - 1
  {
    Pow2Fits(n);
    ShlIsMul(1, n);
    var p := Pow2(n);
    assert 1 * p == p;
    if n < 64 {
      U64Small(p);
      U64Small(p - 1);
    } else {
      assert U64(p) == 0;
    }
  }

  lemma U64Is(x: int, q: int, r: uint64)
    requires x == q * 0x1_0000_0000_0000_0000 + r
    ensures U64(x) == r
  {
    DivModUnique(x, 0x1_0000_0000_0000_0000, q, r);
  }

  lemma U64Congruent(x: int, k: int)
    ensures U64(x + k * 0x1_0000_0000_0000_0000) == U64(x)
  {
    var q := x / 0x1_0000_0000_0000_0000;
    U64Is(x + k * 0x1_0000_0000_0000_0000, q + k, U64(x));
  }

  /** A factor may be reduced before multiplying. */
  lemma U64Product(x: int, y: int, p: int)
    ensures U64(x + U64(y) * p) == U64(x + y * p)
  {
    var q := y / 0x1_0000_0000_0000_0000;
    assert y == U64(y) + q * 0x1_0000_0000_0000_0000;
    assert y * p == U64(y) * p + (q * p) * 0x1_0000_0000_0000_0000;
    U64Congruent(x + U64(y) * p, q * p);
  }

  lemma ShlNone(u: uint64)
    ensures Shl64(u, 0) == u
  {
    U64Small(u);
  }

  lemma U64Small(x: int)
    requires 0 <= x < 0x1_0000_0000_0000_0000
    ensures U64(x) == x
  {
  }

  lemma ShlValue(u: nat, k: nat, n: nat)
    requires n + k <= 64 && u < Pow2(n)
    ensures Shl64(u, k) == u * Pow2(k)
    ensures u * Pow2(k) < Pow2(n + k)
  {
    hide Pow2, Shl64, Shl8, U64;
    var p := Pow2(k);
    ShlIsMul(u, k);
    Pow2Of64();
    Pow2Add(n, k);
    Pow2Monotone(n + k, 64);
    MulMonotone(u + 1, Pow2(n), p);
    assert (u + 1) * p == u * p + p;
    U64Small(u * p);
  }

  lemma {:induction false} XorBound(a: nat, b: nat, n: nat)
    requires a < Pow2(n) && b < Pow2(n)
    ensures Xor(a, b) < Pow2(n)
  {
    if n != 0 {
      XorBound(a / 2, b / 2, n - 1);
    }
  }

  /** XOR with the old value takes the difference back to the new value. */
  lemma {:induction false} XorRestores(a: nat, b: nat)
    ensures Xor(a, Xor(b, a)) == b
    ensures Xor(b, a) == 0 <==> a == b
  {
    if a != 0 || b != 0 {
      XorRestores(a / 2, b / 2);
      var x := Xor(b, a);
      assert x / 2 == Xor(b / 2, a / 2);
    }
  }

  // ----- Words as bit sequences -----

  /** Bit i of u, bit 0 the least significant. */
  predicate Bit(u: nat, i: nat)
    decreases i, u
  {
    if i == 0 then u % 2 == 1 else Bit(u / 2, i - 1)
  }

  /** The low n bits of u, most significant first. */
  function Bits(u: nat, n: nat): (s: seq<bool>)
    ensures |s| == n
    decreases n, u
  {
    if n == 0 then [] else Bits(u / 2, n - 1) + [u % 2 == 1]
  }

  lemma {:induction false} BitsAt(u: nat, n: nat)
    ensures forall j | 0 <= j < n :: Bits(u, n)[j] == Bit(u, n - 1 - j)
    decreases n
  {
    if n != 0 {
      BitsAt(u / 2, n - 1);
    }
  }

  /** Bits that agree place by place are the same sequence. */
  lemma BitsEqual(s: seq<bool>, u: nat, n: nat)
    requires |s| == n
    requires forall i: nat | i < n :: s[n - 1 - i] == Bit(u, i)
    ensures s == Bits(u, n)
  {
    BitsAt(u, n);
    forall j | 0 <= j < n
      ensures s[j] == Bits(u, n)[j]
    {
      assert s[n - 1 - (n - 1 - j)] == Bit(u, n - 1 - j);
    }
  }

  /** The number a bit sequence spells, most significant bit first. */
  function FromBits(s: seq<bool>): (u: nat)
  {
    if s == [] then 0
    else 2 * FromBits(s[..|s| - 1]) + if s[|s| - 1] then 1 else 0
  }

  lemma {:induction false} FromBitsOfBits(u: nat, n: nat)
    ensures FromBits(Bits(u, n)) == u % Pow2(n)
  {
    if n != 0 {
      assert Bits(u, n)[..n - 1] == Bits(u / 2, n - 1);
      FromBitsOfBits(u / 2, n - 1);
      HalfThenDivide(u, Pow2(n - 1));
    }
  }

  lemma FromBitsExact(u: nat, n: nat)
    requires u < Pow2(n)
    ensures FromBits(Bits(u, n)) == u
  {
    FromBitsOfBits(u, n);
  }

  lemma {:induction false} BitsOfFromBits(s: seq<bool>)
    ensures FromBits(s) < Pow2(|s|)
    ensures Bits(FromBits(s), |s|) == s
  {
    if s != [] {
      BitsOfFromBits(s[..|s| - 1]);
    }
  }

  lemma {:induction false} FromBitsConcat(s: seq<bool>, t: seq<bool>)
    ensures FromBits(s + t) == FromBits(s) * Pow2(|t|) + FromBits(t)
  {
    if t == [] {
      assert s + t == s;
    } else {
      var t' := t[..|t| - 1];
      FromBitsConcat(s, t');
      FromBitsLast(s, t);
      DoubleProduct(FromBits(s), Pow2(|t'|));
    }
  }

  lemma FromBitsLast(s: seq<bool>, t: seq<bool>)
    requires t != []
    ensures FromBits(s + t) == 2 * FromBits(s + t[..|t| - 1]) + if t[|t| - 1] then 1 else 0
  {
    assert (s + t)[..|s + t| - 1] == s + t[..|t| - 1];
  }

  lemma DoubleProduct(x: nat, p: nat)
    ensures x * (2 * p) == 2 * (x * p)
  {
  }

  lemma {:induction false} BitShr(u: nat, k: nat, i: nat)
    ensures Bit(Shr(u, k), i) == Bit(u, i + k)
    decreases k
  {
    if k != 0 {
      BitShr(u / 2, k - 1, i);
    }
  }

  lemma {:induction false} BitMul(u: nat, k: nat, i: nat)
    ensures Bit(u * Pow2(k), i) == (i >= k && Bit(u, i - k))
  {
    if k != 0 {
      assert u * Pow2(k) == 2 * (u * Pow2(k - 1));
      if i != 0 {
        BitMul(u, k - 1, i - 1);
      }
    }
  }

  lemma {:induction false} BitMod(u: nat, n: nat, i: nat)
    ensures Bit(u % Pow2(n), i) == (i < n && Bit(u, i))
  {
    if n == 0 {
      BitOfZero(i);
    } else {
      var p := Pow2(n - 1);
      HalfThenDivide(u, p);
      assert (u % (2 * p)) / 2 == (u / 2) % p && (u % (2 * p)) % 2 == u % 2;
      if i != 0 {
        BitMod(u / 2, n - 1, i - 1);
      }
    }
  }

  lemma {:induction false} BitHigh(u: nat, n: nat, i: nat)
    requires u < Pow2(n) && n <= i
    ensures !Bit(u, i)
    decreases n
  {
    if n == 0 {
      BitOfZero(i);
    } else {
      BitHigh(u / 2, n - 1, i - 1);
    }
  }

  lemma {:induction false} BitOfZero(i: nat)
    ensures !Bit(0, i)
  {
    if i != 0 {
      BitOfZero(i - 1);
    }
  }

  lemma {:induction false} BitOr(a: nat, b: nat, i: nat)
    ensures Bit(Or(a, b), i) == (Bit(a, i) || Bit(b, i))
  {
    hide Or;
    OrHalf(a, b);
    if i != 0 {
      BitOr(a / 2, b / 2, i - 1);
    }
  }

  lemma OrHalf(a: nat, b: nat)
    ensures Or(a, b) / 2 == Or(a / 2, b / 2)
    ensures Or(a, b) % 2 == 1 <==> a % 2 == 1 || b % 2 == 1
  {
  }

  lemma {:induction false} OrBound(a: nat, b: nat, n: nat)
    requires a < Pow2(n) && b < Pow2(n)
    ensures Or(a, b) < Pow2(n)
  {
    if n != 0 {
      OrBound(a / 2, b / 2, n - 1);
    }
  }

  /** A prefix of the bits of u is the bits of u shifted right. */
  lemma {:induction false} BitsPrefix(u: nat, n: nat, k: nat)
    requires k <= n
    ensures Bits(u, n)[..k] == Bits(Shr(u, n - k), k)
    decreases n
  {
    if k < n {
      BitsPrefix(u / 2, n - 1, k);
      assert Bits(u, n)[..k] == Bits(u / 2, n - 1)[..k];
    }
  }

  /** A suffix of the bits of u is its low bits. */
  lemma {:induction false} BitsSuffix(u: nat, n: nat, k: nat)
    requires k <= n
    ensures Bits(u, n)[n - k..] == Bits(u, k)
    decreases n
  {
    if k != 0 {
      BitsSuffix(u / 2, n - 1, k - 1);
      assert Bits(u, n)[n - k..] == Bits(u / 2, n - 1)[n - k..] + [u % 2 == 1];
    }
  }

  /** Only the low n bits of u matter. */
  lemma {:induction false} BitsMod(u: nat, n: nat, m: nat)
    requires n <= m
    ensures Bits(u % Pow2(m), n) == Bits(u, n)
    decreases n
  {
    if n != 0 {
      BitsMod(u / 2, n - 1, m - 1);
      HalfThenDivide(u, Pow2(m - 1));
    }
  }

  /** A left shift moves the low bits to the top and fills with zeros. */
  lemma {:induction false} BitsMul(u: nat, k: nat, n: nat)
    ensures Bits(u * Pow2(k), n + k)[..n] == Bits(u, n)
    decreases k
  {
    if k != 0 {
      BitsMul(u, k - 1, n);
      var v := u * Pow2(k - 1);
      assert u * Pow2(k) == 2 * v;
      assert Bits(2 * v, n + k)[..n] == Bits(v, n + k - 1)[..n];
    }
  }

  lemma BitsShl64(u: nat, k: nat)
    requires k <= 64
    ensures Bits(Shl64(u, k), 64)[..64 - k] == Bits(u, 64 - k)
  {
    ShlIsMul(u, k);
    Pow2Of64();
    BitsMod(u * Pow2(k), 64, 64);
    BitsMul(u, k, 64 - k);
  }

  // ----- Bytes -----

  /** The bits of a byte string, most significant bit of the first byte first. */
  function BytesBits(bs: seq<uint8>): (s: seq<bool>)
    ensures |s| == 8 * |bs|
  {
    if bs == [] then []
    else BytesBits(bs[..|bs| - 1]) + Bits(bs[|bs| - 1], 8)
  }

  lemma BytesBitsSnoc(bs: seq<uint8>, b: uint8)
    ensures BytesBits(bs + [b]) == BytesBits(bs) + Bits(b, 8)
  {
    assert (bs + [b])[..|bs + [b]| - 1] == bs;
  }

  lemma {:induction false} BytesBitsConcat(bs: seq<uint8>, cs: seq<uint8>)
    ensures BytesBits(bs + cs) == BytesBits(bs) + BytesBits(cs)
  {
    hide Bits;
    if cs == [] {
      assert bs + cs == bs;
    } else {
      var cs', c := cs[..|cs| - 1], cs[|cs| - 1];
      BytesBitsConcat(bs, cs');
      assert bs + cs == (bs + cs') + [c];
      BytesBitsSnoc(bs + cs', c);
    }
  }

  lemma BytesBitsCons(b: uint8, bs: seq<uint8>)
    ensures BytesBits([b] + bs) == Bits(b, 8) + BytesBits(bs)
  {
    BytesBitsConcat([b], bs);
    BytesBitsSnoc([], b);
    assert [] + [b] == [b];
  }

  /** binary.BigEndian, for any number of bytes. */
  function BigEndian(bs: seq<uint8>): nat {
    if bs == [] then 0
    else 0x100 * BigEndian(bs[..|bs| - 1]) + bs[|bs| - 1]
  }

  lemma SpellByte(x: seq<bool>, b: uint8)
    ensures FromBits(x + Bits(b, 8)) == 0x100 * FromBits(x) + b
  {
    hide FromBits, Bits, Pow2;
    FromBitsConcat(x, Bits(b, 8));
    ByteFromBits(b);
    Pow2Table();
    var f, p := FromBits(x), Pow2(8);
    assert f * p == f * 0x100;
  }

  lemma {:induction false} BigEndianSpells(bs: seq<uint8>)
    ensures BigEndian(bs) == FromBits(BytesBits(bs))
  {
    hide FromBits, Bits;
    if bs == [] {
      EmptySpells();
    } else {
      BigEndianSpells(bs[..|bs| - 1]);
      SpellByte(BytesBits(bs[..|bs| - 1]), bs[|bs| - 1]);
    }
  }

  lemma EmptySpells()
    ensures FromBits([]) == 0
  {
  }

  lemma BigEndianBits(bs: seq<uint8>)
    ensures BigEndian(bs) < Pow2(8 * |bs|)
    ensures Bits(BigEndian(bs), 8 * |bs|) == BytesBits(bs)
  {
    BigEndianSpells(bs);
    BitsOfFromBits(BytesBits(bs));
  }

  /** The whole bytes a bit sequence starts with. */
  function ToBytes(s: seq<bool>): seq<uint8> {
    if |s| < 8 then []
    else
      BitsOfFromBits(s[..8]);
      assert Pow2(8) == 0x100;
      [FromBits(s[..8])] + ToBytes(s[8..])
  }

  lemma ToBytesCons(b: uint8, rest: seq<bool>)
    ensures ToBytes(Bits(b, 8) + rest) == [b] + ToBytes(rest)
  {
    var s := Bits(b, 8) + rest;
    assert s[..8] == Bits(b, 8) && s[8..] == rest;
    ByteFromBits(b);
  }

  lemma {:induction false} ToBytesOfBytesBits(bs: seq<uint8>, rest: seq<bool>)
    ensures ToBytes(BytesBits(bs) + rest) == bs + ToBytes(rest)
    decreases |bs|
  {
    hide Bits, FromBits;
    if bs == [] {
      assert BytesBits(bs) + rest == rest;
    } else {
      var b, cs := bs[0], bs[1..];
      assert bs == [b] + cs;
      BytesBitsCons(b, cs);
      assert BytesBits(bs) + rest == Bits(b, 8) + (BytesBits(cs) + rest);
      ToBytesCons(b, BytesBits(cs) + rest);
      ToBytesOfBytesBits(cs, rest);
    }
  }

  lemma ByteFromBits(b: uint8)
    ensures FromBits(Bits(b, 8)) == b
  {
    Pow2Table();
    FromBitsExact(b, 8);
  }

  // ----- Lexicographic order -----

  /** The order of Go strings, and of file names in a directory. */
  predicate LexLess(a: seq<nat>, b: seq<nat>) {
    if b == [] then false
    else if a == [] then true
    else if a[0] != b[0] then a[0] < b[0]
    else LexLess(a[1..], b[1..])
  }

  lemma {:induction false} LexIrreflexive(a: seq<nat>)
    ensures !LexLess(a, a)
  {
    if a != [] {
      LexIrreflexive(a[1..]);
    }
  }

  lemma {:induction false} LexAsymmetric(a: seq<nat>, b: seq<nat>)
    requires LexLess(a, b)
    ensures !LexLess(b, a)
  {
    if a != [] && a[0] == b[0] {
      LexAsymmetric(a[1..], b[1..]);
    }
  }

  lemma {:induction false} LexTransitive(a: seq<nat>, b: seq<nat>, c: seq<nat>)
    requires LexLess(a, b) && LexLess(b, c)
    ensures LexLess(a, c)
  {
    if a != [] && a[0] == b[0] == c[0] {
      LexTransitive(a[1..], b[1..], c[1..]);
    }
  }

  lemma {:induction false} LexTotal(a: seq<nat>, b: seq<nat>)
    ensures a == b || LexLess(a, b) || LexLess(b, a)
  {
    if a != [] && b != [] && a[0] == b[0] {
      LexTotal(a[1..], b[1..]);
      assert a == [a[0]] + a[1..] && b == [b[0]] + b[1..];
    }
  }

  /** If b is not before a and c is before a, then c is before b. */
  lemma LexBefore(a: seq<nat>, b: seq<nat>, c: seq<nat>)
    requires !LexLess(b, a) && LexLess(c, a)
    ensures LexLess(c, b)
  {
    hide LexLess;
    LexTotal(a, b);
    if a != b {
      LexTransitive(c, a, b);
    }
  }
}
