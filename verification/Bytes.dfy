/** Bytes as numbers, so that masks by powers of two are remainders and comparisons. */
module Bytes {
  type Byte = b: int | 0 <= b < 256

  type ByteSeq = seq<Byte>

  function Pow2(n: nat): (p: nat)
    ensures p >= 1
  {
    if n == 0 then 1 else 2 * Pow2(n - 1)
  }

  /** Exclusive or of the low `width` bits, from the lowest. */
  function XorBits(a: nat, b: nat, width: nat): (x: nat)
    ensures x < Pow2(width)
  {
    if width == 0 then 0 else 2 * XorBits(a / 2, b / 2, width - 1) + if a % 2 == b % 2 then 0 else 1
  }

  lemma {:induction false} XorBitsTwice(a: nat, b: nat, width: nat)
    requires a < Pow2(width)
    ensures XorBits(XorBits(a, b, width), b, width) == a
  {
    if width > 0 {
      XorBitsTwice(a / 2, b / 2, width - 1);
      var x := XorBits(a, b, width);
      assert x / 2 == XorBits(a / 2, b / 2, width - 1);
    }
  }

  lemma Pow2Of8()
    ensures Pow2(8) == 256
  {
    assert Pow2(4) == 16;
  }

  function Xor(a: Byte, b: Byte): Byte {
    Pow2Of8();
    XorBits(a, b, 8)
  }

  /** Bit `n` of a number, counted from the lowest. */
  function Bit(x: nat, n: nat): nat {
    x / Pow2(n) % 2
  }

  lemma BitOfHalf(x: nat, n: nat)
    requires n > 0
    ensures Bit(x, n) == Bit(x / 2, n - 1)
  {
    HalfThenDivide(x, Pow2(n - 1));
  }

  lemma HalfThenDivide(x: nat, d: nat)
    requires d >= 1
    ensures x / (2 * d) == x / 2 / d
  {
    var half := x / 2;
    var q := half / d;
    QuotientRange(half, q, d);
    DoubledRange(x, half, q, d);
    QuotientRange(x, q, 2 * d);
  }

  lemma DoubledRange(x: nat, half: nat, q: nat, d: nat)
    requires half == x / 2 && q * d <= half < q * d + d
    ensures q * (2 * d) <= x < q * (2 * d) + 2 * d
  {
    assert q * (2 * d) == 2 * (q * d);
  }

  lemma TimesMonotone(a: nat, b: nat, size: nat)
    requires a <= b
    ensures a * size <= b * size
  {
  }

  lemma {:induction false} QuotientRange(x: nat, q: nat, size: nat)
    requires size >= 1
    ensures x / size == q <==> q * size <= x < q * size + size
  {
    assert x == x / size * size + x % size;
    if x / size < q {
      TimesMonotone(x / size + 1, q, size);
    } else if x / size > q {
      TimesMonotone(q + 1, x / size, size);
    }
  }

  lemma RemainderOfHalf(x: nat, d: nat)
    requires d >= 1
    ensures x % (2 * d) == 2 * (x / 2 % d) + x % 2
  {
    var q := x / 2 / d;
    HalfThenDivide(x, d);
    assert x / 2 == q * d + x / 2 % d;
    assert x == x / (2 * d) * (2 * d) + x % (2 * d);
    assert q * (2 * d) == 2 * (q * d);
  }

  /** The remainder by a power of two has the bits below it, and no others. */
  lemma {:induction false} LowBits(x: nat, m: nat, n: nat)
    ensures Bit(x % Pow2(m), n) == if n < m then Bit(x, n) else 0
    decreases m
  {
    if m == 0 {
      ZeroBits(n);
    } else {
      var low, lowHalf := x % Pow2(m), x / 2 % Pow2(m - 1);
      RemainderOfHalf(x, Pow2(m - 1));
      HalfAndBit(low, lowHalf, x % 2);
      if n > 0 {
        BitOfHalf(x, n);
        BitOfHalf(low, n);
        LowBits(x / 2, m - 1, n - 1);
      } else {
        LowestBit(x);
        LowestBit(low);
      }
    }
  }

  lemma HalfAndBit(x: nat, half: nat, bit: nat)
    requires x == 2 * half + bit && bit < 2
    ensures x / 2 == half && x % 2 == bit
  {
  }

  lemma LowestBit(x: nat)
    ensures Bit(x, 0) == x % 2
  {
  }

  lemma ZeroBits(n: nat)
    ensures Bit(0, n) == 0
  {
  }

  lemma {:induction false} XorBitsByBit(a: nat, b: nat, width: nat, n: nat)
    requires n < width
    ensures Bit(XorBits(a, b, width), n) == if Bit(a, n) == Bit(b, n) then 0 else 1
  {
    var x := XorBits(a, b, width);
    HalfAndBit(x, XorBits(a / 2, b / 2, width - 1), if a % 2 == b % 2 then 0 else 1);
    if n > 0 {
      BitOfHalf(x, n);
      BitOfHalf(a, n);
      BitOfHalf(b, n);
      XorBitsByBit(a / 2, b / 2, width - 1, n - 1);
    } else {
      LowestBit(x);
      LowestBit(a);
      LowestBit(b);
    }
  }

  /** Every bit of the result is 1 exactly where the two bytes differ. */
  lemma XorByBit(a: Byte, b: Byte, n: nat)
    requires n < 8
    ensures Xor(a, b) / Pow2(n) % 2 == if a / Pow2(n) % 2 == b / Pow2(n) % 2 then 0 else 1
  {
    XorBitsByBit(a, b, 8, n);
  }

  lemma XorTwice(a: Byte, b: Byte)
    ensures Xor(Xor(a, b), b) == a
  {
    Pow2Of8();
    XorBitsTwice(a, b, 8);
  }

  function BigEndian(b: ByteSeq): nat {
    if b == [] then 0 else BigEndian(b[..|b| - 1]) * 256 + b[|b| - 1]
  }

  function PutBigEndian(n: nat, width: nat): (b: ByteSeq)
    ensures |b| == width
  {
    if width == 0 then [] else PutBigEndian(n / 256, width - 1) + [n % 256]
  }

  function Pow256(width: nat): (p: nat)
    ensures p >= 1
  {
    if width == 0 then 1 else 256 * Pow256(width - 1)
  }

  /** Earlier bytes weigh more. */
  lemma {:induction false} BigEndianJoin(x: ByteSeq, y: ByteSeq)
    ensures BigEndian(x + y) == BigEndian(x) * Pow256(|y|) + BigEndian(y)
    decreases |y|
  {
    if y == [] {
      assert x + y == x;
    } else {
      var init, last := y[..|y| - 1], y[|y| - 1];
      assert (x + y)[..|x| + |y| - 1] == x + init;
      BigEndianJoin(x, init);
      Distribute(BigEndian(x), Pow256(|init|), BigEndian(init), last);
    }
  }

  lemma Distribute(x: nat, p: nat, y: nat, last: nat)
    ensures (x * p + y) * 256 + last == x * (256 * p) + (y * 256 + last)
  {
  }

  lemma OneByte(b: ByteSeq)
    requires |b| == 1
    ensures BigEndian(b) == b[0]
  {
    assert b[..0] == [];
  }

  lemma TwoBytes(b: ByteSeq)
    requires |b| == 2
    ensures BigEndian(b) == (b[0] as int) * 256 + b[1]
  {
    OneByte(b[..1]);
  }

  lemma FourBytes(b: ByteSeq)
    requires |b| == 4
    ensures BigEndian(b) == (((b[0] as int) * 256 + b[1]) * 256 + b[2]) * 256 + b[3]
  {
    assert b[..3][..2] == b[..2];
    TwoBytes(b[..2]);
  }

  lemma EightBytes(b: ByteSeq)
    requires |b| == 8
    ensures BigEndian(b) == BigEndian(b[..4]) * 0x1_0000_0000 + BigEndian(b[4..])
  {
    assert b == b[..4] + b[4..];
    BigEndianJoin(b[..4], b[4..]);
    assert Pow256(4) == 0x1_0000_0000;
  }

  lemma {:induction false} PutThenRead(n: nat, width: nat)
    requires n < Pow256(width)
    ensures BigEndian(PutBigEndian(n, width)) == n
  {
    if width > 0 {
      PutThenRead(n / 256, width - 1);
      var b := PutBigEndian(n, width);
      assert b[..|b| - 1] == PutBigEndian(n / 256, width - 1);
    }
  }

  lemma {:induction false} ReadThenPut(b: ByteSeq)
    ensures BigEndian(b) < Pow256(|b|)
    ensures PutBigEndian(BigEndian(b), |b|) == b
  {
    if b != [] {
      var init := b[..|b| - 1];
      ReadThenPut(init);
      assert BigEndian(b) / 256 == BigEndian(init) && BigEndian(b) % 256 == b[|b| - 1];
      assert b == init + [b[|b| - 1]];
    }
  }

  /** Two sequences of the same length with the same value are the same. */
  lemma BigEndianInjective(a: ByteSeq, b: ByteSeq)
    requires |a| == |b| && BigEndian(a) == BigEndian(b)
    ensures a == b
  {
    ReadThenPut(a);
    ReadThenPut(b);
  }
}
