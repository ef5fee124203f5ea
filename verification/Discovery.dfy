/** Expanding an IPv4 prefix into its addresses, with the byte-wise carry and its wrap-around. */
module Discovery {
  import opened Bytes
  import opened Wrappers

  type Address = b: ByteSeq | |b| == 4 witness [0, 0, 0, 0]

  const ADDRESS_SPACE := 0x1_0000_0000

  /** The number of addresses under a prefix length. */
  function BlockSize(ones: nat): (size: nat)
    requires ones <= 32
    ensures size >= 1
  {
    Pow2(32 - ones)
  }

  /** net.IPNet.Contains: the leading bits agree. */
  predicate InBlock(a: Address, base: Address, ones: nat)
    requires ones <= 32
  {
    BigEndian(a) / BlockSize(ones) == BigEndian(base) / BlockSize(ones)
  }

  /** A value with its part below `size` cleared. */
  function RoundedDown(x: nat, size: nat): (r: nat)
    requires size >= 1
    ensures r <= x
  {
    x - x % size
  }

  /** The value of the block's first address: the base with its host bits cleared. */
  function FirstOf(base: Address, ones: nat): nat
    requires ones <= 32
  {
    RoundedDown(BigEndian(base), BlockSize(ones))
  }

  function AddressOf(value: nat): Address {
    PutBigEndian(value, 4)
  }

  /** `count` consecutive addresses from the value `from`. */
  function Consecutive(from: nat, count: nat): (addresses: seq<Address>)
    ensures |addresses| == count
  {
    seq<Address>(count, k requires 0 <= k < count => AddressOf(from + k))
  }

  datatype ExpandError = OnlyIPv4 | TooLarge

  // ---- the increment ----

  /** One more, with carry from the last byte; all ones wraps to zero. */
  function Incremented(b: ByteSeq): (r: ByteSeq)
    ensures |r| == |b|
  {
    if b == [] then []
    else if b[|b| - 1] == 255 then Incremented(b[..|b| - 1]) + [0]
    else b[..|b| - 1] + [b[|b| - 1] + 1]
  }

  method IncIP(ip: array<Byte>)
    modifies ip
    ensures ip[..] == Incremented(old(ip[..]))
  {
    var i := ip.Length - 1;
    ghost var was := ip[..];
    while i >= 0
      invariant -1 <= i < ip.Length
      invariant forall k | 0 <= k <= i :: ip[k] == was[k]
      invariant forall k | i < k < ip.Length :: was[k] == 255 && ip[k] == 0
    {
      ip[i] := if ip[i] == 255 then 0 else ip[i] + 1;
      if ip[i] != 0 {
        break;
      }
      i := i - 1;
    }
    CarryStopsAt(was, i, ip[..]);
  }

  /** Incrementing clears the trailing bytes 255 and adds one to the byte before them, if there is one. */
  lemma {:induction false} CarryStopsAt(b: ByteSeq, i: int, r: ByteSeq)
    requires |r| == |b| && -1 <= i < |b|
    requires forall k | 0 <= k < i :: r[k] == b[k]
    requires i >= 0 ==> b[i] < 255 && r[i] == b[i] + 1
    requires forall k | i < k < |b| :: b[k] == 255 && r[k] == 0
    ensures Incremented(b) == r
    decreases |b|
  {
    if b != [] {
      var n := |b| - 1;
      assert r == r[..n] + [r[n]];
      if i < n {
        CarryStopsAt(b[..n], i, r[..n]);
      } else {
        assert r[..n] == b[..n];
      }
    }
  }

  /** The carry adds one to the value, except that the largest value wraps to zero. */
  lemma {:induction false} IncrementAddsOne(b: ByteSeq)
    ensures BigEndian(b) < Pow256(|b|)
    ensures BigEndian(Incremented(b)) == if BigEndian(b) + 1 == Pow256(|b|) then 0 else BigEndian(b) + 1
  {
    if b != [] {
      var init, last := b[..|b| - 1], b[|b| - 1];
      IncrementAddsOne(init);
      if last == 255 {
        var r := Incremented(init) + [0];
        assert r[..|r| - 1] == Incremented(init);
      } else {
        var r := init + [last + 1];
        assert r[..|r| - 1] == init;
      }
    }
  }

  // ---- arithmetic of blocks ----

  lemma {:induction false} Pow2Adds(a: nat, b: nat)
    ensures Pow2(a + b) == Pow2(a) * Pow2(b)
  {
    if a > 0 {
      Pow2Adds(a - 1, b);
    }
  }

  lemma Pow2Of32()
    ensures Pow2(32) == ADDRESS_SPACE
  {
    Pow2Of8();
    Pow2Adds(8, 8);
    Pow2Adds(16, 16);
  }

  lemma BlocksFillSpace(ones: nat)
    requires ones <= 32
    ensures Pow2(ones) * BlockSize(ones) == ADDRESS_SPACE
  {
    Pow2Adds(ones, 32 - ones);
    Pow2Of32();
  }

  lemma {:induction false} SameQuotient(x: nat, y: nat, size: nat)
    requires size >= 1
    ensures x / size == y / size <==> RoundedDown(y, size) <= x < RoundedDown(y, size) + size
  {
    assert y == y / size * size + y % size;
    QuotientRange(x, y / size, size);
  }

  lemma {:induction false} RoundedFits(y: nat, n: nat, size: nat)
    requires size >= 1 && y < n * size
    ensures RoundedDown(y, size) + size <= n * size
  {
    var q := y / size;
    assert y == q * size + y % size;
    if q >= n {
      TimesMonotone(n, q, size);
    }
    TimesMonotone(q + 1, n, size);
  }

  lemma Pow256Of4()
    ensures Pow256(4) == ADDRESS_SPACE
  {
  }

  lemma AddressValue(value: nat)
    requires value < ADDRESS_SPACE
    ensures BigEndian(AddressOf(value)) == value
  {
    Pow256Of4();
    PutThenRead(value, 4);
  }

  lemma BlockEndsInSpace(base: Address, ones: nat)
    requires ones <= 32
    ensures FirstOf(base, ones) + BlockSize(ones) <= ADDRESS_SPACE
  {
    BlocksFillSpace(ones);
    ReadThenPut(base);
    Pow256Of4();
    RoundedFits(BigEndian(base), Pow2(ones), BlockSize(ones));
  }

  /** The block is the stretch of `BlockSize` values from its first. */
  lemma {:induction false} BlockIsStretch(a: Address, base: Address, ones: nat)
    requires ones <= 32
    ensures InBlock(a, base, ones) <==> FirstOf(base, ones) <= BigEndian(a) < FirstOf(base, ones) + BlockSize(ones)
  {
    SameQuotient(BigEndian(a), BigEndian(base), BlockSize(ones));
  }

  /** A block that ends the address space does not begin it, so wrapping to zero leaves it. */
  lemma WrapLeavesBlock(base: Address, ones: nat)
    requires 1 <= ones <= 32 && FirstOf(base, ones) + BlockSize(ones) == ADDRESS_SPACE
    ensures FirstOf(base, ones) > 0
  {
    BlocksFillSpace(ones);
    TimesMonotone(2, Pow2(ones), BlockSize(ones));
  }

  // ---- the expansion ----

  /** The loop's address after `n` turns: the n-th of the block, or one outside it once the block is used up. */
  ghost predicate At(a: Address, base: Address, ones: nat, n: nat)
    requires ones <= 32
  {
    if n < BlockSize(ones) then BigEndian(a) == FirstOf(base, ones) + n else !InBlock(a, base, ones)
  }

  lemma StillInside(a: Address, base: Address, ones: nat, n: nat)
    requires ones <= 32 && At(a, base, ones, n) && InBlock(a, base, ones)
    ensures n < BlockSize(ones) && a == AddressOf(FirstOf(base, ones) + n)
  {
    ReadThenPut(a);
  }

  lemma NextAddress(a: Address, base: Address, ones: nat, n: nat)
    requires 1 <= ones <= 32 && n < BlockSize(ones) && At(a, base, ones, n)
    ensures At(Incremented(a), base, ones, n + 1)
  {
    IncrementAddsOne(a);
    Pow256Of4();
    BlockEndsInSpace(base, ones);
    BlockIsStretch(Incremented(a), base, ones);
    if n + 1 == BlockSize(ones) && FirstOf(base, ones) + BlockSize(ones) == ADDRESS_SPACE {
      WrapLeavesBlock(base, ones);
    }
  }

  lemma InsideUnlessUsedUp(a: Address, base: Address, ones: nat, n: nat)
    requires ones <= 32 && n < BlockSize(ones) && At(a, base, ones, n)
    ensures InBlock(a, base, ones)
  {
    BlockIsStretch(a, base, ones);
  }

  lemma ConsecutiveOneMore(from: nat, count: nat)
    ensures Consecutive(from, count + 1) == Consecutive(from, count) + [AddressOf(from + count)]
  {
  }

  /** The addresses a scan visits: the block, without its first and last for prefixes up to /30. */
  function Hosts(base: Address, ones: nat): seq<Address>
    requires ones <= 32
  {
    var all := Consecutive(FirstOf(base, ones), BlockSize(ones));
    if ones <= 30 && |all| >= 2 then all[1..|all| - 1] else all
  }

  /** The parsed prefix is given: its base address, prefix length and address width in bits. */
  method ExpandCIDR(base: Address, ones: nat, bits: nat) returns (r: Result<seq<Address>, ExpandError>)
    requires ones <= bits
    ensures bits != 32 ==> r == Failure(OnlyIPv4)
    ensures bits == 32 && ones < 16 ==> r == Failure(TooLarge)
    ensures bits == 32 && ones >= 16 ==> r == Success(Hosts(base, ones))
  {
    if bits != 32 {
      return Failure(OnlyIPv4);
    }
    if ones < 16 {
      return Failure(TooLarge);
    }
    ghost var first, size := FirstOf(base, ones), BlockSize(ones);
    BlockEndsInSpace(base, ones);
    var start := AddressOf(RoundedDown(BigEndian(base), BlockSize(ones)));
    AddressValue(first);
    var ip := new Byte[4](k requires 0 <= k < 4 => start[k]);
    assert ip[..] == start;
    var out: seq<Address> := [];
    ghost var now: Address := start;
    while InBlock(ip[..], base, ones)
      invariant ip[..] == now && At(now, base, ones, |out|)
      invariant |out| <= size && out == Consecutive(first, |out|)
      decreases size - |out|
    {
      StillInside(now, base, ones, |out|);
      ConsecutiveOneMore(first, |out|);
      out := out + [ip[..]];
      IncIP(ip);
      NextAddress(now, base, ones, |out| - 1);
      now := Incremented(now);
    }
    if |out| < size {
      InsideUnlessUsedUp(now, base, ones, |out|);
    }
    if ones <= 30 && |out| >= 2 {
      out := out[1..|out| - 1];
    }
    r := Success(out);
  }

  /** How many addresses are left out before the first host. */
  function Skipped(ones: nat): nat {
    if ones <= 30 then 1 else 0
  }

  lemma ConsecutiveAt(from: nat, count: nat, k: nat)
    requires k < count
    ensures Consecutive(from, count)[k] == AddressOf(from + k)
  {
  }

  lemma HostValue(base: Address, ones: nat, i: nat)
    requires ones <= 32 && i < |Hosts(base, ones)|
    ensures BigEndian(Hosts(base, ones)[i]) == FirstOf(base, ones) + Skipped(ones) + i
  {
    SmallBlocks(ones);
    BlockEndsInSpace(base, ones);
    var first, k := FirstOf(base, ones), Skipped(ones) + i;
    ConsecutiveAt(first, BlockSize(ones), k);
    AddressValue(first + k);
  }

  /** The values of the hosts: the block's, without the first and the last for prefixes up to /30. */
  predicate IsHostValue(value: nat, base: Address, ones: nat)
    requires ones <= 32
  {
    FirstOf(base, ones) + Skipped(ones) <= value < FirstOf(base, ones) + BlockSize(ones) - Skipped(ones)
  }

  lemma HostMembership(a: Address, base: Address, ones: nat)
    requires ones <= 32
    ensures a in Hosts(base, ones) <==> IsHostValue(BigEndian(a), base, ones)
  {
    var hosts := Hosts(base, ones);
    SmallBlocks(ones);
    if a in hosts {
      var i :| 0 <= i < |hosts| && hosts[i] == a;
      HostValue(base, ones, i);
    }
    if IsHostValue(BigEndian(a), base, ones) {
      var i := BigEndian(a) - FirstOf(base, ones) - Skipped(ones);
      HostValue(base, ones, i);
      BigEndianInjective(a, hosts[i]);
    }
  }

  /**
   * For every prefix length and every base: exactly the addresses of the block are listed, each once and in ascending
   * order, except that up to /30 the first and the last are left out; and their number is 2^(32-p), or two less.
   */
  lemma HostsAreTheBlock(base: Address, ones: nat)
    requires ones <= 32
    ensures
      var hosts, first, size := Hosts(base, ones), FirstOf(base, ones), BlockSize(ones);
      && |hosts| == (if ones <= 30 then size - 2 else size)
      && (forall i, j | 0 <= i < j < |hosts| :: BigEndian(hosts[i]) < BigEndian(hosts[j]))
      && (forall a: Address :: a in hosts <==>
            InBlock(a, base, ones) && (ones <= 30 ==> BigEndian(a) != first && BigEndian(a) != first + size - 1))
  {
    var hosts, first, size := Hosts(base, ones), FirstOf(base, ones), BlockSize(ones);
    SmallBlocks(ones);
    forall i, j | 0 <= i < j < |hosts|
      ensures BigEndian(hosts[i]) < BigEndian(hosts[j])
    {
      HostValue(base, ones, i);
      HostValue(base, ones, j);
    }
    forall a: Address
      ensures a in hosts <==>
                InBlock(a, base, ones) && (ones <= 30 ==> BigEndian(a) != first && BigEndian(a) != first + size - 1)
    {
      BlockIsStretch(a, base, ones);
      HostMembership(a, base, ones);
    }
  }

  // ---- the same by bits ----

  ghost predicate AllBits(x: nat, m: nat, b: nat) {
    forall n: nat | n < m :: Bit(x, n) == b
  }

  ghost predicate AgreeFrom(x: nat, y: nat, m: nat, width: nat) {
    forall n: nat | m <= n < width :: Bit(x, n) == Bit(y, n)
  }

  /** The bits of a number below `m` are its lowest bit and those of its half below m - 1. */
  lemma AllBitsOfHalf(x: nat, m: nat, b: nat)
    requires m > 0
    ensures AllBits(x, m, b) <==> x % 2 == b && AllBits(x / 2, m - 1, b)
  {
    LowestBit(x);
    forall n: nat | 0 < n < m
      ensures Bit(x, n) == Bit(x / 2, n - 1)
    {
      BitOfHalf(x, n);
    }
    forall n: nat | n < m - 1
      ensures Bit(x / 2, n) == Bit(x, n + 1)
    {
      BitOfHalf(x, n + 1);
    }
  }

  lemma {:induction false} LowBitsZero(x: nat, m: nat)
    ensures x % Pow2(m) == 0 <==> AllBits(x, m, 0)
  {
    if m > 0 {
      RemainderOfHalf(x, Pow2(m - 1));
      LowBitsZero(x / 2, m - 1);
      AllBitsOfHalf(x, m, 0);
    }
  }

  lemma {:induction false} LowBitsOne(x: nat, m: nat)
    ensures x % Pow2(m) == Pow2(m) - 1 <==> AllBits(x, m, 1)
  {
    if m > 0 {
      RemainderOfHalf(x, Pow2(m - 1));
      LowBitsOne(x / 2, m - 1);
      AllBitsOfHalf(x, m, 1);
    }
  }

  lemma AgreeFromHalf(x: nat, y: nat, m: nat, width: nat)
    requires 0 < m <= width
    ensures AgreeFrom(x, y, m, width) <==> AgreeFrom(x / 2, y / 2, m - 1, width - 1)
  {
    forall n: nat | m <= n < width
      ensures Bit(x, n) == Bit(x / 2, n - 1) && Bit(y, n) == Bit(y / 2, n - 1)
    {
      BitOfHalf(x, n);
      BitOfHalf(y, n);
    }
    forall n: nat | m - 1 <= n < width - 1
      ensures Bit(x / 2, n) == Bit(x, n + 1) && Bit(y / 2, n) == Bit(y, n + 1)
    {
      BitOfHalf(x, n + 1);
      BitOfHalf(y, n + 1);
    }
  }

  lemma AgreeFromZero(x: nat, y: nat, width: nat)
    requires width > 0
    ensures AgreeFrom(x, y, 0, width) <==> x % 2 == y % 2 && AgreeFrom(x, y, 1, width)
  {
    LowestBit(x);
    LowestBit(y);
  }

  /** Quotients by a power of two are equal exactly if all bits from there on are. */
  lemma {:induction false} HighBitsAgree(x: nat, y: nat, m: nat, width: nat)
    requires m <= width && x < Pow2(width) && y < Pow2(width)
    ensures x / Pow2(m) == y / Pow2(m) <==> AgreeFrom(x, y, m, width)
    decreases width
  {
    if m > 0 {
      HalfThenDivide(x, Pow2(m - 1));
      HalfThenDivide(y, Pow2(m - 1));
      HighBitsAgree(x / 2, y / 2, m - 1, width - 1);
      AgreeFromHalf(x, y, m, width);
    } else if width > 0 {
      HighBitsAgree(x / 2, y / 2, 0, width - 1);
      AgreeFromHalf(x, y, 1, width);
      AgreeFromZero(x, y, width);
    }
  }

  /** The first bits of the address are those of the base. */
  ghost predicate SharesPrefix(a: Address, base: Address, ones: nat)
    requires ones <= 32
  {
    forall n: nat | 32 - ones <= n < 32 :: Bit(BigEndian(a), n) == Bit(BigEndian(base), n)
  }

  /** All bits behind the prefix are `b`. */
  ghost predicate HostBitsAre(a: Address, ones: nat, b: nat)
    requires ones <= 32
  {
    forall n: nat | n < 32 - ones :: Bit(BigEndian(a), n) == b
  }

  /**
   * By bits: an address is a host exactly if it shares the base's first `ones` bits and, up to /30, the bits behind
   * them are neither all zero nor all one; and hosts are listed in ascending order, each once.
   */
  lemma HostsByBits(base: Address, ones: nat)
    requires ones <= 32
    ensures
      var hosts := Hosts(base, ones);
      && (forall a: Address :: a in hosts <==>
            SharesPrefix(a, base, ones) && (ones <= 30 ==> !HostBitsAre(a, ones, 0) && !HostBitsAre(a, ones, 1)))
      && (forall i, j | 0 <= i < j < |hosts| :: BigEndian(hosts[i]) < BigEndian(hosts[j]))
      && |hosts| == if ones <= 30 then Pow2(32 - ones) - 2 else Pow2(32 - ones)
  {
    HostsAreTheBlock(base, ones);
    forall a: Address
      ensures InBlock(a, base, ones) <==> SharesPrefix(a, base, ones)
      ensures InBlock(a, base, ones) ==> (BigEndian(a) == FirstOf(base, ones) <==> HostBitsAre(a, ones, 0))
      ensures InBlock(a, base, ones) ==>
                (BigEndian(a) == FirstOf(base, ones) + BlockSize(ones) - 1 <==> HostBitsAre(a, ones, 1))
    {
      PrefixByBits(a, base, ones);
      EndsByBits(a, base, ones);
    }
  }

  lemma PrefixByBits(a: Address, base: Address, ones: nat)
    requires ones <= 32
    ensures InBlock(a, base, ones) <==> SharesPrefix(a, base, ones)
  {
    ReadThenPut(a);
    ReadThenPut(base);
    Pow256Of4();
    Pow2Of32();
    HighBitsAgree(BigEndian(a), BigEndian(base), 32 - ones, 32);
  }

  lemma EndsByBits(a: Address, base: Address, ones: nat)
    requires ones <= 32
    ensures InBlock(a, base, ones) ==> (BigEndian(a) == FirstOf(base, ones) <==> HostBitsAre(a, ones, 0))
    ensures InBlock(a, base, ones) ==>
              (BigEndian(a) == FirstOf(base, ones) + BlockSize(ones) - 1 <==> HostBitsAre(a, ones, 1))
  {
    var x, y, size := BigEndian(a), BigEndian(base), BlockSize(ones);
    LowBitsZero(x, 32 - ones);
    LowBitsOne(x, 32 - ones);
    if InBlock(a, base, ones) {
      RoundedSame(x, y, size);
    }
  }

  lemma RoundedSame(x: nat, y: nat, size: nat)
    requires size >= 1 && x / size == y / size
    ensures RoundedDown(x, size) == RoundedDown(y, size)
  {
    assert x == x / size * size + x % size && y == y / size * size + y % size;
  }

  lemma SmallBlocks(ones: nat)
    requires ones <= 32
    ensures ones <= 30 ==> BlockSize(ones) >= 4
  {
    if ones <= 30 {
      Pow2Adds(2, 30 - ones);
      assert Pow2(2) == 4;
    }
  }
}
