/**
 * IPv4 addresses and networks as the library sees them: an address is a
 * 32-bit unsigned integer in host byte order, a network (`Ipv4Net`) is an
 * address and a prefix length of at most 32.
 *
 * Bit operations are written as arithmetic on unbounded integers: clearing
 * the k low bits of x (`x & !(2^k - 1)`) is ClearLow(x, k).
 */
module Ipv4 {

  type u8 = x: int | 0 <= x < 0x100
  type u32 = x: int | 0 <= x < 0x1_0000_0000

  const U32Max: int := 0xFFFF_FFFF

  function Pow2(n: nat): (r: nat)
    ensures r >= 1
  {
    if n == 0 then 1 else 2 * Pow2(n - 1)
  }

  function Min(a: int, b: int): int { if a <= b then a else b }
  function Max(a: int, b: int): int { if a >= b then a else b }

  /** x with its k low bits cleared. */
  function ClearLow(x: nat, k: nat): (r: nat)
    ensures r <= x < r + Pow2(k)
  {
    if k == 0 then x else 2 * ClearLow(x / 2, k - 1)
  }

  /** A network: base address and prefix length. */
  datatype Net = Net(addr: u32, prefixLen: u8)

  /** Number of host bits of a network with the given prefix length. */
  function HostBits(prefixLen: int): nat
    requires 0 <= prefixLen <= 32
  {
    32 - prefixLen
  }

  /** Number of addresses in a network of the given prefix length. */
  function Size(prefixLen: int): (r: nat)
    requires 0 <= prefixLen <= 32
  {
    Pow2(HostBits(prefixLen))
  }

  /** The network address (`addr & netmask`). */
  function NetworkAddr(n: Net): (r: nat)
    requires n.prefixLen <= 32
    ensures r <= n.addr < r + Size(n.prefixLen)
  {
    ClearLow(n.addr, HostBits(n.prefixLen))
  }

  /** The broadcast address (`addr | hostmask`). */
  function Broadcast(n: Net): int
    requires n.prefixLen <= 32
  {
    NetworkAddr(n) + Size(n.prefixLen) - 1
  }

  /** `Ipv4Net::contains` for an address: network address <= q <= broadcast address. */
  predicate Contains(n: Net, q: int)
    requires n.prefixLen <= 32
  {
    NetworkAddr(n) <= q <= Broadcast(n)
  }

  /** The base address has no host bits set. */
  predicate Aligned(n: Net)
    requires n.prefixLen <= 32
  {
    NetworkAddr(n) == n.addr
  }

  /** Last address of the block that starts at the base address. */
  function Last(n: Net): int
    requires n.prefixLen <= 32
  {
    n.addr + Size(n.prefixLen) - 1
  }

  /** q lies in the block [addr, Last] that starts at the base address. */
  predicate InBlock(n: Net, q: int)
    requires n.prefixLen <= 32
  {
    n.addr <= q <= Last(n)
  }

  /** For an aligned network, containment is membership in the block from its base address. */
  lemma AlignedContains(n: Net, q: int)
    requires n.prefixLen <= 32 && Aligned(n)
    ensures Contains(n, q) <==> InBlock(n, q)
  {
  }

  /** floor(log2 n): the index of the highest set bit (`32 - leading_zeros - 1`). */
  function Log2Floor(n: int): (r: nat)
    requires n >= 1
    ensures Pow2(r) <= n < Pow2(r + 1)
  {
    if n == 1 then 0 else 1 + Log2Floor(n / 2)
  }

  /** `u32::trailing_zeros`: the number of low zero bits, 32 for zero. */
  function TrailingZeros(x: u32): (r: nat)
    ensures r <= 32
    ensures ClearLow(x, r) == x
    ensures x != 0 ==> ClearLow(x, r + 1) != x
  {
    Pow2Of32();
    LowZeros(x, 32)
  }

  lemma Pow2Of32()
    ensures Pow2(32) == 0x1_0000_0000
  {
    assert Pow2(2) == 4;
    assert Pow2(4) == 16;
    assert Pow2(6) == 64;
    assert Pow2(8) == 256;
    assert Pow2(10) == 1024;
    assert Pow2(12) == 4096;
    assert Pow2(14) == 16384;
    assert Pow2(16) == 65536;
    assert Pow2(18) == 262144;
    assert Pow2(20) == 1048576;
    assert Pow2(22) == 4194304;
    assert Pow2(24) == 16777216;
    assert Pow2(26) == 67108864;
    assert Pow2(28) == 268435456;
    assert Pow2(30) == 1073741824;
    assert Pow2(32) == 4294967296;
  }

  /** Number of low zero bits of x among its `width` lowest bits. */
  function LowZeros(x: nat, width: nat): (r: nat)
    ensures r <= width
    ensures ClearLow(x, r) == x
    ensures x != 0 && x < Pow2(width) ==> ClearLow(x, r + 1) != x
  {
    if width == 0 || x % 2 == 1 then 0
    else 1 + LowZeros(x / 2, width - 1)
  }

  /** Zero has all of its low bits clear: `0u32.trailing_zeros()` is 32. */
  lemma {:induction false} LowZerosOfZero(width: nat)
    ensures LowZeros(0, width) == width
  {
    if width > 0 { LowZerosOfZero(width - 1); }
  }

  lemma {:induction false} PowMonotone(a: nat, b: nat)
    requires a <= b
    ensures Pow2(a) <= Pow2(b)
    decreases b
  {
    if a < b { PowMonotone(a, b - 1); }
  }

  /** Having the b low bits clear implies having every smaller number of low bits clear. */
  lemma {:induction false} ClearLowWeaken(x: nat, a: nat, b: nat)
    requires a <= b && ClearLow(x, b) == x
    ensures ClearLow(x, a) == x
    decreases b
  {
    if a > 0 {
      ClearLowWeaken(x / 2, a - 1, b - 1);
    }
  }
}
