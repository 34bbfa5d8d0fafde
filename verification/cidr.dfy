/**
 * Range-to-CIDR decomposition (`Ipv4Subnets::new(start, end, 8)`): the
 * closed range [start, end] is cut, left to right, into the widest
 * aligned power-of-two blocks that fit, except that no block is wider
 * than a /8 (its prefix length is at least MinPrefixLen). Each block's
 * prefix length is computed as ipnet's `next_ipv4_subnet` does it, from
 * the trailing zeros of the start address and the highest set bit of the
 * saturating range size.
 */
module Cidr {
  import opened Ipv4

  /** The minimum prefix length the library passes to the decomposition. */
  const MinPrefixLen: int := 8

  /**
   * Prefix length of the next block starting at `start`: limited by the
   * size of the remaining range (its highest set bit), by the alignment of
   * `start` (its trailing zeros) and by MinPrefixLen. The remaining size is
   * computed with saturating 32-bit arithmetic as `(end - start) + 1`.
   */
  function NextPrefixLen(start: u32, end: u32): (p: int)
    requires start <= end
    ensures MinPrefixLen <= p <= 32
    ensures Aligned(Net(start, p))
    ensures start + Size(p) - 1 <= end
  {
    var rangeBits := Log2Floor(Min(end - start + 1, U32Max));
    var startTz := TrailingZeros(start);
    ChosenBlockFits(start, end, rangeBits, startTz);
    Max(32 - Min(rangeBits, startTz), MinPrefixLen)
  }

  /**
   * The block of prefix length max(32 - min(rangeBits, startTz), MinPrefixLen)
   * is aligned at start and ends within the range, when 2^rangeBits is at
   * most the range size and start has startTz low bits clear.
   */
  lemma ChosenBlockFits(start: u32, end: u32, rangeBits: nat, startTz: nat)
    requires start <= end
    requires Pow2(rangeBits) <= Min(end - start + 1, U32Max)
    requires startTz <= 32 && ClearLow(start, startTz) == start
    ensures var p := Max(32 - Min(rangeBits, startTz), MinPrefixLen);
      MinPrefixLen <= p <= 32 && Aligned(Net(start, p)) && start + Size(p) - 1 <= end
  {
    assert rangeBits < 32 by {
      Pow2Of32();
      if rangeBits >= 32 { PowMonotone(32, rangeBits); }
    }
    var p := Max(32 - Min(rangeBits, startTz), MinPrefixLen);
    assert Aligned(Net(start, p)) by { ClearLowWeaken(start, 32 - p, startTz); }
    assert start + Size(p) - 1 <= end by { PowMonotone(32 - p, rangeBits); }
  }

  /**
   * The block NextPrefixLen picks is the widest one allowed: every wider
   * block of prefix length at least MinPrefixLen is either not aligned at
   * start or runs past end.
   */
  lemma NextPrefixLenWidest(start: u32, end: u32, p2: int)
    requires start <= end && MinPrefixLen <= p2 < NextPrefixLen(start, end)
    ensures !Aligned(Net(start, p2)) || start + Size(p2) - 1 > end
  {
    var rangeBits := Log2Floor(Min(end - start + 1, U32Max));
    var startTz := TrailingZeros(start);
    var k := 32 - p2;
    assert k > Min(rangeBits, startTz) by {
      assert NextPrefixLen(start, end) == Max(32 - Min(rangeBits, startTz), MinPrefixLen);
    }
    if k > startTz {
      assert !Aligned(Net(start, p2)) by { BeyondTrailingZeros(start, k); }
    } else {
      assert start + Size(p2) - 1 > end by { BeyondRange(start, end, k); }
    }
  }

  /** Clearing more low bits than x has trailing zeros changes x. */
  lemma BeyondTrailingZeros(x: u32, k: nat)
    requires TrailingZeros(x) < k <= 32
    ensures ClearLow(x, k) != x
  {
    if x == 0 {
      ZeroTrailingZeros(x);
    } else if ClearLow(x, k) == x {
      ClearLowWeaken(x, TrailingZeros(x) + 1, k);
    }
  }

  lemma ZeroTrailingZeros(x: u32)
    requires x == 0
    ensures TrailingZeros(x) == 32
  {
    var width := 32;
    LowZerosOfZero(width);
  }

  /** A block of more than 2^(highest bit of the range size) addresses runs past the range. */
  lemma BeyondRange(start: u32, end: u32, k: nat)
    requires start <= end && Log2Floor(Min(end - start + 1, U32Max)) < k <= 24
    ensures start + Pow2(k) - 1 > end
  {
    var range := Min(end - start + 1, U32Max);
    PowMonotone(Log2Floor(range) + 1, k);
    if range != end - start + 1 {
      PowMonotone(k, 31);
      Pow2Of32();
    }
  }

  /**
   * nets cuts [start, end] into consecutive aligned blocks of prefix length
   * MinPrefixLen..32, in increasing address order; no blocks when start > end.
   */
  predicate Tiles(nets: seq<Net>, start: int, end: int)
  {
    && (nets == [] <==> start > end)
    && (forall i :: 0 <= i < |nets| ==> MinPrefixLen <= nets[i].prefixLen <= 32 && Aligned(nets[i]))
    && (nets != [] ==> nets[0].addr == start && Last(nets[|nets| - 1]) == end)
    && (forall i :: 0 <= i < |nets| - 1 ==> nets[i + 1].addr == Last(nets[i]) + 1)
    && (forall i, j :: 0 <= i < j < |nets| ==> Last(nets[i]) < nets[j].addr)
  }

  /** A first block followed by a tiling of the rest of the range tiles the whole range. */
  lemma TilesCons(first: Net, rest: seq<Net>, end: int)
    requires MinPrefixLen <= first.prefixLen <= 32 && Aligned(first) && Last(first) <= end
    requires Tiles(rest, Last(first) + 1, end)
    ensures Tiles([first] + rest, first.addr, end)
  {
    TilesConsBlocks(first, rest, end);
    TilesConsNext(first, rest, end);
    TilesConsOrder(first, rest, end);
  }

  lemma TilesConsBlocks(first: Net, rest: seq<Net>, end: int)
    requires MinPrefixLen <= first.prefixLen <= 32 && Aligned(first) && Last(first) <= end
    requires Tiles(rest, Last(first) + 1, end)
    ensures var nets := [first] + rest;
      forall i :: 0 <= i < |nets| ==> MinPrefixLen <= nets[i].prefixLen <= 32 && Aligned(nets[i])
  {
    var nets := [first] + rest;
    assert forall i :: 1 <= i < |nets| ==> nets[i] == rest[i - 1];
  }

  lemma TilesConsNext(first: Net, rest: seq<Net>, end: int)
    requires MinPrefixLen <= first.prefixLen <= 32 && Aligned(first) && Last(first) <= end
    requires Tiles(rest, Last(first) + 1, end)
    ensures var nets := [first] + rest;
      forall i :: 0 <= i < |nets| - 1 ==> nets[i + 1].addr == Last(nets[i]) + 1
  {
    var nets := [first] + rest;
    assert forall i :: 1 <= i < |nets| ==> nets[i] == rest[i - 1];
  }

  lemma TilesConsOrder(first: Net, rest: seq<Net>, end: int)
    requires MinPrefixLen <= first.prefixLen <= 32 && Aligned(first) && Last(first) <= end
    requires Tiles(rest, Last(first) + 1, end)
    ensures var nets := [first] + rest;
      forall i, j :: 0 <= i < j < |nets| ==> Last(nets[i]) < nets[j].addr
  {
    var nets := [first] + rest;
    assert forall i :: 1 <= i < |nets| ==> nets[i] == rest[i - 1];
    if rest != [] {
      assert forall j :: 0 <= j < |rest| ==> rest[0].addr <= rest[j].addr;
    }
  }

  /** The blocks covering [start, end], in increasing address order; empty when start > end. */
  function Subnets(start: nat, end: u32): (nets: seq<Net>)
    decreases end + 1 - start
    ensures Tiles(nets, start, end)
  {
    if start > end then []
    else
      var first := Net(start, NextPrefixLen(start, end));
      var rest := Subnets(Last(first) + 1, end);
      TilesCons(first, rest, end);
      [first] + rest
  }

  /** A tiling covers exactly [start, end], and no address lies in two of its blocks. */
  lemma TilesCover(nets: seq<Net>, start: int, end: int, a: int)
    requires Tiles(nets, start, end)
    ensures start <= a <= end <==> exists i :: 0 <= i < |nets| && InBlock(nets[i], a)
    ensures forall i, j :: 0 <= i < j < |nets| && InBlock(nets[i], a) ==> !InBlock(nets[j], a)
  {
    if start <= a <= end {
      var i := 0;
      while Last(nets[i]) < a
        invariant 0 <= i < |nets| && nets[i].addr <= a
        decreases |nets| - i
      {
        i := i + 1;
      }
      assert InBlock(nets[i], a);
    }
    forall i | 0 <= i < |nets| && InBlock(nets[i], a)
      ensures start <= a <= end
    {
      assert nets[0].addr <= nets[i].addr;
      assert Last(nets[i]) <= Last(nets[|nets| - 1]);
    }
  }

  /** Some block of nets contains address a. */
  predicate NetsCover(nets: seq<Net>, a: int)
    requires forall i :: 0 <= i < |nets| ==> nets[i].prefixLen <= 32
  {
    exists i :: 0 <= i < |nets| && Contains(nets[i], a)
  }

  /** In a tiling, Contains and InBlock agree, so the tiling is exact for Contains too. */
  lemma TilesExact(nets: seq<Net>, start: int, end: int, a: int)
    requires Tiles(nets, start, end)
    ensures start <= a <= end <==> NetsCover(nets, a)
    ensures forall i, j :: 0 <= i < j < |nets| && Contains(nets[i], a) ==> !Contains(nets[j], a)
  {
    forall i | 0 <= i < |nets|
      ensures Contains(nets[i], a) <==> InBlock(nets[i], a)
    {
      AlignedContains(nets[i], a);
    }
    TilesCover(nets, start, end, a);
    if start <= a <= end {
      var i :| 0 <= i < |nets| && InBlock(nets[i], a);
      assert Contains(nets[i], a);
    } else {
      forall i | 0 <= i < |nets| ensures !Contains(nets[i], a) {
        assert !InBlock(nets[i], a);
      }
    }
  }

  /**
   * The blocks are exact: an address lies in [start, end] if and only if
   * some block contains it, and no address lies in two blocks.
   */
  lemma SubnetsExact(start: nat, end: u32, a: int)
    ensures start <= a <= end <==> NetsCover(Subnets(start, end), a)
    ensures var nets := Subnets(start, end);
      forall i, j :: 0 <= i < j < |nets| && Contains(nets[i], a) ==> !Contains(nets[j], a)
  {
    TilesExact(Subnets(start, end), start, end, a);
  }
}
