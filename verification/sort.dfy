/**
 * `records.sort_by_key(|record| record.ip)`: a stable in-place sort by base
 * address. Stability is stated per key: for every address k, the records
 * whose base address is k keep their relative order (WithIp is unchanged).
 */
module StableSort {
  import opened Asn

  /** t is s reordered by a stable sort on the base address. */
  ghost predicate StablePermutation(s: seq<Record>, t: seq<Record>)
  {
    && multiset(s) == multiset(t)
    && forall k :: WithIp(t, k) == WithIp(s, k)
  }

  /** Swapping two neighbours with different base addresses keeps every WithIp subsequence. */
  lemma SwapKeepsWithIp(s: seq<Record>, j: int, k: int)
    requires 0 < j < |s| && s[j - 1].ip != s[j].ip
    ensures WithIp(s[j - 1 := s[j]][j := s[j - 1]], k) == WithIp(s, k)
  {
    var t := s[j - 1 := s[j]][j := s[j - 1]];
    var pre, post := s[..j - 1], s[j + 1..];
    assert s == pre + [s[j - 1], s[j]] + post;
    assert t == pre + [s[j], s[j - 1]] + post;
    WithIpAppend(pre + [s[j - 1], s[j]], post, k);
    WithIpAppend(pre, [s[j - 1], s[j]], k);
    WithIpAppend(pre + [s[j], s[j - 1]], post, k);
    WithIpAppend(pre, [s[j], s[j - 1]], k);
    WithIpAppend([s[j - 1]], [s[j]], k);
    WithIpAppend([s[j]], [s[j - 1]], k);
  }

  /** Exchange the out-of-order neighbours a[j - 1] and a[j]. */
  method SwapDown(a: array<Record>, j: int)
    requires 0 < j < a.Length && a[j - 1].ip > a[j].ip
    modifies a
    ensures a[..] == old(a[..])[j - 1 := old(a[j])][j := old(a[j - 1])]
    ensures StablePermutation(old(a[..]), a[..])
  {
    forall k
      ensures WithIp(a[..][j - 1 := a[j]][j := a[j - 1]], k) == WithIp(a[..], k)
    {
      SwapKeepsWithIp(a[..], j, k);
    }
    a[j - 1], a[j] := a[j], a[j - 1];
  }

  lemma StablePermutationTrans(s: seq<Record>, t: seq<Record>, u: seq<Record>)
    requires StablePermutation(s, t) && StablePermutation(t, u)
    ensures StablePermutation(s, u)
  {
  }

  /** The first n records are sorted by base address. */
  predicate SortedUpTo(s: seq<Record>, n: int)
    requires n <= |s|
  {
    forall l, m :: 0 <= l < m < n ==> s[l].ip <= s[m].ip
  }

  /** s[..i + 1] is sorted except that s[j] may be below its predecessors. */
  predicate SortedExcept(s: seq<Record>, i: int, j: int)
    requires i < |s|
  {
    forall l, m :: 0 <= l < m <= i && m != j ==> s[l].ip <= s[m].ip
  }

  /** Swapping the out-of-place record with its greater predecessor moves the gap one down. */
  lemma SinkStep(s: seq<Record>, i: int, j: int)
    requires 0 < j <= i < |s| && SortedExcept(s, i, j) && s[j - 1].ip > s[j].ip
    ensures SortedExcept(s[j - 1 := s[j]][j := s[j - 1]], i, j - 1)
  {
  }

  /** Once the record sits above its predecessor (or at the front), s[..i + 1] is sorted. */
  lemma SinkDone(s: seq<Record>, i: int, j: int)
    requires 0 <= j <= i < |s| && SortedExcept(s, i, j)
    requires j == 0 || s[j - 1].ip <= s[j].ip
    ensures SortedUpTo(s, i + 1)
  {
  }

  /** Sink a[i] into the sorted prefix a[..i], giving a sorted prefix a[..i + 1]. */
  method InsertStep(a: array<Record>, i: int)
    requires 0 < i < a.Length && SortedUpTo(a[..], i)
    modifies a
    ensures SortedUpTo(a[..], i + 1)
    ensures StablePermutation(old(a[..]), a[..])
    ensures a[i + 1..] == old(a[i + 1..])
  {
    var j := i;
    while j > 0 && a[j - 1].ip > a[j].ip
      invariant 0 <= j <= i
      invariant SortedExcept(a[..], i, j)
      invariant StablePermutation(old(a[..]), a[..])
      invariant a[i + 1..] == old(a[i + 1..])
    {
      ghost var before := a[..];
      SinkStep(before, i, j);
      SwapDown(a, j);
      StablePermutationTrans(old(a[..]), before, a[..]);
      j := j - 1;
    }
    SinkDone(a[..], i, j);
  }

  /** Insertion sort: each step sinks the next record into the sorted prefix. */
  method SortByIp(a: array<Record>)
    modifies a
    ensures SortedByIp(a[..])
    ensures StablePermutation(old(a[..]), a[..])
  {
    if a.Length == 0 {
      return;
    }
    var i := 1;
    while i < a.Length
      invariant 1 <= i <= a.Length
      invariant SortedUpTo(a[..], i)
      invariant StablePermutation(old(a[..]), a[..])
    {
      ghost var before := a[..];
      InsertStep(a, i);
      StablePermutationTrans(old(a[..]), before, a[..]);
      i := i + 1;
    }
  }

  /**
   * A stable sort has exactly one possible result: two sequences that are
   * both sorted by base address and have the same records for every base
   * address, in the same order, are equal.
   */
  lemma {:induction false} StableSortUnique(s: seq<Record>, t: seq<Record>)
    requires SortedByIp(s) && SortedByIp(t)
    requires forall k :: WithIp(s, k) == WithIp(t, k)
    ensures s == t
    decreases |s|
  {
    if s == [] || t == [] {
      if s != [] {
        WithIpEmpty(t, s[0].ip);
      } else if t != [] {
        WithIpEmpty(s, t[0].ip);
      }
    } else {
      SameFirst(s, t);
      forall k
        ensures WithIp(s[1..], k) == WithIp(t[1..], k)
      {
        TailWithIp(s, t, k);
      }
      StableSortUnique(s[1..], t[1..]);
      assert s == [s[0]] + s[1..] && t == [t[0]] + t[1..];
    }
  }

  /** Sorted sequences with the same records for every base address start with the same record. */
  lemma SameFirst(s: seq<Record>, t: seq<Record>)
    requires s != [] && t != [] && SortedByIp(s) && SortedByIp(t)
    requires forall k :: WithIp(s, k) == WithIp(t, k)
    ensures s[0] == t[0]
  {
    var m, n := s[0].ip, t[0].ip;
    assert m == n by {
      WithIpEmpty(s, n);
      WithIpEmpty(t, m);
      assert WithIp(s, m) != [];
      assert WithIp(t, n) != [];
    }
    assert WithIp(s, m)[0] == s[0];
    assert WithIp(t, m)[0] == t[0];
  }

  /** Removing the same first record keeps the WithIp subsequences equal. */
  lemma TailWithIp(s: seq<Record>, t: seq<Record>, k: int)
    requires s != [] && t != [] && s[0] == t[0] && WithIp(s, k) == WithIp(t, k)
    ensures WithIp(s[1..], k) == WithIp(t[1..], k)
  {
    var head := if s[0].ip == k then [s[0]] else [];
    assert WithIp(s, k) == head + WithIp(s[1..], k);
    assert WithIp(t, k) == head + WithIp(t[1..], k);
    assert WithIp(s[1..], k) == (head + WithIp(s[1..], k))[|head|..];
    assert WithIp(t[1..], k) == (head + WithIp(t[1..], k))[|head|..];
  }
}
