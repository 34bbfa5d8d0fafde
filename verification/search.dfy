/**
 * `Db::lookup`: a binary search of the records by base address, then the
 * floor rule: an exact match is returned; otherwise the record just
 * before the insertion index is returned if its network contains the
 * query.
 */
module Search {
  import opened Wrappers
  import opened Ipv4
  import opened Asn

  /** The result of `binary_search_by_key`: `Ok(index)` or `Err(insertion index)`. */
  datatype SearchResult = Found(index: nat) | NotFound(insertAt: nat)

  /**
   * `binary_search_by_key(&key, |record| record.ip)`. Any matching index may
   * be returned when several records share the key. On records that are not
   * sorted the result is some index, but says nothing about the others.
   */
  method BinarySearchByIp(a: array<Record>, key: int) returns (r: SearchResult)
    ensures r.Found? ==> r.index < a.Length && a[r.index].ip == key
    ensures r.NotFound? ==> r.insertAt <= a.Length
    ensures SortedByIp(a[..]) && r.NotFound? ==>
      && (forall i :: 0 <= i < r.insertAt ==> a[i].ip < key)
      && (forall i :: r.insertAt <= i < a.Length ==> key < a[i].ip)
  {
    var lo, hi := 0, a.Length;
    while lo < hi
      invariant 0 <= lo <= hi <= a.Length
      invariant SortedByIp(a[..]) ==> forall i :: 0 <= i < lo ==> a[i].ip < key
      invariant SortedByIp(a[..]) ==> forall i :: hi <= i < a.Length ==> key < a[i].ip
    {
      var mid := lo + (hi - lo) / 2;
      if a[mid].ip < key {
        lo := mid + 1;
      } else if key < a[mid].ip {
        hi := mid;
      } else {
        return Found(mid);
      }
    }
    return NotFound(lo);
  }

  /** Number of records whose base address is below q. */
  function CountBelow(s: seq<Record>, q: int): (n: nat)
    ensures n <= |s|
  {
    if s == [] then 0 else (if s[0].ip < q then 1 else 0) + CountBelow(s[1..], q)
  }

  /** Where every record below index k is below q and every other one above it, k is the count below q. */
  lemma {:induction false} CountBelowAt(s: seq<Record>, q: int, k: nat)
    requires k <= |s|
    requires forall i :: 0 <= i < k ==> s[i].ip < q
    requires forall i :: k <= i < |s| ==> q <= s[i].ip
    ensures CountBelow(s, q) == k
  {
    if s != [] {
      CountBelowAt(s[1..], q, if k == 0 then 0 else k - 1);
    }
  }

  /** In sorted records, the first CountBelow(s, q) records are exactly those below q. */
  lemma {:induction false} CountBelowSorted(s: seq<Record>, q: int)
    requires SortedByIp(s)
    ensures forall i :: 0 <= i < CountBelow(s, q) ==> s[i].ip < q
    ensures forall i :: CountBelow(s, q) <= i < |s| ==> q <= s[i].ip
  {
    if s != [] {
      CountBelowSorted(s[1..], q);
      if s[0].ip >= q {
        assert forall i :: 0 <= i < |s| ==> s[0].ip <= s[i].ip;
      }
    }
  }

  /**
   * What `lookup(q)` may return: a record with base address q when there is
   * one (any of them); otherwise, with k the number of records below q, the
   * record at k - 1 if its network contains q, and nothing if there is none
   * or it does not.
   */
  ghost predicate LookupSpec(s: seq<Record>, q: int, r: Option<Record>)
    requires ValidPrefixes(s)
  {
    if exists i :: 0 <= i < |s| && s[i].ip == q then
      r.Some? && r.value.ip == q && r.value in s
    else
      var k := CountBelow(s, q);
      r == if k != 0 && Contains(Network(s[k - 1]), q) then Some(s[k - 1]) else None
  }

  /** Lookup is sound: a returned record is one of the records and its network contains q. */
  lemma LookupSound(s: seq<Record>, q: int, r: Option<Record>)
    requires ValidPrefixes(s) && LookupSpec(s, q, r)
    ensures r.Some? ==> r.value in s && Contains(Network(r.value), q)
  {
  }

  /** An exact match on a base address is always found. */
  lemma LookupExact(s: seq<Record>, q: int, r: Option<Record>, i: int)
    requires ValidPrefixes(s) && LookupSpec(s, q, r)
    requires 0 <= i < |s| && s[i].ip == q
    ensures r.Some? && r.value.ip == q
  {
  }

  /** A query below every base address finds nothing. */
  lemma LookupBelowAll(s: seq<Record>, q: int, r: Option<Record>)
    requires ValidPrefixes(s) && LookupSpec(s, q, r)
    requires forall i :: 0 <= i < |s| ==> q < s[i].ip
    ensures r == None
  {
    CountBelowAt(s, q, 0);
  }

  /**
   * On sorted records with aligned, pairwise disjoint networks, lookup finds
   * a record exactly when some record's network contains the query.
   */
  lemma LookupComplete(s: seq<Record>, q: int, r: Option<Record>)
    requires ValidPrefixes(s) && SortedByIp(s) && AlignedRecords(s) && DisjointRecords(s)
    requires LookupSpec(s, q, r)
    ensures r.Some? <==> Covered(s, q)
  {
    if Covered(s, q) && !(exists i :: 0 <= i < |s| && s[i].ip == q) {
      var j :| 0 <= j < |s| && Contains(Network(s[j]), q);
      AlignedContains(Network(s[j]), q);
      CountBelowSorted(s, q);
      var k := CountBelow(s, q);
      assert s[j].ip < q;
      AlignedContains(Network(s[k - 1]), q);
      assert InBlock(Network(s[k - 1]), q);
    }
  }

  /** With distinct base addresses, lookup has exactly one possible result, so repeated lookups agree. */
  lemma LookupDeterministic(s: seq<Record>, q: int, r1: Option<Record>, r2: Option<Record>)
    requires ValidPrefixes(s) && forall i, j :: 0 <= i < j < |s| ==> s[i].ip < s[j].ip
    requires LookupSpec(s, q, r1) && LookupSpec(s, q, r2)
    ensures r1 == r2
  {
    if exists i :: 0 <= i < |s| && s[i].ip == q {
      var i1 :| 0 <= i1 < |s| && s[i1] == r1.value;
      var i2 :| 0 <= i2 < |s| && s[i2] == r2.value;
      assert i1 == i2;
    }
  }
}
