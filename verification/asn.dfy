/** The AS record (`Record`) and the orderings over record sequences. */
module Asn {
  import opened Ipv4

  type byte = u8

  /** Rust `String` contents, kept as their UTF-8 bytes. */
  type Text = seq<byte>

  /** One CIDR network and its AS attribution. */
  datatype Record = Record(
    ip: u32,          // network base address, host byte order
    prefixLen: u8,    // number of mask bits
    asNumber: u32,
    country: Text,
    owner: Text)

  /**
   * `Record::network`: the network of the record. `Ipv4Net::new` refuses
   * only a prefix length above 32 (the source then panics with "bad
   * network"); it does not demand that the base address be aligned.
   */
  function Network(r: Record): (n: Net)
    requires r.prefixLen <= 32
    ensures n.prefixLen == r.prefixLen && Contains(n, r.ip)
    ensures Aligned(n) ==> NetworkAddr(n) == r.ip
  {
    Net(r.ip, r.prefixLen)
  }

  /** Every record has a network, so `Record::network` never panics on it. */
  predicate ValidPrefixes(s: seq<Record>)
  {
    forall i :: 0 <= i < |s| ==> s[i].prefixLen <= 32
  }

  /** Some record of s contains address q in its network. */
  predicate Covered(s: seq<Record>, q: int)
    requires ValidPrefixes(s)
  {
    exists i :: 0 <= i < |s| && Contains(Network(s[i]), q)
  }

  /** Every record's base address is aligned to its prefix length. */
  predicate AlignedRecords(s: seq<Record>)
    requires ValidPrefixes(s)
  {
    forall i :: 0 <= i < |s| ==> Aligned(Network(s[i]))
  }

  /** No two records' blocks share an address. */
  predicate DisjointRecords(s: seq<Record>)
    requires ValidPrefixes(s)
  {
    forall i, j :: 0 <= i < j < |s| ==>
      Last(Network(s[i])) < s[j].ip || Last(Network(s[j])) < s[i].ip
  }

  /** Non-decreasing by base address. */
  predicate SortedByIp(s: seq<Record>)
  {
    forall i, j :: 0 <= i < j < |s| ==> s[i].ip <= s[j].ip
  }

  /** The records whose base address is k, in their order in s. */
  function WithIp(s: seq<Record>, k: int): (r: seq<Record>)
    ensures |r| <= |s|
  {
    if s == [] then []
    else (if s[0].ip == k then [s[0]] else []) + WithIp(s[1..], k)
  }

  lemma {:induction false} WithIpAppend(a: seq<Record>, b: seq<Record>, k: int)
    ensures WithIp(a + b, k) == WithIp(a, k) + WithIp(b, k)
  {
    if a != [] {
      assert (a + b)[0] == a[0];
      assert (a + b)[1..] == a[1..] + b;
      WithIpAppend(a[1..], b, k);
    } else {
      assert a + b == b;
    }
  }

  /** WithIp(s, k) is empty exactly when no record of s has base address k. */
  lemma {:induction false} WithIpEmpty(s: seq<Record>, k: int)
    ensures WithIp(s, k) == [] <==> forall i :: 0 <= i < |s| ==> s[i].ip != k
  {
    if s != [] {
      WithIpEmpty(s[1..], k);
      assert forall i :: 1 <= i < |s| ==> s[i] == s[1..][i - 1];
    }
  }
}
