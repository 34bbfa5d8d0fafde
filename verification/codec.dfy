/**
 * The record payload of the cache file. The payload is the record vector in
 * a length-prefixed little-endian layout: the record count as 8 bytes, then
 * per record `ip` (4 bytes), `prefix_len` (1 byte), `as_number` (4 bytes),
 * and `country` and `owner`, each as an 8-byte length followed by its bytes.
 */
module Codec {
  import opened Wrappers
  import opened Ipv4
  import opened Asn
  import opened Streams

  /** A bincode failure: here always an I/O error of the underlying stream. */
  datatype BincodeError = Io(cause: IoError)

  /** t is what is left of s after some bytes were taken from its front. */
  predicate Suffix(t: seq<byte>, s: seq<byte>)
  {
    |t| <= |s| && s[|s| - |t|..] == t
  }

  function Pow256(n: nat): (r: nat)
    ensures r >= 1
  {
    if n == 0 then 1 else 256 * Pow256(n - 1)
  }

  lemma Pow256Of4()
    ensures Pow256(4) == 0x1_0000_0000
  {
    assert Pow256(2) == 0x1_0000;
  }

  /** Counts and text lengths are 64-bit. */
  const U64Bound: nat := 0x1_0000_0000_0000_0000

  lemma Pow256Of8()
    ensures Pow256(8) == U64Bound
  {
    Pow256Of4();
  }

  /** The n low-order bytes of x, least significant first. */
  function EncodeLe(x: nat, n: nat): (b: seq<byte>)
    ensures |b| == n
  {
    if n == 0 then [] else [x % 256] + EncodeLe(x / 256, n - 1)
  }

  /** The number that little-endian bytes b stand for. */
  function DecodeLe(b: seq<byte>): (x: nat)
    ensures x < Pow256(|b|)
  {
    if b == [] then 0 else b[0] + 256 * DecodeLe(b[1..])
  }

  lemma {:induction false} DecodeEncodeLe(x: nat, n: nat)
    requires x < Pow256(n)
    ensures DecodeLe(EncodeLe(x, n)) == x
  {
    if n > 0 {
      DecodeEncodeLe(x / 256, n - 1);
      assert EncodeLe(x, n)[1..] == EncodeLe(x / 256, n - 1);
    }
  }

  /** Read an n-byte little-endian number from the front of s. */
  function TakeLe(s: seq<byte>, n: nat): (r: Result<(nat, seq<byte>), BincodeError>)
  {
    if |s| < n then Failure(Io(UnexpectedEof)) else Success((DecodeLe(s[..n]), s[n..]))
  }

  lemma TakeEncodedLe(x: nat, n: nat, t: seq<byte>)
    requires x < Pow256(n)
    ensures TakeLe(EncodeLe(x, n) + t, n) == Success((x, t))
  {
    var e := EncodeLe(x, n);
    assert (e + t)[..n] == e && (e + t)[n..] == t;
    DecodeEncodeLe(x, n);
  }

  /** Texts and counts must fit the 8-byte length prefix. */
  predicate EncodableRecord(r: Record)
  {
    |r.country| < U64Bound && |r.owner| < U64Bound
  }

  predicate Encodable(rs: seq<Record>)
  {
    |rs| < U64Bound && forall i :: 0 <= i < |rs| ==> EncodableRecord(rs[i])
  }

  function EncodeText(t: Text): seq<byte>
  {
    EncodeLe(|t|, 8) + t
  }

  function DecodeText(s: seq<byte>): (r: Result<(Text, seq<byte>), BincodeError>)
  {
    var len :- TakeLe(s, 8);
    var rest := len.1;
    if |rest| < len.0 then Failure(Io(UnexpectedEof)) else Success((rest[..len.0], rest[len.0..]))
  }

  lemma DecodeEncodedText(x: Text, t: seq<byte>)
    requires |x| < U64Bound
    ensures DecodeText(EncodeText(x) + t) == Success((x, t))
  {
    Pow256Of8();
    assert EncodeText(x) + t == EncodeLe(|x|, 8) + (x + t);
    TakeEncodedLe(|x|, 8, x + t);
    assert (x + t)[..|x|] == x && (x + t)[|x|..] == t;
  }

  /** A u32 as 4 little-endian bytes. */
  function EncodeU32(x: u32): (b: seq<byte>)
    ensures |b| == 4
  {
    EncodeLe(x, 4)
  }

  function TakeU32(s: seq<byte>): (r: Result<(u32, seq<byte>), BincodeError>)
  {
    if |s| < 4 then Failure(Io(UnexpectedEof))
    else
      Pow256Of4();
      Success((DecodeLe(s[..4]), s[4..]))
  }

  lemma TakeEncodedU32(x: u32, t: seq<byte>)
    ensures TakeU32(EncodeU32(x) + t) == Success((x, t))
  {
    Pow256Of4();
    TakeEncodedLe(x, 4, t);
  }

  function TakeByte(s: seq<byte>): (r: Result<(byte, seq<byte>), BincodeError>)
  {
    if s == [] then Failure(Io(UnexpectedEof)) else Success((s[0], s[1..]))
  }

  function EncodeRecord(r: Record): seq<byte>
  {
    EncodeU32(r.ip) + [r.prefixLen] + EncodeU32(r.asNumber) + EncodeText(r.country) + EncodeText(r.owner)
  }

  function DecodeRecord(s: seq<byte>): (r: Result<(Record, seq<byte>), BincodeError>)
  {
    var ip :- TakeU32(s);
    var prefixLen :- TakeByte(ip.1);
    var asNumber :- TakeU32(prefixLen.1);
    var country :- DecodeText(asNumber.1);
    var owner :- DecodeText(country.1);
    Success((Record(ip.0, prefixLen.0, asNumber.0, country.0, owner.0), owner.1))
  }

  lemma DecodeEncodedRecord(r: Record, t: seq<byte>)
    requires EncodableRecord(r)
    ensures DecodeRecord(EncodeRecord(r) + t) == Success((r, t))
  {
    var owner := EncodeText(r.owner) + t;
    var country := EncodeText(r.country) + owner;
    var asNumber := EncodeU32(r.asNumber) + country;
    var prefix := [r.prefixLen] + asNumber;
    assert EncodeRecord(r) + t == EncodeU32(r.ip) + prefix;
    TakeEncodedU32(r.ip, prefix);
    assert TakeByte(prefix) == Success((r.prefixLen, asNumber));
    TakeEncodedU32(r.asNumber, country);
    DecodeEncodedText(r.country, owner);
    DecodeEncodedText(r.owner, t);
  }

  function EncodeAll(rs: seq<Record>): seq<byte>
  {
    if rs == [] then [] else EncodeRecord(rs[0]) + EncodeAll(rs[1..])
  }

  /** Decode n records from the front of s. */
  function DecodeN(s: seq<byte>, n: nat): (r: Result<(seq<Record>, seq<byte>), BincodeError>)
  {
    if n == 0 then Success(([], s))
    else
      var first :- DecodeRecord(s);
      var others :- DecodeN(first.1, n - 1);
      Success(([first.0] + others.0, others.1))
  }

  lemma ConcatAssoc(a: seq<byte>, b: seq<byte>, c: seq<byte>)
    ensures (a + b) + c == a + (b + c)
  {
  }

  lemma HeadTail(s: seq<Record>)
    requires s != []
    ensures [s[0]] + s[1..] == s
  {
  }

  /** One step of DecodeN: a record, then the remaining m. */
  lemma DecodeNStep(s: seq<byte>, m: nat, r: Record, s1: seq<byte>, rs: seq<Record>, s2: seq<byte>)
    requires DecodeRecord(s) == Success((r, s1)) && DecodeN(s1, m) == Success((rs, s2))
    ensures DecodeN(s, m + 1) == Success(([r] + rs, s2))
  {
  }

  /** An encoded record followed by n decodable records decodes as n + 1 records. */
  lemma DecodeEncodedCons(r: Record, tail: seq<Record>, rest: seq<byte>, t: seq<byte>)
    requires EncodableRecord(r) && DecodeN(rest, |tail|) == Success((tail, t))
    ensures DecodeN(EncodeRecord(r) + rest, |tail| + 1) == Success(([r] + tail, t))
  {
    DecodeEncodedRecord(r, rest);
    DecodeNStep(EncodeRecord(r) + rest, |tail|, r, rest, tail, t);
  }

  lemma {:induction false} DecodeEncodedAll(rs: seq<Record>, t: seq<byte>)
    requires forall i :: 0 <= i < |rs| ==> EncodableRecord(rs[i])
    ensures DecodeN(EncodeAll(rs) + t, |rs|) == Success((rs, t))
  {
    if rs == [] {
      assert EncodeAll(rs) + t == t;
    } else {
      var tail := rs[1..];
      DecodeEncodedAll(tail, t);
      DecodeEncodedCons(rs[0], tail, EncodeAll(tail) + t, t);
      HeadTail(rs);
      assert EncodeAll(rs) == EncodeRecord(rs[0]) + EncodeAll(tail);
      ConcatAssoc(EncodeRecord(rs[0]), EncodeAll(tail), t);
    }
  }

  lemma SuffixTrans(u: seq<byte>, t: seq<byte>, s: seq<byte>)
    requires Suffix(u, t) && Suffix(t, s)
    ensures Suffix(u, s)
  {
    assert s[|s| - |u|..] == s[|s| - |t|..][|t| - |u|..];
  }

  lemma DecodeTextSuffix(s: seq<byte>)
    ensures DecodeText(s).Success? ==> Suffix(DecodeText(s).value.1, s)
  {
    if TakeLe(s, 8).Success? {
      var rest := s[8..];
      assert forall k :: 0 <= k <= |rest| ==> rest[k..] == s[8 + k..];
    }
  }

  /** A successfully decoded record took 9 fixed bytes, then two texts. */
  lemma DecodeRecordParts(s: seq<byte>)
    requires DecodeRecord(s).Success?
    ensures |s| >= 9 && DecodeText(s[9..]).Success?
    ensures var s4 := DecodeText(s[9..]).value.1;
      DecodeText(s4).Success? && DecodeRecord(s).value.1 == DecodeText(s4).value.1
  {
    assert s[4..][1..][4..] == s[9..];
  }

  lemma DecodeRecordSuffix(s: seq<byte>)
    ensures DecodeRecord(s).Success? ==> Suffix(DecodeRecord(s).value.1, s)
  {
    if DecodeRecord(s).Success? {
      DecodeRecordParts(s);
      var s3 := s[9..];
      var s4 := DecodeText(s3).value.1;
      DecodeTextSuffix(s3);
      DecodeTextSuffix(s4);
      SuffixTrans(s4, s3, s);
      SuffixTrans(DecodeText(s4).value.1, s4, s);
    }
  }

  /** A successful DecodeN of m + 1 records is a record followed by a successful DecodeN of m. */
  lemma DecodeNParts(s: seq<byte>, m: nat)
    requires DecodeN(s, m + 1).Success?
    ensures DecodeRecord(s).Success?
    ensures var s1 := DecodeRecord(s).value.1;
      DecodeN(s1, m).Success? && DecodeN(s, m + 1).value.1 == DecodeN(s1, m).value.1
  {
  }

  lemma {:induction false} DecodeNSuffix(s: seq<byte>, n: nat)
    ensures DecodeN(s, n).Success? ==> Suffix(DecodeN(s, n).value.1, s)
  {
    if n > 0 && DecodeN(s, n).Success? {
      var m := n - 1;
      DecodeNParts(s, m);
      var s1 := DecodeRecord(s).value.1;
      DecodeRecordSuffix(s);
      DecodeNSuffix(s1, m);
      SuffixTrans(DecodeN(s1, m).value.1, s1, s);
    }
  }

  /** A decoded payload leaves a suffix of its input: decoding only takes bytes from the front. */
  lemma DecodeRecordsSuffix(s: seq<byte>)
    ensures DecodeRecords(s).Success? ==> Suffix(DecodeRecords(s).value.1, s)
  {
    if |s| >= 8 {
      DecodeNSuffix(s[8..], DecodeLe(s[..8]));
    }
  }

  /** The payload: the record count, then every record. */
  function EncodeRecords(rs: seq<Record>): seq<byte>
  {
    EncodeLe(|rs|, 8) + EncodeAll(rs)
  }

  /** Decode a payload from the front of s, leaving what follows it. */
  function DecodeRecords(s: seq<byte>): (r: Result<(seq<Record>, seq<byte>), BincodeError>)
  {
    var count :- TakeLe(s, 8);
    DecodeN(count.1, count.0)
  }

  /** Decoding an encoded payload gives back the same records, in order, and leaves what follows. */
  lemma DecodeEncodedRecords(rs: seq<Record>, t: seq<byte>)
    requires Encodable(rs)
    ensures DecodeRecords(EncodeRecords(rs) + t) == Success((rs, t))
  {
    assert EncodeRecords(rs) + t == EncodeLe(|rs|, 8) + (EncodeAll(rs) + t);
    TakeEncodedLe(|rs|, 8, EncodeAll(rs) + t);
    DecodeEncodedAll(rs, t);
  }
}
