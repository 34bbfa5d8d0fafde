/**
 * `Db`: the record vector sorted by base address, built from TSV rows,
 * stored to and loaded from the binary cache format (a 4-byte tag "ASDB",
 * a 4-byte version "bin1", then the record payload), and queried by address.
 */
module AsnDb {
  import opened Wrappers
  import opened Ipv4
  import opened Asn
  import Ingest
  import opened StableSort
  import opened Search
  import opened Codec
  import opened Streams

  /** "ASDB" */
  const DatabaseDataTag: seq<u8> := [0x41, 0x53, 0x44, 0x42]
  /** "bin1" */
  const DatabaseDataVersion: seq<u8> := [0x62, 0x69, 0x6E, 0x31]

  /** `DbError`: the lower-level errors are kept as far as the model has them. */
  datatype DbError =
    | TsvError(cause: Ingest.TsvParseError)
    | DbDataError(message: string)
    | FileError(io: IoError, context: string)
    | BincodeError(bincode: Codec.BincodeError, context: string)

  /** Everything `store` writes for records rs: tag, version, payload. */
  function StoredBytes(rs: seq<Record>): (b: seq<u8>)
    ensures |b| == 8 + |EncodeRecords(rs)|
  {
    DatabaseDataTag + DatabaseDataVersion + EncodeRecords(rs)
  }

  /**
   * The header check of `load`, in its order: the tag is read and compared
   * first, then the version. Yields the bytes after the header.
   */
  function CheckHeader(input: seq<u8>): Result<seq<u8>, DbError>
  {
    if |input| < 4 then Failure(FileError(UnexpectedEof, "reading database tag"))
    else if input[..4] != DatabaseDataTag then Failure(DbDataError("bad database data tag"))
    else if |input| < 8 then Failure(FileError(UnexpectedEof, "reading database version"))
    else if input[4..8] != DatabaseDataVersion then Failure(DbDataError("unsuported database version"))
    else Success(input[8..])
  }

  /** What `load` yields for stream contents `input`: the records and the bytes it leaves unread. */
  function LoadSpec(input: seq<u8>): Result<(seq<Record>, seq<u8>), DbError>
  {
    var payload :- CheckHeader(input);
    match DecodeRecords(payload)
    case Failure(e) => Failure(BincodeError(e, "reading bincode DB file"))
    case Success(decoded) => Success(decoded)
  }

  /** The tag and the version, followed by anything, pass the header check, which yields what follows. */
  lemma GoodHeader(payload: seq<u8>)
    ensures CheckHeader(DatabaseDataTag + DatabaseDataVersion + payload) == Success(payload)
  {
    var b := DatabaseDataTag + DatabaseDataVersion + payload;
    assert b[..4] == DatabaseDataTag;
    assert b[4..8] == DatabaseDataVersion;
    assert b[8..] == payload;
  }

  /**
   * Loading what `store` writes, followed by anything, gives back the same
   * records in the same order and leaves exactly what followed.
   */
  lemma LoadStored(rs: seq<Record>, t: seq<u8>)
    requires Encodable(rs)
    ensures LoadSpec(StoredBytes(rs) + t) == Success((rs, t))
  {
    var payload := EncodeRecords(rs) + t;
    var input := StoredBytes(rs) + t;
    assert input == DatabaseDataTag + DatabaseDataVersion + payload by {
      ConcatAssoc(DatabaseDataTag + DatabaseDataVersion, EncodeRecords(rs), t);
    }
    assert CheckHeader(input) == Success(payload) by { GoodHeader(payload); }
    assert DecodeRecords(payload) == Success((rs, t)) by { DecodeEncodedRecords(rs, t); }
  }

  /** A wrong tag is reported whatever follows it: the version and the payload are not looked at. */
  lemma BadTagFirst(input: seq<u8>, rest: seq<u8>)
    requires |input| == 4 && input != DatabaseDataTag
    ensures LoadSpec(input + rest) == Failure(DbDataError("bad database data tag"))
  {
    assert (input + rest)[..4] == input;
  }

  /** With the right tag, a wrong version is reported whatever follows it: the payload is not decoded. */
  lemma BadVersionBeforePayload(version: seq<u8>, rest: seq<u8>)
    requires |version| == 4 && version != DatabaseDataVersion
    ensures LoadSpec(DatabaseDataTag + version + rest) == Failure(DbDataError("unsuported database version"))
  {
    var b := DatabaseDataTag + version + rest;
    assert b[..4] == DatabaseDataTag && b[4..8] == version;
  }

  /** What the source's `store` leaves in a sink that takes at most `chunk` bytes per write call. */
  function StoredAsWrittenBytes(rs: seq<Record>, chunk: nat): seq<u8>
  {
    DatabaseDataTag[..Min(4, chunk)] + DatabaseDataVersion[..Min(4, chunk)] + EncodeRecords(rs)
  }

  /**
   * When one write call takes fewer than 4 bytes, the bytes the source's
   * `store` leaves do not start with the tag, although the store reported
   * success: loading them fails with "bad database data tag".
   */
  lemma ShortWriteLosesTag(rs: seq<Record>, chunk: nat)
    requires 1 <= chunk < 4
    ensures LoadSpec(StoredAsWrittenBytes(rs, chunk)) == Failure(DbDataError("bad database data tag"))
  {
    var b := StoredAsWrittenBytes(rs, chunk);
    assert b[chunk] == DatabaseDataVersion[0];
    assert b[..4][chunk] != DatabaseDataTag[chunk];
  }

  class Db {
    /** The records, sorted by base address when the database was built from TSV. */
    const records: array<Record>

    constructor(a: array<Record>)
      ensures records == a
    {
      records := a;
    }

    /**
     * `Db::form_tsv`: the first error of `read_asn_tsv` fails the whole load;
     * otherwise all records, stably sorted by base address.
     */
    static method FromTsv(p: Ingest.Parsers, rows: seq<Result<Ingest.Row, Ingest.SourceError>>)
      returns (r: Result<Db, DbError>)
      ensures var c := Ingest.Collect(Ingest.ReadAsnTsv(p, rows));
        c.Failure? ==> r == Failure(TsvError(c.error))
      ensures var c := Ingest.Collect(Ingest.ReadAsnTsv(p, rows));
        c.Success? ==>
          && r.Success? && fresh(r.value) && fresh(r.value.records)
          && SortedByIp(r.value.records[..])
          && StablePermutation(c.value, r.value.records[..])
          && ValidPrefixes(r.value.records[..]) && AlignedRecords(r.value.records[..])
    {
      var c := Ingest.Collect(Ingest.ReadAsnTsv(p, rows));
      if c.Failure? {
        return Failure(TsvError(c.error));
      }
      var rs := c.value;
      var a := new Record[|rs|](i requires 0 <= i < |rs| => rs[i]);
      assert a[..] == rs;
      SortByIp(a);
      Ingest.ReadAsnTsvBlocks(p, rows);
      CollectedBlocks(Ingest.ReadAsnTsv(p, rows));
      BlocksPermuted(rs, a[..]);
      var db := new Db(a);
      return Success(db);
    }

    /**
     * `Db::load`: the tag is checked first, then the version, then the
     * payload is decoded from the rest of the stream, which is left just
     * after the payload.
     */
    static method Load(rd: Reader) returns (r: Result<Db, DbError>)
      requires rd.Valid()
      modifies rd
      ensures rd.Valid()
      ensures LoadSpec(old(rd.Rest())).Failure? ==> r == Failure(LoadSpec(old(rd.Rest())).error)
      ensures LoadSpec(old(rd.Rest())).Success? ==>
        && r.Success? && fresh(r.value) && fresh(r.value.records)
        && r.value.records[..] == LoadSpec(old(rd.Rest())).value.0
        && rd.Rest() == LoadSpec(old(rd.Rest())).value.1
    {
      var header := ReadHeader(rd);
      if header.Failure? {
        return Failure(header.error);
      }
      var payload := DecodeRecords(rd.Rest());
      if payload.Failure? {
        rd.Drain();
        return Failure(BincodeError(payload.error, "reading bincode DB file"));
      }
      DecodeRecordsSuffix(rd.Rest());
      var (rs, rest) := payload.value;
      rd.Skip(|rd.Rest()| - |rest|);
      var db := FromRecords(rs);
      return Success(db);
    }

    /** A database holding exactly the records rs, in their order. */
    static method FromRecords(rs: seq<Record>) returns (db: Db)
      ensures fresh(db) && fresh(db.records) && db.records[..] == rs
    {
      var a := new Record[|rs|](i requires 0 <= i < |rs| => rs[i]);
      assert a[..] == rs;
      db := new Db(a);
    }

    /** The tag and version reads of `load`, leaving the stream at the payload. */
    static method ReadHeader(rd: Reader) returns (r: Result<(), DbError>)
      requires rd.Valid()
      modifies rd
      ensures rd.Valid()
      ensures CheckHeader(old(rd.Rest())).Failure? ==> r == Failure(CheckHeader(old(rd.Rest())).error)
      ensures CheckHeader(old(rd.Rest())).Success? ==> r.Success? && rd.Rest() == CheckHeader(old(rd.Rest())).value
    {
      ghost var input := rd.Rest();
      var tag := rd.ReadExact(4);
      if tag.Failure? {
        return Failure(FileError(tag.error, "reading database tag"));
      }
      if tag.value != DatabaseDataTag {
        return Failure(DbDataError("bad database data tag"));
      }
      var version := rd.ReadExact(4);
      if version.Failure? {
        return Failure(FileError(version.error, "reading database version"));
      }
      assert input[4..8] == input[4..][..4] && input[4..][4..] == input[8..];
      if version.value != DatabaseDataVersion {
        return Failure(DbDataError("unsuported database version"));
      }
      return Success(());
    }

    /**
     * `Db::store`, with the tag and the version written in full: the sink
     * receives the tag, the version and the payload, or as much of them as
     * it has room for, and the error names the part that did not fit.
     */
    method Store(w: Writer) returns (r: Result<(), DbError>)
      requires w.Valid()
      modifies w
      ensures w.Valid()
      ensures var out := StoredBytes(records[..]);
        w.data == old(w.data) + out[..Min(old(w.room), |out|)]
      ensures var out := StoredBytes(records[..]);
        && (old(w.room) < 4 ==> r == Failure(FileError(StorageFull, "error writing tag")))
        && (4 <= old(w.room) < 8 ==> r == Failure(FileError(StorageFull, "error writing version")))
        && (8 <= old(w.room) < |out| ==> r == Failure(BincodeError(Io(StorageFull), "stroing DB")))
        && (|out| <= old(w.room) ==> r == Success(()))
    {
      r := WriteDatabase(w, EncodeRecords(records[..]));
    }

    /**
     * `Db::store` as the source writes it: the tag and the version go out
     * with one `write` call each, whose count of accepted bytes is ignored;
     * the payload is written in full. Each header call takes what one call
     * and the remaining room allow, and only a call into a full sink fails;
     * so with room for everything the store succeeds whatever the sink
     * accepted per call.
     */
    method StoreAsWritten(w: Writer) returns (r: Result<(), DbError>)
      requires w.Valid()
      modifies w
      ensures w.Valid()
      ensures var payload := EncodeRecords(records[..]);
        var t := Min(4, Min(w.chunk, old(w.room)));
        var v := Min(4, Min(w.chunk, old(w.room) - t));
        var header := DatabaseDataTag[..t] + DatabaseDataVersion[..v];
        var left := old(w.room) - t - v;
        && (old(w.room) == 0 ==>
              r == Failure(FileError(StorageFull, "error writing tag")) && w.data == old(w.data))
        && (0 < old(w.room) == t ==>
              r == Failure(FileError(StorageFull, "error writing version")) && w.data == old(w.data) + DatabaseDataTag[..t])
        && (t < old(w.room) && |payload| <= left ==>
              r == Success(()) && w.data == old(w.data) + header + payload)
        && (t < old(w.room) && left < |payload| ==>
              r == Failure(BincodeError(Io(StorageFull), "stroing DB")) && w.data == old(w.data) + header + payload[..left])
      ensures old(w.room) >= |StoredBytes(records[..])| ==>
        r == Success(()) && w.data == old(w.data) + StoredAsWrittenBytes(records[..], w.chunk)
    {
      r := WriteDatabaseAsWritten(w, EncodeRecords(records[..]));
    }

    /**
     * `Db::lookup`: binary search by base address; an exact match is
     * returned, otherwise the record just below the insertion index if its
     * network contains q. Whatever the order of the records, a returned
     * record is one of them and contains q; on sorted records the result is
     * the one `LookupSpec` describes.
     */
    method Lookup(q: u32) returns (r: Option<Record>)
      requires ValidPrefixes(records[..])
      ensures r.Some? ==> r.value in records[..] && Contains(Network(r.value), q)
      ensures SortedByIp(records[..]) ==> LookupSpec(records[..], q, r)
    {
      var found := BinarySearchByIp(records, q);
      match found
      case Found(i) =>
        r := Some(records[i]);
      case NotFound(k) =>
        if SortedByIp(records[..]) {
          CountBelowAt(records[..], q, k);
        }
        if k != 0 && Contains(Network(records[k - 1]), q) {
          r := Some(records[k - 1]);
        } else {
          r := None;
        }
    }
  }

  lemma TakeWithin(a: seq<u8>, b: seq<u8>, k: nat)
    requires k <= |a|
    ensures (a + b)[..k] == a[..k]
  {
  }

  lemma TakeBeyond(a: seq<u8>, b: seq<u8>, k: nat)
    requires |a| <= k <= |a| + |b|
    ensures (a + b)[..k] == a + b[..k - |a|]
  {
  }

  /** The writes of `store` for a given payload: header, then payload, each in full. */
  method WriteDatabase(w: Writer, payload: seq<u8>) returns (r: Result<(), DbError>)
    requires w.Valid()
    modifies w
    ensures w.Valid()
    ensures var out := DatabaseDataTag + DatabaseDataVersion + payload;
      w.data == old(w.data) + out[..Min(old(w.room), |out|)]
    ensures var out := DatabaseDataTag + DatabaseDataVersion + payload;
      && (old(w.room) < 4 ==> r == Failure(FileError(StorageFull, "error writing tag")))
      && (4 <= old(w.room) < 8 ==> r == Failure(FileError(StorageFull, "error writing version")))
      && (8 <= old(w.room) < |out| ==> r == Failure(BincodeError(Io(StorageFull), "stroing DB")))
      && (|out| <= old(w.room) ==> r == Success(()))
  {
    ghost var room, data := w.room, w.data;
    ghost var header := DatabaseDataTag + DatabaseDataVersion;
    ghost var out := header + payload;
    var written := WriteHeader(w);
    if written.Failure? {
      TakeWithin(header, payload, room);
      assert w.data == data + out[..Min(room, |out|)];
      return written;
    }
    var body := w.WriteAll(payload);
    if body.Failure? {
      TakeBeyond(header, payload, room);
      ConcatAssoc(data, header, payload[..room - 8]);
      assert w.data == data + out[..Min(room, |out|)];
      return Failure(BincodeError(Io(body.error), "stroing DB"));
    }
    assert out[..|out|] == out;
    ConcatAssoc(data, header, payload);
    return Success(());
  }

  /** The writes of the source's `store` for a given payload. */
  method WriteDatabaseAsWritten(w: Writer, payload: seq<u8>) returns (r: Result<(), DbError>)
    requires w.Valid()
    modifies w
    ensures w.Valid()
    ensures var t := Min(4, Min(w.chunk, old(w.room)));
      var v := Min(4, Min(w.chunk, old(w.room) - t));
      var header := DatabaseDataTag[..t] + DatabaseDataVersion[..v];
      var left := old(w.room) - t - v;
      && (old(w.room) == 0 ==>
            r == Failure(FileError(StorageFull, "error writing tag")) && w.data == old(w.data))
      && (0 < old(w.room) == t ==>
            r == Failure(FileError(StorageFull, "error writing version")) && w.data == old(w.data) + DatabaseDataTag[..t])
      && (t < old(w.room) && |payload| <= left ==>
            r == Success(()) && w.data == old(w.data) + header + payload)
      && (t < old(w.room) && left < |payload| ==>
            r == Failure(BincodeError(Io(StorageFull), "stroing DB")) && w.data == old(w.data) + header + payload[..left])
    ensures old(w.room) >= 8 + |payload| ==>
      r == Success(()) &&
      w.data == old(w.data) + (DatabaseDataTag[..Min(4, w.chunk)] + DatabaseDataVersion[..Min(4, w.chunk)] + payload)
  {
    ghost var data := w.data;
    ghost var t := Min(4, Min(w.chunk, w.room));
    ghost var v := Min(4, Min(w.chunk, w.room - t));
    ghost var header := DatabaseDataTag[..t] + DatabaseDataVersion[..v];
    var written := WriteHeaderAsWritten(w);
    if written.Failure? {
      return written;
    }
    assert w.data == data + header;
    ghost var left := w.room;
    var body := w.WriteAll(payload);
    if body.Failure? {
      ConcatAssoc(data, header, payload[..left]);
      return Failure(BincodeError(Io(body.error), "stroing DB"));
    }
    ConcatAssoc(data, header, payload);
    return Success(());
  }

  /**
   * The tag and version writes of `store`, each in full: the sink receives
   * as much of tag and version as it has room for.
   */
  method WriteHeader(w: Writer) returns (r: Result<(), DbError>)
    requires w.Valid()
    modifies w
    ensures w.Valid()
    ensures var header := DatabaseDataTag + DatabaseDataVersion;
      && w.data == old(w.data) + header[..Min(old(w.room), 8)]
      && w.room == old(w.room) - Min(old(w.room), 8)
    ensures old(w.room) < 4 ==> r == Failure(FileError(StorageFull, "error writing tag"))
    ensures 4 <= old(w.room) < 8 ==> r == Failure(FileError(StorageFull, "error writing version"))
    ensures 8 <= old(w.room) ==> r == Success(())
  {
    ghost var room := w.room;
    var tag := w.WriteAll(DatabaseDataTag);
    if tag.Failure? {
      TakeWithin(DatabaseDataTag, DatabaseDataVersion, room);
      return Failure(FileError(tag.error, "error writing tag"));
    }
    var version := w.WriteAll(DatabaseDataVersion);
    if version.Failure? {
      TakeBeyond(DatabaseDataTag, DatabaseDataVersion, room);
      return Failure(FileError(version.error, "error writing version"));
    }
    assert (DatabaseDataTag + DatabaseDataVersion)[..8] == DatabaseDataTag + DatabaseDataVersion;
    return Success(());
  }

  /**
   * The tag and version writes of the source's `store`: one `write` call
   * each, whose count of accepted bytes is ignored. Each call accepts t and
   * v bytes, as much as one call and the remaining room allow; only a call
   * into a sink without room fails.
   */
  method WriteHeaderAsWritten(w: Writer) returns (r: Result<(), DbError>)
    requires w.Valid()
    modifies w
    ensures w.Valid()
    ensures var t := Min(4, Min(w.chunk, old(w.room)));
      var v := Min(4, Min(w.chunk, old(w.room) - t));
      && (old(w.room) == 0 ==>
            r == Failure(FileError(StorageFull, "error writing tag")) && w.data == old(w.data) && w.room == 0)
      && (0 < old(w.room) == t ==>
            && r == Failure(FileError(StorageFull, "error writing version"))
            && w.data == old(w.data) + DatabaseDataTag[..t] && w.room == 0)
      && (t < old(w.room) ==>
            && r == Success(())
            && w.data == old(w.data) + DatabaseDataTag[..t] + DatabaseDataVersion[..v]
            && w.room == old(w.room) - t - v)
    ensures old(w.room) >= 8 ==>
      && r == Success(())
      && w.data == old(w.data) + DatabaseDataTag[..Min(4, w.chunk)] + DatabaseDataVersion[..Min(4, w.chunk)]
  {
    var tag := w.Write(DatabaseDataTag);
    if tag.Failure? {
      return Failure(FileError(tag.error, "error writing tag"));
    }
    var version := w.Write(DatabaseDataVersion);
    if version.Failure? {
      return Failure(FileError(version.error, "error writing version"));
    }
    return Success(());
  }

  /** The records `collect` gathers from items that are all blocks are blocks. */
  lemma CollectedBlocks(items: seq<Result<Record, Ingest.TsvParseError>>)
    requires Ingest.AllBlocks(items) && Ingest.Collect(items).Success?
    ensures var rs := Ingest.Collect(items).value;
      forall i :: 0 <= i < |rs| ==> Ingest.BlockRecord(rs[i])
  {
    var rs := Ingest.Collect(items).value;
    forall i | 0 <= i < |rs| ensures Ingest.BlockRecord(rs[i]) {
      assert items[i] == Success(rs[i]);
    }
  }

  /** Reordering keeps every record a block. */
  lemma BlocksPermuted(s: seq<Record>, t: seq<Record>)
    requires multiset(s) == multiset(t)
    requires forall i :: 0 <= i < |s| ==> Ingest.BlockRecord(s[i])
    ensures ValidPrefixes(t) && AlignedRecords(t)
  {
    forall j | 0 <= j < |t| ensures Ingest.BlockRecord(t[j]) {
      assert t[j] in multiset(s);
    }
  }

  /**
   * Storing into a sink with room for it, in any write chunking, and
   * loading the bytes back gives the same records in the same order.
   */
  method StoreThenLoad(db: Db, chunk: nat) returns (loaded: Result<Db, DbError>)
    requires chunk >= 1 && Encodable(db.records[..])
    ensures loaded.Success? && loaded.value.records[..] == db.records[..]
  {
    var w := new Writer(|StoredBytes(db.records[..])|, chunk);
    var stored := db.Store(w);
    assert w.data == StoredBytes(db.records[..]) + [];
    LoadStored(db.records[..], []);
    var rd := new Reader(w.data);
    loaded := Db.Load(rd);
  }

  /**
   * The same with the source's `store` and a sink that takes 2 bytes per
   * call: the store succeeds, and loading its bytes fails on the tag.
   */
  method StoreAsWrittenThenLoad(db: Db) returns (stored: Result<(), DbError>, loaded: Result<Db, DbError>)
    ensures stored == Success(())
    ensures loaded == Failure(DbDataError("bad database data tag"))
  {
    var w := new Writer(|StoredBytes(db.records[..])|, 2);
    stored := db.StoreAsWritten(w);
    ShortWriteLosesTag(db.records[..], 2);
    var rd := new Reader(w.data);
    loaded := Db.Load(rd);
  }
}
