/**
 * The byte streams `Db::load` reads from and `Db::store` writes to, with
 * their position and contents as explicit state.
 */
module Streams {
  import opened Wrappers
  import opened Ipv4

  /** The I/O failures the model can produce. */
  datatype IoError =
    | UnexpectedEof  // the stream ended before a read was filled
    | StorageFull    // the sink refuses further bytes

  /** A stream over fixed contents, consumed from the front. */
  class Reader {
    const data: seq<u8>
    var pos: nat

    ghost predicate Valid()
      reads this
    {
      pos <= |data|
    }

    /** The bytes not yet consumed. */
    function Rest(): (r: seq<u8>)
      reads this
      requires Valid()
      ensures |r| == |data| - pos
    {
      data[pos..]
    }

    constructor(contents: seq<u8>)
      ensures data == contents && pos == 0 && Valid()
    {
      data := contents;
      pos := 0;
    }

    /**
     * `read_exact` of n bytes. When fewer than n remain, the read fails with
     * `UnexpectedEof`; the model then takes the stream to be exhausted.
     */
    method ReadExact(n: nat) returns (r: Result<seq<u8>, IoError>)
      requires Valid()
      modifies this
      ensures Valid()
      ensures n <= |old(Rest())| ==> r == Success(old(Rest())[..n]) && Rest() == old(Rest())[n..]
      ensures |old(Rest())| < n ==> r == Failure(UnexpectedEof) && Rest() == []
    {
      if |data| - pos < n {
        pos := |data|;
        return Failure(UnexpectedEof);
      }
      r := Success(data[pos..pos + n]);
      assert data[pos..][..n] == data[pos..pos + n] && data[pos..][n..] == data[pos + n..];
      pos := pos + n;
    }

    /** Consume n bytes that a decoder has used. */
    method Skip(n: nat)
      requires Valid() && n <= |Rest()|
      modifies this
      ensures Valid() && Rest() == old(Rest())[n..]
    {
      assert data[pos..][n..] == data[pos + n..];
      pos := pos + n;
    }

    /** Consume everything that is left. */
    method Drain()
      requires Valid()
      modifies this
      ensures Valid() && Rest() == []
    {
      pos := |data|;
    }
  }

  /**
   * A sink. One `write` call accepts at most `chunk` bytes and at most
   * `room` bytes in total; a non-empty write into a sink without room fails.
   */
  class Writer {
    var data: seq<u8>
    var room: nat
    const chunk: nat

    ghost predicate Valid()
      reads this
    {
      chunk >= 1
    }

    constructor(room: nat, chunk: nat)
      requires chunk >= 1
      ensures Valid() && data == [] && this.room == room && this.chunk == chunk
    {
      data := [];
      this.room := room;
      this.chunk := chunk;
    }

    /** `write`: accepts a prefix of b and reports its length. */
    method Write(b: seq<u8>) returns (r: Result<nat, IoError>)
      requires Valid()
      modifies this
      ensures Valid()
      ensures |b| > 0 && old(room) == 0 ==> r == Failure(StorageFull) && data == old(data) && room == 0
      ensures |b| == 0 || old(room) > 0 ==>
        && r.Success?
        && r.value == Min(|b|, Min(chunk, old(room)))
        && data == old(data) + b[..r.value]
        && room == old(room) - r.value
    {
      if |b| > 0 && room == 0 {
        return Failure(StorageFull);
      }
      var n := Min(|b|, Min(chunk, room));
      data := data + b[..n];
      room := room - n;
      return Success(n);
    }

    /**
     * `write_all`: repeats `write` until all of b is accepted or a write
     * fails. The sink ends up holding the part of b it had room for.
     */
    method WriteAll(b: seq<u8>) returns (r: Result<(), IoError>)
      requires Valid()
      modifies this
      ensures Valid()
      ensures |b| <= old(room) ==> r.Success? && data == old(data) + b && room == old(room) - |b|
      ensures old(room) < |b| ==> r == Failure(StorageFull) && data == old(data) + b[..old(room)] && room == 0
    {
      var i := 0;
      while i < |b|
        invariant 0 <= i <= |b| && Valid()
        invariant i <= old(room) && room == old(room) - i
        invariant data == old(data) + b[..i]
        decreases |b| - i
      {
        var w := Write(b[i..]);
        if w.Failure? {
          return Failure(StorageFull);
        }
        assert b[..i] + b[i..][..w.value] == b[..i + w.value];
        i := i + w.value;
      }
      return Success(());
    }
  }
}
