/** The readers the program is generic over, on an immutable byte string. */
module Streams {
  import opened Wrappers
  import opened Bytes

  /** What a reader delivers up to its first terminal result, and the error that is, if it is one. */
  datatype Flow = Flow(bytes: seq<byte>, failure: Option<Error>)

  /** `Read`: a call may return fewer bytes than asked for, but none only at the end. */
  class Source {
    const data: seq<byte>
    var pos: nat

    ghost predicate Valid()
      reads this
    {
      pos <= |data|
    }

    constructor (data: seq<byte>)
      ensures Valid() && this.data == data && pos == 0
    {
      this.data := data;
      pos := 0;
    }

    method Read(want: nat) returns (chunk: seq<byte>)
      requires Valid()
      modifies this
      ensures Valid() && pos == old(pos) + |chunk|
      ensures chunk == data[old(pos)..pos]
      ensures |chunk| <= want
      ensures chunk == [] <==> want == 0 || old(pos) == |data|
    {
      var most := if want < |data| - pos then want else |data| - pos;
      var n: nat := 0;
      if most > 0 {
        n :| 1 <= n <= most;
      }
      chunk := data[pos..pos + n];
      pos := pos + n;
    }

    /** `read_exact`: all `n` bytes, or an error that may have consumed some. */
    method ReadExact(n: nat) returns (r: Result<seq<byte>>)
      requires Valid()
      modifies this
      ensures Valid() && old(pos) <= pos
      ensures old(pos) + n <= |data| ==> r == Ok(data[old(pos)..old(pos) + n]) && pos == old(pos) + n
      ensures old(pos) + n > |data| ==> r == Err(Io)
    {
      if pos + n > |data| {
        pos := |data|;
        return Err(Io);
      }
      r := Ok(data[pos..pos + n]);
      pos := pos + n;
    }
  }

  /** `Read + Seek` over the archive file. */
  class FileCursor {
    const data: seq<byte>
    var pos: nat

    constructor (data: seq<byte>)
      ensures this.data == data && pos == 0
    {
      this.data := data;
      pos := 0;
    }

    method Seek(at: nat)
      modifies this
      ensures pos == at
    {
      pos := at;
    }

    method ReadExact(n: nat) returns (r: Result<seq<byte>>)
      modifies this
      ensures old(pos) + n <= |data| ==> r == Ok(data[old(pos)..old(pos) + n]) && pos == old(pos) + n
      ensures old(pos) + n > |data| ==> r == Err(Io)
    {
      if pos + n > |data| {
        return Err(Io);
      }
      r := Ok(data[pos..pos + n]);
      pos := pos + n;
    }
  }

  /** A positioned read of exactly `n` bytes (`pread_exact`). */
  function ReadAtExact(file: seq<byte>, at: nat, n: nat): Result<seq<byte>> {
    if at + n <= |file| then Ok(file[at..at + n]) else Err(Io)
  }
}
