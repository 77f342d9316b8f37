/** The decoding reader of one entry (core/src/archive.rs): bytes out, and a checksum at the end. */
module EntryReader {
  import opened Wrappers
  import opened Bytes
  import opened Streams
  import Crc32
  import Registers

  /** The checksum of the bytes, which fits 32 bits. */
  function SumOf(data: seq<byte>): (n: nat)
    ensures n == Crc32.ReferenceSum(data)
  {
    Crc32.ChecksumIsReference(data);
    Crc32.ReferenceSum(data)
  }

  /** A decoder: it delivers the bytes of its flow, in pieces, and then ends or fails. */
  class Decoder {
    const flow: Flow
    var pos: nat

    ghost predicate Valid()
      reads this
    {
      pos <= |flow.bytes|
    }

    constructor (flow: Flow)
      ensures Valid() && this.flow == flow && pos == 0
    {
      this.flow := flow;
      pos := 0;
    }

    /** Whether there is nothing more to deliver. */
    predicate Drained()
      reads this
    {
      pos >= |flow.bytes|
    }

    /** With room it delivers, ends or fails; without, it may refuse or deliver nothing. */
    method Read(room: nat) returns (r: Result<seq<byte>>)
      requires Valid()
      modifies this
      ensures Valid()
      ensures r.Err? ==> pos == old(pos)
      ensures r.Ok? ==> |r.value| <= room && pos == old(pos) + |r.value| && r.value == flow.bytes[old(pos)..pos]
      ensures room > 0 && !old(Drained()) ==> r.Ok? && r.value != []
      ensures room > 0 && old(Drained()) ==> r == if flow.failure.Some? then Err(flow.failure.value) else Ok([])
    {
      if room == 0 {
        var refuses: bool :| true;
        return if refuses then Err(Io) else Ok([]);
      }
      if Drained() {
        return if flow.failure.Some? then Err(flow.failure.value) else Ok([]);
      }
      var most := if room < |flow.bytes| - pos then room else |flow.bytes| - pos;
      var n: nat :| 1 <= n <= most;
      r := Ok(flow.bytes[pos..pos + n]);
      pos := pos + n;
    }
  }

  class ZipFile {
    const decoder: Decoder
    const expected: uint32
    const verifyCrc: bool
    var register: bv32
    var bytesOut: nat
    var verified: bool

    ghost predicate Valid()
      reads this, decoder
    {
      && decoder.Valid() && bytesOut == decoder.pos
      && register == Crc32.Feed(Crc32.START, Out())
    }

    /** What has been delivered. */
    ghost function Out(): seq<byte>
      requires decoder.Valid()
      reads this, decoder
    {
      decoder.flow.bytes[..decoder.pos]
    }

    constructor (decoder: Decoder, expected: uint32, verifyCrc: bool)
      requires decoder.Valid() && decoder.pos == 0
      ensures Valid() && this.decoder == decoder && this.expected == expected && this.verifyCrc == verifyCrc
      ensures Out() == [] && !verified
    {
      this.decoder, this.expected, this.verifyCrc := decoder, expected, verifyCrc;
      register, bytesOut, verified := Crc32.START, 0, false;
      new;
      assert Out() == [];
    }

    /** The result of the checksum comparison over what has been delivered. */
    ghost function Verdict(): Result<seq<byte>>
      requires decoder.Valid()
      reads this, decoder
    {
      if verified || !verifyCrc || Crc32.ReferenceSum(Out()) == expected then Ok([])
      else Err(CrcMismatch(expected, SumOf(Out())))
    }

    /**
     `read`. A failure of the decoder is passed on and leaves the rest as it was. The check runs on the
     first call that delivers nothing, over what has been delivered so far, and never again: a call
     without room triggers it early.
     */
    method Read(room: nat) returns (r: Result<seq<byte>>)
      requires Valid()
      modifies this, decoder
      ensures Valid()
      ensures room > 0 && !old(decoder.Drained()) ==>
        r.Ok? && 0 < |r.value| <= room && Out() == old(Out()) + r.value && verified == old(verified)
      ensures room > 0 && old(decoder.Drained()) && decoder.flow.failure.Some? ==>
        r == Err(decoder.flow.failure.value) && Out() == old(Out()) && verified == old(verified)
      ensures room > 0 && old(decoder.Drained()) && decoder.flow.failure.None? ==>
        r == old(Verdict()) && Out() == old(Out()) && verified
      ensures room == 0 ==>
        Out() == old(Out()) && ((r.Err? && verified == old(verified)) || (r == old(Verdict()) && verified))
    {
      hide Crc32.Feed, Crc32.Finish, Crc32.ReferenceSum, Registers.Num;
      var chunk :- decoder.Read(room);
      if chunk == [] {
        if !verified {
          verified := true;
          var actual := Registers.Num(Crc32.Finish(register));
          Crc32.ChecksumIsReference(Out());
          if verifyCrc && actual != expected {
            return Err(CrcMismatch(expected, actual));
          }
        }
        return Ok([]);
      }
      ghost var before := old(Out());
      assert decoder.flow.bytes[..decoder.pos] == before + chunk;
      Crc32.FeedConcat(Crc32.START, before, chunk);
      register := FeedAll(register, chunk);
      bytesOut := bytesOut + |chunk|;
      r := Ok(chunk);
    }
  }

  /** The hasher's `update`. */
  method FeedAll(crc: bv32, data: seq<byte>) returns (r: bv32)
    ensures r == Crc32.Feed(crc, data)
  {
    hide Crc32.FeedByte;
    r := crc;
    for i := 0 to |data|
      invariant Crc32.Feed(r, data[i..]) == Crc32.Feed(crc, data)
    {
      assert data[i..][1..] == data[i + 1..];
      r := Crc32.FeedByte(r, data[i]);
    }
  }

  /** What reading a flow to its end gives. */
  function Checked(flow: Flow, verifyCrc: bool, expected: uint32): Result<seq<byte>> {
    if flow.failure.Some? then Err(flow.failure.value)
    else if !verifyCrc || Crc32.ReferenceSum(flow.bytes) == expected then Ok(flow.bytes)
    else Err(CrcMismatch(expected, SumOf(flow.bytes)))
  }

  /** What an entry is refused for: its decoder's failure first, and then its checksum, naming both values. */
  lemma {:induction false} CheckedIs(bytes: seq<byte>, failure: Option<Error>, verifyCrc: bool, expected: uint32)
    ensures
      var r, sum := Checked(Flow(bytes, failure), verifyCrc, expected), SumOf(bytes);
      if failure.Some? then r == Err(failure.value)
      else if verifyCrc && sum != expected then r == Err(CrcMismatch(expected, sum))
      else r == Ok(bytes)
  {
    hide Crc32.ReferenceSum;
  }

  /** `read_to_end`: non-empty buffers up to the first terminal result. */
  method ReadToEnd(f: ZipFile) returns (r: Result<seq<byte>>)
    requires f.Valid() && !f.verified && f.bytesOut == 0
    modifies f, f.decoder
    ensures r == Checked(f.decoder.flow, f.verifyCrc, f.expected)
  {
    hide Crc32.ReferenceSum;
    var out: seq<byte> := [];
    while true
      invariant f.Valid() && !f.verified && out == f.Out()
      decreases |f.decoder.flow.bytes| - f.decoder.pos
    {
      var room: nat :| room > 0;
      assert f.decoder.Drained() ==> f.Out() == f.decoder.flow.bytes;
      var chunk :- f.Read(room);
      if chunk == [] {
        break;
      }
      out := out + chunk;
    }
    r := Ok(out);
  }
}
