/**
 Checkpoint-indexed random access for Deflate64 (core/src/deflate64_seek.rs). The external inflater
 is a machine known only through its contract `Lawful`; the index, the refill loop, and the
 skip-and-fill read are the program's.
 */
module Deflate64Seek {
  import opened Wrappers
  import opened Bytes
  import opened Streams
  import opened Search
  import opened StoredBlocks

  const IO_CHUNK: nat := 128 * 1024
  const MAX_DECODE: uint64 := 4 * 1024 * 1024 * 1024
  const MAX_INDEX_BYTES: nat := 512 * 1024 * 1024
  const DEFAULT_CHECKPOINT_INTERVAL: uint64 := 8 * 1024 * 1024

  // ----- the inflater -------------------------------------------------------------------------

  datatype Inflated<S> = Inflated(state: S, consumed: nat, output: seq<byte>, dataError: bool)

  datatype Saved = Saved(blob: seq<byte>, outputOffset: nat, inputOffset: nat)

  /** The operations of `InflaterManaged` on its state `S`. */
  datatype Machine<!S> = Machine(
    init: S,
    inflate: (S, seq<byte>, nat) -> Inflated<S>,
    finished: S -> bool,
    checkpoint: S -> Option<Saved>,
    restore: seq<byte> -> Option<(S, nat)>)

  /** How decoding the whole of an input ends. */
  datatype Fate = Complete | Corrupt | CutShort

  /**
   One compressed stream: its bytes, everything it can decode to, how it ends, and which states
   have consumed `i` bytes and returned `o`.
   */
  datatype Stream<!S> = Stream(input: seq<byte>, output: seq<byte>, fate: Fate, at: (S, nat, nat) -> bool)

  /** One call on the input slice [i, j) with room for `n` bytes. */
  ghost predicate StepLaw<S(!new)>(m: Machine<S>, st: Stream<S>, s: S, i: nat, o: nat, j: nat, n: nat)
    requires i <= j <= |st.input| && o <= |st.output|
  {
    var r := m.inflate(s, st.input[i..j], n);
    if r.dataError then
      st.fate.Corrupt?
    else
      && r.consumed <= j - i && |r.output| <= n && o + |r.output| <= |st.output|
      && r.output == st.output[o..o + |r.output|]
      && st.at(r.state, i + r.consumed, o + |r.output|)
      && (r.output == [] && m.finished(r.state) ==> st.fate.Complete? && o == |st.output|)
      && (r.output == [] && !m.finished(r.state) && r.consumed == 0 ==> i == j)
      && (r.output == [] && !m.finished(r.state) && i == |st.input| ==> st.fate.CutShort?)
  }

  ghost predicate SaveLaw<S(!new)>(m: Machine<S>, st: Stream<S>, s: S, i: nat, o: nat) {
    match m.checkpoint(s)
    case None => true
    case Some(c) =>
      && c.inputOffset <= i
      && m.restore(c.blob).Some? && m.restore(c.blob).value.1 == c.outputOffset
      && st.at(m.restore(c.blob).value.0, c.inputOffset, c.outputOffset)
  }

  /**
   The contract: output is the stream's whatever the chunking, calls with input and room make
   progress, and a restored checkpoint resumes at its stated positions, the input one already fed.
   */
  ghost predicate Lawful<S(!new)>(m: Machine<S>, st: Stream<S>) {
    && |st.output| < 0x8000_0000_0000_0000
    && st.at(m.init, 0, 0)
    && (forall s, i: nat, o: nat :: st.at(s, i, o) ==> i <= |st.input| && o <= |st.output| && SaveLaw(m, st, s, i, o))
    && (forall s, i: nat, o: nat, j: nat, n: nat :: st.at(s, i, o) && i <= j <= |st.input| && n > 0 ==>
      StepLaw(m, st, s, i, o, j, n))
  }

  // ----- driving it ---------------------------------------------------------------------------

  /** Keeps account of the bytes inflated. */
  class Ledger {
    ghost var inflated: nat

    constructor ()
      ensures inflated == 0
    {
      inflated := 0;
    }
  }

  /** The bytes from `from` up to `to` that the file holds. */
  function Held(file: seq<byte>, from: nat, to: nat): (r: seq<byte>)
    requires from <= to
    ensures |r| <= to - from && (to <= |file| ==> r == file[from..to])
    ensures from + |r| <= |file| || r == []
  {
    if from >= |file| then [] else if to <= |file| then file[from..to] else file[from..]
  }

  lemma {:induction false} HeldSlice(file: seq<byte>, from: nat, to: nat, i: nat, n: nat)
    requires from + i + n <= to && from + i + n <= |file|
    ensures i + n <= |Held(file, from, to)| && Held(file, from, to)[i..i + n] == file[from + i..from + i + n]
  {
    var end := if to <= |file| then to else |file|;
    if from < |file| {
      assert Held(file, from, to) == file[from..end];
      SubSlice(file, from, end, i, i + n);
    }
  }

  /** `RawInflate`: a bounded compressed range of the file fed through an input buffer. */
  class RawInflate<S(!new)> {
    const m: Machine<S>
    const file: seq<byte>
    ghost const dataStart: nat
    const dataEnd: nat
    const inBuf: array<byte>
    ghost const st: Stream<S>
    ghost const ledger: Ledger
    var filePos: nat
    var inStart: nat
    var inEnd: nat
    var inflater: S
    ghost var emitted: nat

    /** Bytes of the stream the inflater has consumed: those read, less those still buffered. */
    ghost function Consumed(): int
      reads this
    {
      filePos - (inEnd - inStart) - dataStart
    }

    ghost predicate Valid()
      reads this, inBuf
    {
      && Lawful(m, st)
      && dataStart <= dataEnd && st.input == Held(file, dataStart, dataEnd)
      && inBuf.Length == IO_CHUNK
      && inStart <= inEnd <= inBuf.Length && dataStart <= filePos <= dataEnd
      && 0 <= Consumed() && Consumed() + (inEnd - inStart) <= |st.input|
      && inBuf[inStart..inEnd] == st.input[Consumed()..Consumed() + (inEnd - inStart)]
      && emitted <= |st.output| && st.at(inflater, Consumed(), emitted)
    }

    constructor (m: Machine<S>, file: seq<byte>, ghost dataStart: nat, filePos: nat, dataEnd: nat, inflater: S,
                 ghost st: Stream<S>, ghost emitted: nat, ghost ledger: Ledger)
      requires Lawful(m, st)
      requires dataStart <= filePos <= dataEnd && st.input == Held(file, dataStart, dataEnd)
      requires filePos - dataStart <= |st.input| && st.at(inflater, filePos - dataStart, emitted)
      ensures Valid() && fresh(inBuf)
      ensures this.m == m && this.file == file && this.dataStart == dataStart && this.dataEnd == dataEnd
      ensures this.st == st
      ensures this.emitted == emitted && this.ledger == ledger
    {
      this.m, this.file, this.dataStart, this.dataEnd, this.st := m, file, dataStart, dataEnd, st;
      this.filePos, this.inStart, this.inEnd, this.inflater := filePos, 0, 0, inflater;
      this.emitted, this.ledger := emitted, ledger;
      inBuf := new byte[IO_CHUNK];
    }

    /** Refill the empty input buffer with the next stretch of the compressed range, if any is left. */
    method Refill() returns (r: Result<()>)
      requires Valid() && inStart == inEnd
      modifies this, inBuf
      ensures r.Err? ==> dataEnd > |file|
      ensures r.Ok? ==> Valid() && emitted == old(emitted) && Consumed() == old(Consumed())
      ensures r.Ok? && inStart == inEnd ==> Consumed() == |st.input|
    {
      hide Lawful, Held;
      var avail := if dataEnd - filePos < inBuf.Length then dataEnd - filePos else inBuf.Length;
      if avail > 0 {
        var bytes :- ReadAtExact(file, filePos, avail);
        HeldSlice(file, dataStart, dataEnd, filePos - dataStart, avail);
        Store(inBuf, 0, bytes);
        assert inBuf[0..0 + |bytes|] == bytes;
        filePos := filePos + avail;
        inStart, inEnd := 0, avail;
      }
      r := Ok(());
    }

    /** Where the inflater stands in the stream. */
    lemma {:induction false} Standing()
      requires Valid()
      ensures 0 <= Consumed() <= |st.input| && emitted <= |st.output| && st.at(inflater, Consumed(), emitted)
    {
      hide Lawful;
    }

    /** The law of a call on what is buffered. */
    lemma {:induction false} CallLaw(room: nat)
      requires Valid() && room > 0
      ensures inStart <= inEnd <= inBuf.Length
      ensures
        var r := m.inflate(inflater, inBuf[inStart..inEnd], room);
        if r.dataError then st.fate.Corrupt?
        else
          && r.consumed <= inEnd - inStart && |r.output| <= room && emitted + |r.output| <= |st.output|
          && r.output == st.output[emitted..emitted + |r.output|]
          && Consumed() + r.consumed <= |st.input| && st.at(r.state, Consumed() + r.consumed, emitted + |r.output|)
          && (r.output == [] && m.finished(r.state) ==> st.fate.Complete? && emitted == |st.output|)
          && (r.output == [] && !m.finished(r.state) && r.consumed == 0 ==> inStart == inEnd)
          && (r.output == [] && !m.finished(r.state) && Consumed() == |st.input| ==> st.fate.CutShort?)
    {
      hide SaveLaw;
      Standing();
      assert StepLaw(m, st, inflater, Consumed(), emitted, Consumed() + (inEnd - inStart), room);
    }

    /** The unread input is the next part of the stream. */
    lemma {:induction false} Unread(n: nat)
      requires Valid() && n <= inEnd - inStart
      ensures inBuf[inStart + n..inEnd] == st.input[Consumed() + n..Consumed() + (inEnd - inStart)]
    {
      hide Lawful, StepLaw, SaveLaw;
      SliceTail(inBuf[..], inStart, inEnd, st.input, Consumed(), Consumed() + (inEnd - inStart), n);
    }

    /** One call of the inflater on what is buffered. */
    method Inflate(room: nat) returns (res: Inflated<S>)
      requires Valid() && room > 0
      modifies this, ledger
      ensures res.dataError ==> st.fate.Corrupt?
      ensures !res.dataError ==>
        && Valid() && inflater == res.state && Consumed() == old(Consumed()) + res.consumed
        && |res.output| <= room && emitted == old(emitted) + |res.output| <= |st.output|
        && res.output == st.output[old(emitted)..emitted]
        && ledger.inflated == old(ledger.inflated) + |res.output|
      ensures !res.dataError && res.output == [] && m.finished(inflater) ==> st.fate.Complete? && emitted == |st.output|
      ensures !res.dataError && res.output == [] && !m.finished(inflater) ==>
        && (res.consumed == 0 ==> old(inStart == inEnd))
        && (old(Consumed()) == |st.input| ==> st.fate.CutShort?)
    {
      hide RawInflate.Valid, RawInflate.Consumed;
      CallLaw(room);
      res := m.inflate(inflater, inBuf[inStart..inEnd], room);
      if !res.dataError {
        Advance(res);
      }
    }

    /** Take over what a call has done. */
    method Advance(res: Inflated<S>)
      requires Valid() && res.consumed <= inEnd - inStart && emitted + |res.output| <= |st.output|
      requires Consumed() + res.consumed <= |st.input|
      requires st.at(res.state, Consumed() + res.consumed, emitted + |res.output|)
      modifies this, ledger
      ensures Valid() && inflater == res.state && Consumed() == old(Consumed()) + res.consumed
      ensures emitted == old(emitted) + |res.output| && ledger.inflated == old(ledger.inflated) + |res.output|
    {
      hide Lawful;
      Unread(res.consumed);
      inflater := res.state;
      inStart := inStart + res.consumed;
      emitted := emitted + |res.output|;
      ledger.inflated := ledger.inflated + |res.output|;
    }

    /** One turn of the loop in `read`: refill if empty, then one call of the inflater. */
    method Turn(room: nat) returns (r: Result<(Inflated<S>, bool)>)
      requires Valid() && room > 0
      modifies this, inBuf, ledger
      ensures r.Err? ==> dataEnd > |file|
      ensures r.Ok? && r.value.0.dataError ==> st.fate.Corrupt?
      ensures r.Ok? && !r.value.0.dataError ==>
        var res := r.value.0;
        && Valid() && inflater == res.state && Consumed() == old(Consumed()) + res.consumed
        && |res.output| <= room && emitted == old(emitted) + |res.output| <= |st.output|
        && res.output == st.output[old(emitted)..emitted]
        && ledger.inflated == old(ledger.inflated) + |res.output|
      ensures r.Ok? && !r.value.0.dataError && r.value.0.output == [] ==>
        if m.finished(inflater) then st.fate.Complete? && emitted == |st.output|
        else if r.value.0.consumed == 0 then r.value.1 && st.fate.CutShort?
        else true
    {
      hide Lawful, RawInflate.Valid;
      if inStart == inEnd {
        var _ :- Refill();
      }
      var noMoreInput := inStart == inEnd;
      var res := Inflate(room);
      r := Ok((res, noMoreInput));
    }

    /**
     Produce at least one and at most `hi - lo` further bytes of the stream into `out[lo..hi]`; 0 means
     that the stream has ended, having been decoded completely.
     */
    method Read(out: array<byte>, lo: nat, hi: nat) returns (r: Result<nat>)
      requires Valid() && lo < hi <= out.Length && out != inBuf
      modifies this, inBuf, out, ledger
      ensures r.Err? ==> !st.fate.Complete? || dataEnd > |file|
      ensures r.Ok? ==> Valid() && r.value <= hi - lo && emitted == old(emitted) + r.value
      ensures r.Ok? ==> ledger.inflated == old(ledger.inflated) + r.value
      ensures r.Ok? ==> emitted <= |st.output| && out[lo..lo + r.value] == st.output[old(emitted)..emitted]
      ensures r.Ok? ==> (r.value == 0 <==> old(emitted) == |st.output| && st.fate.Complete?)
      ensures r.Ok? ==> forall k :: 0 <= k < out.Length && !(lo <= k < lo + r.value) ==> out[k] == old(out[k])
    {
      hide Lawful, StepLaw, SaveLaw;
      while true
        invariant Valid() && emitted == old(emitted) <= |st.output| && ledger.inflated == old(ledger.inflated)
        invariant forall k :: 0 <= k < out.Length ==> out[k] == old(out[k])
        decreases |st.input| - Consumed()
      {
        var turn :- Turn(hi - lo);
        var (res, noMoreInput) := turn;
        if res.dataError {
          return Err(Io);
        }
        if |res.output| > 0 {
          Store(out, lo, res.output);
          return Ok(|res.output|);
        }
        if m.finished(inflater) {
          return Ok(0);
        }
        if noMoreInput && res.consumed == 0 {
          return Err(Io);
        }
      }
    }
  }

  lemma {:induction false} SliceTail(a: seq<byte>, i: nat, j: nat, b: seq<byte>, k: nat, l: nat, n: nat)
    requires i + n <= j <= |a| && k + n <= l <= |b| && a[i..j] == b[k..l]
    ensures a[i + n..j] == b[k + n..l]
  {
    SubSlice(a, i, j, n, j - i);
    SubSlice(b, k, l, n, l - k);
  }

  /** Copy `bytes` into `out` at `lo`. */
  method Store(out: array<byte>, lo: nat, bytes: seq<byte>)
    requires lo + |bytes| <= out.Length
    modifies out
    ensures out[lo..lo + |bytes|] == bytes
    ensures forall k :: 0 <= k < out.Length && !(lo <= k < lo + |bytes|) ==> out[k] == old(out[k])
  {
    forall k | 0 <= k < |bytes| {
      out[lo + k] := bytes[k];
    }
  }

  // ----- the index ----------------------------------------------------------------------------

  datatype Checkpoint = Checkpoint(outputOffset: uint64, inputOffset: uint64, blob: Option<seq<byte>>)

  /**
   The end of the data is the unbounded sum; the program's wraps at 64 bits, and so does its difference to
   a file position, which therefore comes out right.
   */
  datatype Index = Index(dataEnd: nat, size: uint64, checkpoints: seq<Checkpoint>)

  /** A checkpoint resumes the stream at the output offset it names. */
  ghost predicate Resumes<S(!new)>(m: Machine<S>, st: Stream<S>, dataStart: uint64, c: Checkpoint) {
    match c.blob
    case None => c.outputOffset == 0 && c.inputOffset == dataStart
    case Some(blob) =>
      && dataStart <= c.inputOffset
      && m.restore(blob).Some? && m.restore(blob).value.1 == c.outputOffset
      && st.at(m.restore(blob).value.0, c.inputOffset - dataStart, c.outputOffset)
  }

  /** Checkpoints from the stream start on, strictly increasing, each of which resumes the stream. */
  ghost predicate Checkpoints<S(!new)>(m: Machine<S>, st: Stream<S>, dataStart: uint64, cs: seq<Checkpoint>) {
    && cs != [] && cs[0] == Checkpoint(0, dataStart, None)
    && (forall i :: 0 <= i < |cs| ==> Resumes(m, st, dataStart, cs[i]))
    && Increasing(cs)
  }

  /** An index of the stream: it decodes completely, to the declared size. */
  ghost predicate IndexFor<S(!new)>(ix: Index, m: Machine<S>, st: Stream<S>, dataStart: uint64) {
    && Checkpoints(m, st, dataStart, ix.checkpoints)
    && st.fate.Complete? && ix.size == |st.output| && dataStart + |st.input| <= ix.dataEnd
  }

  /** The output offset of the last checkpoint at or before `offset`. */
  function StartFor(cs: seq<Checkpoint>, offset: nat): nat {
    if cs == [] then 0
    else if cs[|cs| - 1].outputOffset <= offset then cs[|cs| - 1].outputOffset
    else StartFor(cs[..|cs| - 1], offset)
  }

  predicate Increasing(cs: seq<Checkpoint>) {
    forall i, j :: 0 <= i < j < |cs| ==> cs[i].outputOffset < cs[j].outputOffset
  }

  lemma {:induction false} StartForIs(cs: seq<Checkpoint>, offset: nat, ci: nat)
    requires Increasing(cs) && ci < |cs| && cs[ci].outputOffset <= offset
    requires ci + 1 < |cs| ==> offset < cs[ci + 1].outputOffset
    ensures StartFor(cs, offset) == cs[ci].outputOffset
    decreases |cs|
  {
    if ci + 1 < |cs| {
      StartForIs(cs[..|cs| - 1], offset, ci);
    }
  }

  /**
   With dense checkpoints the last one at or before an offset is less
   than the bound away, so less than that is skipped.
   */
  lemma {:induction false} SkipBound(cs: seq<Checkpoint>, size: nat, bound: nat, offset: nat)
    requires Increasing(cs) && Dense(cs, size, bound) && cs[0].outputOffset == 0 && offset < size
    ensures StartFor(cs, offset) <= offset < StartFor(cs, offset) + bound
    decreases |cs|
  {
    var n := |cs| - 1;
    if cs[n].outputOffset > offset {
      assert cs[n].outputOffset < cs[n - 1].outputOffset + bound;
      SkipBound(cs[..n], cs[n].outputOffset, bound, offset);
    }
  }

  function BlobBytes(cs: seq<Checkpoint>): nat {
    if cs == [] then 0
    else BlobBytes(cs[..|cs| - 1]) + if cs[|cs| - 1].blob.Some? then |cs[|cs| - 1].blob.value| else 0
  }

  /** No two neighbours, and not the last and `end`, are `bound` or more apart. */
  predicate Dense(cs: seq<Checkpoint>, end: nat, bound: nat) {
    cs != [] && Neighbours(cs, bound) && end < cs[|cs| - 1].outputOffset + bound
  }

  predicate Neighbours(cs: seq<Checkpoint>, bound: nat) {
    forall i :: 0 < i < |cs| ==> cs[i].outputOffset < cs[i - 1].outputOffset + bound
  }

  /** Every checkpoint can be taken, at the output returned so far. */
  ghost predicate Prompt<S(!new)>(m: Machine<S>, st: Stream<S>) {
    forall s, i: nat, o: nat :: st.at(s, i, o) ==> m.checkpoint(s).Some? && m.checkpoint(s).value.outputOffset == o
  }

  /** What a checkpoint taken now says. */
  lemma {:induction false} Taken<S(!new)>(m: Machine<S>, st: Stream<S>, dataStart: uint64, s: S, i: nat, o: nat)
    requires Lawful(m, st) && st.at(s, i, o) && m.checkpoint(s).Some?
    requires dataStart + |st.input| < 0x1_0000_0000_0000_0000
    ensures
      var c := m.checkpoint(s).value;
      && c.outputOffset < 0x8000_0000_0000_0000 && dataStart + c.inputOffset < 0x1_0000_0000_0000_0000
      && Resumes(m, st, dataStart, Checkpoint(c.outputOffset, dataStart + c.inputOffset, Some(c.blob)))
      && SavedAt(m, st, dataStart, Checkpoint(c.outputOffset, dataStart + c.inputOffset, Some(c.blob)), o)
      && (Prompt(m, st) ==> c.outputOffset == o)
  {
    assert SaveLaw(m, st, s, i, o);
  }

  lemma {:induction false} PromptlyTaken<S(!new)>(m: Machine<S>, st: Stream<S>, s: S, i: nat, o: nat)
    requires st.at(s, i, o)
    ensures Prompt(m, st) ==> m.checkpoint(s).Some? && m.checkpoint(s).value.outputOffset == o
  {
  }

  lemma {:induction false} First<S(!new)>(m: Machine<S>, st: Stream<S>, dataStart: uint64, interval: nat, c: Checkpoint)
    requires Lawful(m, st) && c == Checkpoint(0, dataStart, None)
    ensures Harvest(m, st, dataStart, interval, [c], []) && BlobBytes([c]) == 0 && st.at(m.init, 0, 0)
    ensures forall bound: nat :: Neighbours([c], bound)
  {
    assert [c][..0] == [];
  }

  lemma {:induction false} Extended<S(!new)>(m: Machine<S>, st: Stream<S>, dataStart: uint64, cs: seq<Checkpoint>,
                                             c: Checkpoint)
    requires Checkpoints(m, st, dataStart, cs) && Resumes(m, st, dataStart, c) && c.blob.Some?
    requires c.outputOffset > cs[|cs| - 1].outputOffset
    ensures Checkpoints(m, st, dataStart, cs + [c])
    ensures BlobBytes(cs + [c]) == BlobBytes(cs) + |c.blob.value|
    ensures forall bound: nat :: Dense(cs, c.outputOffset, bound) ==> Neighbours(cs + [c], bound)
  {
    hide Resumes;
    assert (cs + [c])[..|cs|] == cs;
    if |cs| > 0 {
      forall i | 0 <= i < |cs|
        ensures cs[i].outputOffset < c.outputOffset
      {
      }
    }
  }

  /** The checkpoint is one the inflater gives in a state that has returned `o` bytes. */
  ghost predicate SavedAt<S(!new)>(m: Machine<S>, st: Stream<S>, dataStart: uint64, c: Checkpoint, o: nat) {
    exists s, i: nat ::
      && st.at(s, i, o) && m.checkpoint(s).Some?
      && var saved := m.checkpoint(s).value;
         && c.outputOffset == saved.outputOffset && c.inputOffset == dataStart + saved.inputOffset
         && c.blob == Some(saved.blob)
  }

  /** The position before the `k`-th; the start before the first. */
  function Before(os: seq<nat>, k: nat): nat
    requires k <= |os|
  {
    if k == 0 then 0 else os[k - 1]
  }

  /** Each of the positions is `interval` or more behind the one before it. */
  predicate Spaced(os: seq<nat>, interval: nat) {
    forall k :: 0 <= k < |os| ==> os[k] >= Before(os, k) + interval
  }

  /**
   The checkpoints but the first were given by the inflater at the spaced positions `os`.
   */
  ghost predicate Harvest<S(!new)>(m: Machine<S>, st: Stream<S>, dataStart: uint64, interval: nat,
                                   cs: seq<Checkpoint>, os: seq<nat>) {
    && Checkpoints(m, st, dataStart, cs) && |os| == |cs| - 1 && Spaced(os, interval)
    && (forall k :: 0 <= k < |os| ==> os[k] <= |st.output| && SavedAt(m, st, dataStart, cs[k + 1], os[k]))
  }

  /** No checkpoint the inflater gives on this stream has more than `bound` bytes. */
  ghost predicate SmallBlobs<S(!new)>(m: Machine<S>, st: Stream<S>, bound: nat) {
    forall s, i: nat, o: nat :: st.at(s, i, o) && m.checkpoint(s).Some? ==> |m.checkpoint(s).value.blob| <= bound
  }

  lemma {:induction false} Reaped<S(!new)>(m: Machine<S>, st: Stream<S>, dataStart: uint64, interval: nat,
                                           cs: seq<Checkpoint>, os: seq<nat>,
                                           c: Checkpoint, o: nat)
    requires Harvest(m, st, dataStart, interval, cs, os) && Checkpoints(m, st, dataStart, cs + [c])
    requires SavedAt(m, st, dataStart, c, o) && o <= |st.output| && o >= Before(os, |os|) + interval
    ensures Harvest(m, st, dataStart, interval, cs + [c], os + [o])
  {
    hide Checkpoints, SavedAt;
    forall k | 0 <= k <= |os|
      ensures (os + [o])[k] >= Before(os + [o], k) + interval
    {
      assert k < |os| ==> os[k] >= Before(os, k) + interval;
    }
  }

  /** Spaced positions are far from the start. */
  lemma {:induction false} FewPositions(os: seq<nat>, interval: nat, n: nat)
    requires Spaced(os, interval) && n <= |os|
    ensures n * interval <= Before(os, n)
    decreases n
  {
    if n > 0 {
      FewPositions(os, interval, n - 1);
      assert os[n - 1] >= Before(os, n - 1) + interval;
      assert n * interval == (n - 1) * interval + interval;
    }
  }

  lemma {:induction false} SmallBlob<S(!new)>(m: Machine<S>, st: Stream<S>, dataStart: uint64, c: Checkpoint, o: nat,
                                              bound: nat)
    requires SavedAt(m, st, dataStart, c, o) && SmallBlobs(m, st, bound)
    ensures c.blob.Some? && |c.blob.value| <= bound
  {
  }

  lemma {:induction false} HarvestBytes<S(!new)>(m: Machine<S>, st: Stream<S>, dataStart: uint64,
                                                 cs: seq<Checkpoint>, os: seq<nat>, bound: nat)
    requires |os| == |cs| - 1 && cs[0].blob.None? && SmallBlobs(m, st, bound)
    requires forall k :: 0 <= k < |os| ==> SavedAt(m, st, dataStart, cs[k + 1], os[k])
    ensures BlobBytes(cs) <= bound * |os|
    decreases |cs|
  {
    hide SavedAt, SmallBlobs;
    if |os| > 0 {
      var n := |os| - 1;
      forall k | 0 <= k < n
        ensures SavedAt(m, st, dataStart, cs[..n + 1][k + 1], os[..n][k])
      {
        assert cs[..n + 1][k + 1] == cs[k + 1] && os[..n][k] == os[k];
      }
      HarvestBytes(m, st, dataStart, cs[..n + 1], os[..n], bound);
      SmallBlob(m, st, dataStart, cs[n + 1], os[n], bound);
      assert bound * |os| == bound * n + bound;
    } else {
      assert cs[..0] == [];
    }
  }

  /** An index takes at most one largest checkpoint for each interval of output. */
  lemma {:induction false} HarvestFits<S(!new)>(m: Machine<S>, st: Stream<S>, dataStart: uint64, interval: nat,
                                                cs: seq<Checkpoint>, os: seq<nat>, bound: nat)
    requires Harvest(m, st, dataStart, interval, cs, os) && SmallBlobs(m, st, bound) && interval > 0
    ensures BlobBytes(cs) <= bound * (|st.output| / interval)
  {
    hide SavedAt, SmallBlobs, BlobBytes, Resumes, Increasing;
    HarvestBytes(m, st, dataStart, cs, os, bound);
    FewPositions(os, interval, |os|);
    AtMostQuotient(|os|, interval, |st.output|);
    Scaled(bound, |os|, |st.output| / interval);
  }

  lemma {:induction false} AtMostQuotient(n: nat, d: nat, total: nat)
    requires d > 0 && n * d <= total
    ensures n <= total / d
  {
    assert total == total / d * d + total % d;
    if n > total / d {
      Scaled(d, total / d + 1, n);
    }
  }

  lemma {:induction false} Scaled(a: nat, b: nat, c: nat)
    requires b <= c
    ensures a * b <= a * c
  {
  }

  datatype Caps = Caps(maxDecode: uint64, maxIndexBytes: nat)

  const DEFAULT_CAPS: Caps := Caps(MAX_DECODE, MAX_INDEX_BYTES)

  /** The interval used for a requested one. */
  function Effective(requested: uint64): (n: uint64)
    ensures n > 0
  {
    if requested == 0 then 1 else requested
  }

  /** The checkpoints taken while indexing outgrow the cap. */
  ghost predicate Outgrows<S(!new)>(m: Machine<S>, st: Stream<S>, dataStart: uint64, interval: nat, cap: nat) {
    exists cs, os :: Harvest(m, st, dataStart, interval, cs, os) && BlobBytes(cs) > cap
  }

  /** Small checkpoints do not outgrow the cap. */
  lemma {:induction false} SmallDoNotOutgrow<S(!new)>(m: Machine<S>, st: Stream<S>, dataStart: uint64, interval: nat,
                                                      cap: nat, bound: nat)
    requires interval > 0 && SmallBlobs(m, st, bound) && bound * (|st.output| / interval) <= cap
    ensures !Outgrows(m, st, dataStart, interval, cap)
  {
    hide Harvest, SmallBlobs, BlobBytes;
    if Outgrows(m, st, dataStart, interval, cap) {
      var cs, os :| Harvest(m, st, dataStart, interval, cs, os) && BlobBytes(cs) > cap;
      HarvestFits(m, st, dataStart, interval, cs, os, bound);
    }
  }

  /**
   What indexing has gathered: the checkpoints, the last one's
   output offset, their bytes, and when the next is due.
   */
  datatype Progress = Progress(checkpoints: seq<Checkpoint>, lastOutputOffset: uint64, indexBytes: nat, nextAt: nat)

  ghost predicate Kept<S(!new)>(m: Machine<S>, st: Stream<S>, dataStart: uint64, interval: uint64, cap: nat,
                                p: Progress, os: seq<nat>) {
    && Harvest(m, st, dataStart, interval, p.checkpoints, os)
    && p.indexBytes == BlobBytes(p.checkpoints) <= cap
    && p.checkpoints != [] && p.lastOutputOffset == p.checkpoints[|p.checkpoints| - 1].outputOffset
    && p.nextAt >= Before(os, |os|) + interval
    && (Prompt(m, st) ==> Neighbours(p.checkpoints, interval + IO_CHUNK) && p.nextAt == p.lastOutputOffset + interval)
  }

  lemma {:induction false} KeptAtStart<S(!new)>(m: Machine<S>, st: Stream<S>, dataStart: uint64, interval: uint64,
                                                cap: nat, p: Progress)
    requires Lawful(m, st) && p == Progress([Checkpoint(0, dataStart, None)], 0, 0, interval)
    ensures Kept(m, st, dataStart, interval, cap, p, []) && st.at(m.init, 0, 0)
  {
    hide Harvest, BlobBytes, Neighbours, Prompt, SaveLaw, StepLaw;
    First(m, st, dataStart, interval, p.checkpoints[0]);
  }

  lemma {:induction false} KeptIs<S(!new)>(m: Machine<S>, st: Stream<S>, dataStart: uint64, interval: uint64,
                                           cap: nat, p: Progress, os: seq<nat>, end: nat)
    requires Kept(m, st, dataStart, interval, cap, p, os) && end < p.nextAt
    ensures Harvest(m, st, dataStart, interval, p.checkpoints, os) && Checkpoints(m, st, dataStart, p.checkpoints)
    ensures BlobBytes(p.checkpoints) <= cap && (Prompt(m, st) ==> Dense(p.checkpoints, end, interval + IO_CHUNK))
  {
    hide Harvest, BlobBytes, Neighbours, Prompt, Checkpoints;
    HarvestIs(m, st, dataStart, interval, p.checkpoints, os);
  }

  /** A checkpoint is due: take it if the inflater gives one that lies behind the last. */
  method Capture<S(!new)>(m: Machine<S>, ghost st: Stream<S>, dataStart: uint64, interval: uint64, caps: Caps,
                          p: Progress, ghost os: seq<nat>,
                          s: S, ghost i: nat, totalOut: uint64) returns (r: Result<Progress>, ghost after: seq<nat>)
    requires Lawful(m, st) && st.at(s, i, totalOut) && totalOut <= |st.output|
    requires dataStart + |st.input| < 0x1_0000_0000_0000_0000
    requires Kept(m, st, dataStart, interval, caps.maxIndexBytes, p, os) && interval > 0
    requires p.nextAt <= totalOut && (Prompt(m, st) ==> totalOut < p.nextAt + IO_CHUNK)
    ensures r.Ok? ==> totalOut < r.value.nextAt && Kept(m, st, dataStart, interval, caps.maxIndexBytes, r.value, after)
    ensures r.Err? ==> r == Err(Malformed(IndexCap)) && Outgrows(m, st, dataStart, interval, caps.maxIndexBytes)
  {
    hide Lawful, Checkpoints, Prompt, Neighbours, BlobBytes, Resumes, Harvest, SavedAt;
    after := os;
    PromptlyTaken(m, st, s, i, totalOut);
    var saved := m.checkpoint(s);
    if saved.None? {
      return Ok(p.(nextAt := totalOut + interval)), after;
    }
    var c := saved.value;
    Taken(m, st, dataStart, s, i, totalOut);
    var next := (if c.outputOffset > totalOut then c.outputOffset else totalOut) + interval;
    if c.outputOffset <= p.lastOutputOffset {
      return Ok(p.(nextAt := next)), after;
    }
    var indexBytes := p.indexBytes + |c.blob|;
    var taken := Checkpoint(c.outputOffset, dataStart + c.inputOffset, Some(c.blob));
    HarvestIs(m, st, dataStart, interval, p.checkpoints, os);
    Extended(m, st, dataStart, p.checkpoints, taken);
    Reaped(m, st, dataStart, interval, p.checkpoints, os, taken, totalOut);
    assert Prompt(m, st) ==> Dense(p.checkpoints, taken.outputOffset, interval + IO_CHUNK);
    after := os + [totalOut as nat];
    if indexBytes > caps.maxIndexBytes {
      return Err(Malformed(IndexCap)), after;
    }
    r := Ok(Progress(p.checkpoints + [taken], c.outputOffset, indexBytes, next));
  }

  /** The reason for refusing an index. */
  ghost predicate Refused<S(!new)>(why: Defect, m: Machine<S>, st: Stream<S>, dataStart: uint64, inFile: bool,
                                   size: uint64, interval: nat, caps: Caps) {
    match why
    case DecodeFailed(_) => !st.fate.Complete? || !inFile
    case DecodeCap => |st.output| > caps.maxDecode
    case IndexCap => Outgrows(m, st, dataStart, interval, caps.maxIndexBytes)
    case SizeMismatch(decoded) => st.fate.Complete? && decoded == |st.output| != size
    case _ => false
  }

  /**
   `build_index_capped`: decode once, saving a checkpoint each time `interval` more output has been
   returned. An index is one of the stream, made in one pass over it. It is refused only if the stream
   does not decode completely to the declared size within the cap, or runs past the end of the file, or
   the checkpoints the inflater gave at the spaced positions outgrow theirs, which small ones never do.
   */
  method BuildIndex<S(!new)>(m: Machine<S>, ghost st: Stream<S>, file: seq<byte>, dataStart: uint64,
                             compressedSize: uint64, size: uint64, requested: uint64, caps: Caps, ghost ledger: Ledger)
    returns (r: Result<Index>)
    requires Lawful(m, st) && caps.maxDecode < 0x4000_0000_0000_0000
    requires |file| < 0x8000_0000_0000_0000 && st.input == Held(file, dataStart, dataStart + compressedSize)
    modifies ledger
    ensures r.Ok? ==> IndexFor(r.value, m, st, dataStart) && r.value.size == size <= caps.maxDecode
    ensures
      r.Ok? ==> BlobBytes(r.value.checkpoints) <= caps.maxIndexBytes && ledger.inflated == old(ledger.inflated) + size
    ensures r.Ok? ==> exists os :: Harvest(m, st, dataStart, Effective(requested), r.value.checkpoints, os)
    ensures r.Ok? && Prompt(m, st) ==> Dense(r.value.checkpoints, size, Effective(requested) + IO_CHUNK)
    ensures r.Ok? ==> r.value.dataEnd == dataStart + compressedSize
    ensures r.Err? ==>
      && r.error.Malformed?
      && Refused(r.error.defect, m, st, dataStart, dataStart + compressedSize <= |file|, size, Effective(requested),
           caps)
  {
    hide Lawful, Kept, RawInflate.Consumed, RawInflate.Valid, Harvest, Dense, BlobBytes, Checkpoints, Prompt, Resumes,
      Neighbours, Increasing, Outgrows, StepLaw, SaveLaw, Effective;
    var interval := Effective(requested);
    var dataEnd: nat := dataStart + compressedSize;
    var p := Progress([Checkpoint(0, dataStart, None)], 0, 0, interval);
    KeptAtStart(m, st, dataStart, interval, caps.maxIndexBytes, p);
    var raw := new RawInflate(m, file, dataStart, dataStart, dataEnd, m.init, st, 0, ledger);
    var outBuf := new byte[IO_CHUNK];
    var totalOut: uint64 := 0;
    ghost var os: seq<nat> := [];
    while true
      invariant raw.Valid() && fresh(raw) && fresh(raw.inBuf) && raw.m == m && raw.st == st && raw.ledger == ledger
      invariant raw.dataEnd == dataEnd && raw.file == file
      invariant outBuf != raw.inBuf && outBuf.Length == IO_CHUNK && raw.dataStart == dataStart
      invariant totalOut == raw.emitted <= caps.maxDecode && totalOut <= |st.output|
      invariant ledger.inflated == old(ledger.inflated) + totalOut
      invariant totalOut < p.nextAt && Kept(m, st, dataStart, interval, caps.maxIndexBytes, p, os)
      decreases |st.output| - raw.emitted
    {
      var read := raw.Read(outBuf, 0, outBuf.Length);
      if read.Err? {
        return Err(Malformed(DecodeFailed(read.error)));
      }
      var n := read.value;
      if n == 0 {
        break;
      }
      totalOut := totalOut + n;
      if totalOut > caps.maxDecode {
        return Err(Malformed(DecodeCap));
      }
      if totalOut >= p.nextAt {
        raw.Standing();
        p, os :- Capture(m, st, dataStart, interval, caps, p, os, raw.inflater, raw.Consumed(), totalOut);
      }
    }
    KeptIs(m, st, dataStart, interval, caps.maxIndexBytes, p, os, totalOut);
    if totalOut != size {
      return Err(Malformed(SizeMismatch(totalOut)));
    }
    r := Ok(Index(dataEnd, size, p.checkpoints));
  }

  lemma {:induction false} HarvestIs<S(!new)>(m: Machine<S>, st: Stream<S>, dataStart: uint64, interval: nat,
                                              cs: seq<Checkpoint>, os: seq<nat>)
    requires Harvest(m, st, dataStart, interval, cs, os)
    ensures Checkpoints(m, st, dataStart, cs) && |os| == |cs| - 1
  {
    hide Checkpoints;
  }

  /** Restoring an indexed checkpoint. */
  lemma {:induction false} Resumed<S(!new)>(ix: Index, m: Machine<S>, st: Stream<S>, dataStart: uint64, i: nat)
    requires Lawful(m, st) && IndexFor(ix, m, st, dataStart) && i < |ix.checkpoints|
    ensures
      var c := ix.checkpoints[i];
      && dataStart <= c.inputOffset && c.inputOffset - dataStart <= |st.input|
      && match c.blob
         case None => c.outputOffset == 0 && st.at(m.init, c.inputOffset - dataStart, 0)
         case Some(blob) =>
           m.restore(blob).Some? && m.restore(blob).value.1 == c.outputOffset
           && st.at(m.restore(blob).value.0, c.inputOffset - dataStart, c.outputOffset)
  {
    assert Resumes(m, st, dataStart, ix.checkpoints[i]);
  }

  /** The last checkpoint at or before `offset`. */
  method Choose(cs: seq<Checkpoint>, offset: nat) returns (ci: nat)
    requires cs != [] && cs[0].outputOffset == 0
    requires Increasing(cs)
    ensures ci < |cs| && cs[ci].outputOffset <= offset
    ensures ci + 1 < |cs| ==> offset < cs[ci + 1].outputOffset
    ensures cs[ci].outputOffset == StartFor(cs, offset)
  {
    var n := PartitionPoint(cs, (c: Checkpoint) => c.outputOffset <= offset);
    ci := n - 1;
    StartForIs(cs, offset, ci);
  }

  /** Inflate and discard `n` bytes. */
  method Skip<S(!new)>(raw: RawInflate<S>, n: nat) returns (r: Result<()>)
    requires raw.Valid() && raw.st.fate.Complete? && raw.emitted + n <= |raw.st.output|
    modifies raw, raw.inBuf, raw.ledger
    ensures r.Err? ==> r == Err(Io) && raw.dataEnd > |raw.file|
    ensures r.Ok? ==> raw.Valid() && raw.emitted == old(raw.emitted) + n
    ensures r.Ok? ==> raw.ledger.inflated == old(raw.ledger.inflated) + n
  {
    hide Lawful, RawInflate.Consumed, RawInflate.Valid;
    var toSkip := n;
    var scratch := new byte[IO_CHUNK];
    while toSkip > 0
      invariant raw.Valid() && fresh(scratch) && scratch != raw.inBuf
      invariant toSkip >= 0 && raw.emitted + toSkip == old(raw.emitted) + n
      invariant raw.ledger.inflated + toSkip == old(raw.ledger.inflated) + n
    {
      var chunk := if toSkip < scratch.Length then toSkip else scratch.Length;
      var read := raw.Read(scratch, 0, chunk);
      if read.Err? {
        return Err(Io);
      }
      toSkip := toSkip - read.value;
    }
    r := Ok(());
  }

  lemma {:induction false} StillThere(buf: seq<byte>, before: seq<byte>)
    requires |before| <= |buf| && forall k :: 0 <= k < |before| ==> buf[k] == before[k]
    ensures buf[..|before|] == before
  {
  }

  lemma {:induction false} Grown(buf: seq<byte>, out: seq<byte>, o: nat, filled: nat, got: nat)
    requires filled + got <= |buf| && o + filled + got <= |out|
    requires buf[..filled] == out[o..o + filled] && buf[filled..filled + got] == out[o + filled..o + filled + got]
    ensures buf[..filled + got] == out[o..o + filled + got]
  {
    assert buf[..filled + got] == buf[..filled] + buf[filled..filled + got];
    assert out[o..o + filled + got] == out[o..o + filled] + out[o + filled..o + filled + got];
  }

  /** Fill `buf[..want]` with the next bytes of the stream. */
  method Fill<S(!new)>(raw: RawInflate<S>, buf: array<byte>, want: nat) returns (r: Result<()>)
    requires raw.Valid() && raw.st.fate.Complete? && raw.emitted + want <= |raw.st.output|
    requires want <= buf.Length && buf != raw.inBuf
    modifies raw, raw.inBuf, raw.ledger, buf
    ensures r.Err? ==> r == Err(Io) && raw.dataEnd > |raw.file|
    ensures r.Ok? ==> raw.ledger.inflated == old(raw.ledger.inflated) + want
    ensures r.Ok? ==> buf[..want] == raw.st.output[old(raw.emitted)..old(raw.emitted) + want]
    ensures r.Ok? ==> forall k :: want <= k < buf.Length ==> buf[k] == old(buf[k])
  {
    hide Lawful, RawInflate.Consumed, RawInflate.Valid;
    ghost var o := raw.emitted;
    var filled := 0;
    while filled < want
      invariant raw.Valid() && filled <= want && raw.emitted == o + filled
      invariant raw.ledger.inflated == old(raw.ledger.inflated) + filled
      invariant buf[..filled] == raw.st.output[o..o + filled]
      invariant forall k :: want <= k < buf.Length ==> buf[k] == old(buf[k])
    {
      ghost var before := buf[..filled];
      var read := raw.Read(buf, filled, want);
      if read.Err? {
        return Err(Io);
      }
      var got := read.value;
      StillThere(buf[..], before);
      Grown(buf[..], raw.st.output, o, filled, got);
      filled := filled + got;
    }
    r := Ok(());
  }

  /**
   `read_at`: whichever checkpoint is restored, and however the stream is then chunked, the buffer
   receives exactly the decoded bytes due at `offset`; the read never fails on data inside the file. What
   is inflated for it is those bytes and the ones from the last checkpoint before them on.
   */
  method ReadAt<S(!new)>(ix: Index, m: Machine<S>, ghost st: Stream<S>, file: seq<byte>, ghost dataStart: uint64,
                         offset: uint64, buf: array<byte>, ghost ledger: Ledger) returns (r: Result<nat>)
    requires Lawful(m, st) && IndexFor(ix, m, st, dataStart)
    requires dataStart <= ix.dataEnd && st.input == Held(file, dataStart, ix.dataEnd)
    modifies buf, ledger
    ensures r.Err? ==> r == Err(Io) && ix.dataEnd > |file|
    ensures r.Ok? ==> r.value == Due(ix.size, offset, buf.Length)
    ensures r.Ok? && offset <= ix.size ==> buf[..r.value] == st.output[offset..offset + r.value]
    ensures r.Ok? ==> forall k :: r.value <= k < buf.Length ==> buf[k] == old(buf[k])
    ensures r.Ok? ==>
      ledger.inflated == old(ledger.inflated) + r.value
        + if r.value == 0 then 0 else offset - StartFor(ix.checkpoints, offset)
    ensures r.Ok? ==>
      forall bound: nat :: Dense(ix.checkpoints, ix.size, bound) && r.value > 0 ==>
        ledger.inflated < old(ledger.inflated) + r.value + bound
  {
    hide Lawful, Resumes, Neighbours, Dense, RawInflate.Consumed, RawInflate.Valid, StartFor, Checkpoints;
    if offset >= ix.size || buf.Length == 0 {
      return Ok(0);
    }
    IndexHas(ix, m, st, dataStart);
    var ci := Choose(ix.checkpoints, offset);
    DenseEnough(ix.checkpoints, ix.size, offset);
    var want := if ix.size - offset < buf.Length then ix.size - offset else buf.Length;
    var raw, startOut := Restore(ix, m, st, file, dataStart, ci, ledger);
    var _ :- Skip(raw, offset - startOut);
    var _ :- Fill(raw, buf, want);
    r := Ok(want);
  }

  lemma {:induction false} IndexHas<S(!new)>(ix: Index, m: Machine<S>, st: Stream<S>, dataStart: uint64)
    requires IndexFor(ix, m, st, dataStart)
    ensures ix.checkpoints != [] && ix.checkpoints[0].outputOffset == 0 && Increasing(ix.checkpoints)
  {
    hide Resumes;
  }

  /** A reader resuming at checkpoint `ci`. */
  method Restore<S(!new)>(ix: Index, m: Machine<S>, ghost st: Stream<S>, file: seq<byte>, ghost dataStart: uint64,
                          ci: nat, ghost ledger: Ledger)
    returns (raw: RawInflate<S>, startOut: nat)
    requires Lawful(m, st) && IndexFor(ix, m, st, dataStart) && ci < |ix.checkpoints|
    requires dataStart <= ix.dataEnd && st.input == Held(file, dataStart, ix.dataEnd)
    ensures fresh(raw) && fresh(raw.inBuf) && raw.Valid() && raw.st == st && raw.ledger == ledger
    ensures raw.dataEnd == ix.dataEnd && raw.file == file
    ensures raw.emitted == startOut == ix.checkpoints[ci].outputOffset
  {
    hide Lawful, Resumes, Checkpoints, RawInflate.Consumed;
    var cp := ix.checkpoints[ci];
    Resumed(ix, m, st, dataStart, ci);
    var inflater := m.init;
    startOut := 0;
    if cp.blob.Some? {
      var restored := m.restore(cp.blob.value);
      inflater, startOut := restored.value.0, restored.value.1;
    }
    raw := new RawInflate(m, file, dataStart, cp.inputOffset, ix.dataEnd, inflater, st, startOut, ledger);
  }

  lemma {:induction false} DenseEnough(cs: seq<Checkpoint>, size: nat, offset: nat)
    requires Increasing(cs) && cs != [] && cs[0].outputOffset == 0 && offset < size
    ensures forall bound: nat :: Dense(cs, size, bound) ==> offset - StartFor(cs, offset) < bound
  {
    hide Dense, StartFor;
    forall bound: nat | Dense(cs, size, bound)
      ensures offset - StartFor(cs, offset) < bound
    {
      SkipBound(cs, size, bound, offset);
    }
  }

  // ----- the contract can be met ----------------------------------------------------------------

  datatype Position = Position(n: nat)

  /** A machine that copies its input, and saves its position. */
  function CopyMachine(input: seq<byte>): Machine<Position> {
    Machine(
      Position(0),
      (s: Position, part: seq<byte>, room: nat) =>
        var n := if |part| < room then |part| else room;
        Inflated(Position(s.n + n), n, part[..n], false),
      (s: Position) => s.n == |input|,
      (s: Position) => Some(Saved(Le(s.n, 8), s.n, s.n)),
      (blob: seq<byte>) => Some((Position(FromLe(blob)), FromLe(blob))))
  }

  /** What the copying machine makes of its input. */
  function CopyStream(input: seq<byte>): Stream<Position> {
    Stream(input, input, Complete, (s: Position, i: nat, o: nat) => s.n == i == o <= |input|)
  }

  lemma {:induction false} CopySaves(input: seq<byte>, s: Position, i: nat, o: nat)
    requires |input| < 0x8000_0000_0000_0000 && CopyStream(input).at(s, i, o)
    ensures SaveLaw(CopyMachine(input), CopyStream(input), s, i, o)
    ensures var c := CopyMachine(input).checkpoint(s); c.Some? && c.value.outputOffset == o && |c.value.blob| == 8
  {
    hide Le, FromLe, Range;
    Ranges();
    LeRoundTrip(s.n, 8);
  }

  lemma {:induction false} CopySteps(input: seq<byte>, s: Position, i: nat, o: nat, j: nat, n: nat)
    requires CopyStream(input).at(s, i, o) && i <= j <= |input| && n > 0
    ensures StepLaw(CopyMachine(input), CopyStream(input), s, i, o, j, n)
  {
    hide Le, FromLe;
    var k := if j - i < n then j - i else n;
    SubSlice(input, i, j, 0, k);
    assert input[i..j][..k] == input[o..o + k];
  }

  lemma {:induction false} ContractIsMet(input: seq<byte>)
    requires |input| < 0x8000_0000_0000_0000
    ensures
      var m, st := CopyMachine(input), CopyStream(input);
      Lawful(m, st) && st.output == input && st.fate.Complete? && Prompt(m, st) && SmallBlobs(m, st, 8)
  {
    hide SaveLaw, StepLaw, CopyMachine;
    var m, st := CopyMachine(input), CopyStream(input);
    forall s, i: nat, o: nat | st.at(s, i, o)
      ensures SaveLaw(m, st, s, i, o) && m.checkpoint(s).Some?
      ensures m.checkpoint(s).value.outputOffset == o && |m.checkpoint(s).value.blob| == 8
    {
      CopySaves(input, s, i, o);
    }
    forall s, i: nat, o: nat, j: nat, n: nat | st.at(s, i, o) && i <= j <= |st.input| && n > 0
      ensures StepLaw(m, st, s, i, o, j, n)
    {
      CopySteps(input, s, i, o, j, n);
    }
    CopyStarts(input);
  }

  lemma {:induction false} CopyStarts(input: seq<byte>)
    ensures CopyMachine(input).init == Position(0)
  {
  }
}
