/**
 Random access over stored deflate blocks (core/src/lib.rs): the index of the blocks, the positioned
 read over it, and the chain of stored blocks of section 3.2.4 of RFC 1951 that it stands for.
 */
module StoredBlocks {
  import opened Wrappers
  import opened Bytes
  import opened Streams
  import opened Search

  datatype StoredBlock = StoredBlock(uncompStart: uint64, len: uint64, fileOffset: uint64) {
    function End(): nat {
      uncompStart + len
    }
  }

  // ----- the format ---------------------------------------------------------------------------

  /** One stored block; the five bits of its first byte behind BFINAL and BTYPE are ignored. */
  datatype RawBlock = RawBlock(ignored: nat, content: seq<byte>)

  predicate ValidRaw(b: RawBlock) {
    b.ignored < 32 && |b.content| < 0x1_0000
  }

  function RawBytes(b: RawBlock, final: bool): (s: seq<byte>)
    requires ValidRaw(b)
    ensures |s| == 5 + |b.content|
  {
    [(8 * b.ignored + if final then 1 else 0) as byte] +
      (Le(|b.content|, 2) + (Le(0xFFFF - |b.content|, 2) + b.content))
  }

  predicate ValidChain(bs: seq<RawBlock>) {
    bs != [] && forall i :: 0 <= i < |bs| ==> ValidRaw(bs[i])
  }

  /** A chain of stored blocks, of which exactly the last is final. */
  function ChainBytes(bs: seq<RawBlock>): (s: seq<byte>)
    requires ValidChain(bs)
    ensures |s| >= 5 * |bs|
  {
    if |bs| == 1 then RawBytes(bs[0], true) else RawBytes(bs[0], false) + ChainBytes(bs[1..])
  }

  /** What the chain decodes to. */
  function ChainContent(bs: seq<RawBlock>): seq<byte> {
    if bs == [] then [] else bs[0].content + ChainContent(bs[1..])
  }

  // ----- the index ----------------------------------------------------------------------------

  /** BTYPE and BFINAL of a block's first byte. */
  function BType(b: byte): nat {
    ((b / 2) % 4) as nat
  }

  /** The bits behind them. */
  function Ignored(b: byte): nat {
    (b / 8) as nat
  }

  predicate BFinal(b: byte) {
    b % 2 == 1
  }

  /** The outcome of one pass over a block header. */
  datatype Step = Compressed | Fail(error: Error) | Block(len: uint16, final: bool)

  function StepAt(file: seq<byte>, foff: nat, end: nat): (r: Step)
    ensures r.Block? ==> foff + 5 + r.len <= end
  {
    if foff + 5 > end then
      Compressed
    else if foff + 5 > |file| then
      Fail(Io)
    else if BType(file[foff]) != 0 then
      Compressed
    else
      var len := U16At(file, foff + 1);
      if U16At(file, foff + 3) != 0xFFFF - len then Fail(Malformed(LengthCheck(foff)))
      else if foff + 5 + len > end then Fail(Malformed(Overrun(foff + 5)))
      else Block(len, BFinal(file[foff]))
  }

  /** The blocks from `foff` on, or why there are none. */
  function Walk(file: seq<byte>, foff: nat, uoff: nat, end: uint64): (r: Result<Option<seq<StoredBlock>>>)
    requires foff <= end && uoff <= foff
    decreases end - foff
  {
    match StepAt(file, foff, end)
    case Compressed => Ok(None)
    case Fail(e) => Err(e)
    case Block(len, final) =>
      var block := StoredBlock(uoff, len, foff + 5);
      if final then
        Ok(Some([block]))
      else
        var rest :- Walk(file, foff + 5 + len, uoff + len, end);
        Ok(if rest.None? then None else Some([block] + rest.value))
  }

  function Total(blocks: seq<StoredBlock>): nat {
    if blocks == [] then 0 else blocks[|blocks| - 1].End()
  }

  function IndexOf(file: seq<byte>, dataStart: nat, end: uint64, size: nat): Result<Option<seq<StoredBlock>>>
    requires dataStart <= end
  {
    var blocks :- Walk(file, dataStart, 0, end);
    if blocks.Some? && Total(blocks.value) != size then Err(Malformed(SizeMismatch(Total(blocks.value))))
    else Ok(blocks)
  }

  /** One pass over a block header; a header read from the file keeps the sums behind it in range. */
  method ReadHeader(file: seq<byte>, foff: uint64, end: uint64) returns (s: Step)
    requires |file| < 0x8000_0000_0000_0000 && foff + 5 < 0x1_0000_0000_0000_0000
    ensures s == StepAt(file, foff, end)
  {
    hide U16At, BType, BFinal;
    var headerEnd: uint64 := foff + 5;
    if headerEnd > end {
      return Compressed;
    }
    var read := ReadAtExact(file, foff, 5);
    if read.Err? {
      return Fail(read.error);
    }
    var hdr := read.value;
    HeaderBytes(file, foff);
    if BType(hdr[0]) != 0 {
      return Compressed;
    }
    var len := U16At(hdr, 1);
    var nlen := U16At(hdr, 3);
    if nlen != 0xFFFF - len {
      return Fail(Malformed(LengthCheck(foff)));
    }
    var next: uint64 := headerEnd + len;
    if next > end {
      return Fail(Malformed(Overrun(headerEnd)));
    }
    s := Block(len, BFinal(hdr[0]));
  }

  /** `Walk`, from where there may be no data at all. */
  ghost function WalkFrom(file: seq<byte>, foff: nat, uoff: nat, end: uint64): Result<Option<seq<StoredBlock>>> {
    if foff <= end && uoff <= foff then Walk(file, foff, uoff, end) else Ok(None)
  }

  /** `index_stored_blocks`. The end of the data wraps at 64 bits; then there is no index. */
  method IndexStoredBlocks(file: seq<byte>, dataStart: uint64, compressedSize: uint64, size: uint64)
    returns (r: Result<Option<seq<StoredBlock>>>)
    requires |file| < 0x8000_0000_0000_0000 && dataStart + 5 < 0x1_0000_0000_0000_0000
    ensures r ==
      if dataStart + compressedSize < 0x1_0000_0000_0000_0000
        then IndexOf(file, dataStart, dataStart + compressedSize, size) else Ok(None)
  {
    hide StepAt, Total;
    var end := WrappingAdd(dataStart, compressedSize);
    var blocks: seq<StoredBlock> := [];
    var foff: uint64 := dataStart;
    var uoff: uint64 := 0;
    ghost var whole := WalkFrom(file, dataStart, 0, end);
    NothingBefore(whole);
    assert Total(blocks) == 0 by { NoBlocks(); }
    while true
      invariant uoff <= foff && foff + 5 < 0x1_0000_0000_0000_0000
      invariant foff <= end || (foff == dataStart && end < dataStart)
      invariant uoff == Total(blocks)
      invariant whole == Behind(blocks, WalkFrom(file, foff, uoff, end))
      decreases end - foff
    {
      var step := ReadHeader(file, foff, end);
      StepInside(file, foff, end);
      if step.Compressed? {
        return Ok(None);
      }
      if step.Fail? {
        return Err(step.error);
      }
      var block := StoredBlock(uoff, step.len, foff + 5);
      LastBefore(blocks, block);
      OneBefore(blocks, block, if step.final then Ok(None) else Walk(file, foff + 5 + step.len, uoff + step.len, end));
      blocks := blocks + [block];
      uoff := uoff + step.len;
      foff := foff + 5 + step.len;
      if step.final {
        break;
      }
    }
    if uoff != size {
      return Err(Malformed(SizeMismatch(uoff)));
    }
    r := Ok(Some(blocks));
  }

  lemma {:induction false} StepInside(file: seq<byte>, foff: nat, end: nat)
    ensures end < foff ==> StepAt(file, foff, end).Compressed?
    ensures StepAt(file, foff, end).Block? ==> foff + 5 <= |file|
  {
  }

  ghost function Behind(done: seq<StoredBlock>,
                        rest: Result<Option<seq<StoredBlock>>>): Result<Option<seq<StoredBlock>>> {
    if rest.Ok? && rest.value.Some? then Ok(Some(done + rest.value.value)) else rest
  }

  lemma {:induction false} NothingBefore(rest: Result<Option<seq<StoredBlock>>>)
    ensures Behind([], rest) == rest
  {
    if rest.Ok? && rest.value.Some? {
      assert [] + rest.value.value == rest.value.value;
    }
  }

  lemma {:induction false} OneBefore(done: seq<StoredBlock>, block: StoredBlock, rest: Result<Option<seq<StoredBlock>>>)
    ensures rest.Ok? && rest.value.Some? ==>
      Behind(done, Ok(Some([block] + rest.value.value))) == Behind(done + [block], rest)
  {
    if rest.Ok? && rest.value.Some? {
      assert done + ([block] + rest.value.value) == done + [block] + rest.value.value;
    }
  }

  lemma {:induction false} LastBefore(done: seq<StoredBlock>, block: StoredBlock)
    ensures Behind(done, Ok(Some([block]))) == Ok(Some(done + [block]))
    ensures Total(done + [block]) == block.End()
  {
  }

  lemma {:induction false} NoBlocks()
    ensures Total([]) == 0
  {
  }

  lemma {:induction false} HeaderBytes(file: seq<byte>, at: nat)
    requires at + 5 <= |file|
    ensures
      var h := file[at..at + 5];
      h[0] == file[at] && U16At(h, 1) == U16At(file, at + 1) && U16At(h, 3) == U16At(file, at + 3)
  {
    FieldShift(file, at, at + 5, 1, 2);
    FieldShift(file, at, at + 5, 3, 2);
  }

  // ----- what an index says -------------------------------------------------------------------

  /** Consecutive blocks covering the output range [from, to). */
  predicate Tiles(bs: seq<StoredBlock>, from: nat, to: nat) {
    if bs == [] then
      from == to
    else
      && bs[0].uncompStart == from && bs[|bs| - 1].End() == to
      && forall i :: 0 < i < |bs| ==> bs[i].uncompStart == bs[i - 1].End()
  }

  /** File ranges in order, without overlap, inside [lo, hi). */
  predicate Apart(bs: seq<StoredBlock>, lo: nat, hi: nat) {
    && (forall i :: 0 <= i < |bs| ==> lo <= bs[i].fileOffset && bs[i].fileOffset + bs[i].len <= hi)
    && (forall i, j :: 0 <= i < j < |bs| ==> bs[i].fileOffset + bs[i].len < bs[j].fileOffset)
  }

  predicate InFile(file: seq<byte>, bs: seq<StoredBlock>) {
    forall i :: 0 <= i < |bs| ==> bs[i].fileOffset + bs[i].len <= |file|
  }

  /** The bytes the blocks hold, in order. */
  function Content(file: seq<byte>, bs: seq<StoredBlock>): seq<byte>
    requires InFile(file, bs)
  {
    if bs == [] then [] else file[bs[0].fileOffset..bs[0].fileOffset + bs[0].len] + Content(file, bs[1..])
  }

  /** The entry's compressed data starts with the stored chain `bs`. */
  predicate IsChain(file: seq<byte>, start: nat, end: nat, bs: seq<RawBlock>) {
    ValidChain(bs) && start + |ChainBytes(bs)| <= end && HasAt(file, start, ChainBytes(bs))
  }

  /** The chain read back from an index. */
  function RawOf(file: seq<byte>, bs: seq<StoredBlock>): seq<RawBlock>
    requires InFile(file, bs) && forall i :: 0 <= i < |bs| ==> bs[i].fileOffset >= 5
  {
    if bs == [] then []
    else [RawBlock(Ignored(file[bs[0].fileOffset - 5]), file[bs[0].fileOffset..bs[0].fileOffset + bs[0].len])]
         + RawOf(file, bs[1..])
  }

  lemma {:induction false} StepFields(file: seq<byte>, foff: nat, end: nat)
    requires StepAt(file, foff, end).Block? && end <= |file|
    ensures
      var s := StepAt(file, foff, end);
      && HasAt(file, foff + 1, Le(s.len, 2)) && HasAt(file, foff + 3, Le(0xFFFF - s.len, 2))
      && BType(file[foff]) == 0 && s.final == BFinal(file[foff])
  {
    hide Le, FromLe, BType, BFinal;
    FromLeRoundTrip(file[foff + 1..foff + 3]);
    FromLeRoundTrip(file[foff + 3..foff + 5]);
  }

  /** A header the walk accepts is the header of a raw block. */
  lemma {:induction false} StepSound(file: seq<byte>, foff: nat, end: nat)
    requires StepAt(file, foff, end).Block? && end <= |file|
    ensures
      var s := StepAt(file, foff, end);
      var b := RawBlock(Ignored(file[foff]), file[foff + 5..foff + 5 + s.len]);
      ValidRaw(b) && HasAt(file, foff, RawBytes(b, s.final))
  {
    hide Le, FromLe, U16At, BType, BFinal, Ignored, StepAt, HasAt;
    var s := StepAt(file, foff, end);
    StepFields(file, foff, end);
    LowBits(file[foff]);
    StandsAt(file, foff, 1);
    StandsAt(file, foff + 5, s.len);
    assert file[foff..foff + 1] == [file[foff]];
    InFour(file, foff, [file[foff]], Le(s.len, 2), Le(0xFFFF - s.len, 2), file[foff + 5..foff + 5 + s.len]);
  }

  lemma {:induction false} InFour(file: seq<byte>, at: nat, a: seq<byte>, b: seq<byte>, c: seq<byte>, d: seq<byte>)
    requires HasAt(file, at, a) && HasAt(file, at + |a|, b) && HasAt(file, at + |a| + |b|, c)
    requires HasAt(file, at + |a| + |b| + |c|, d)
    ensures HasAt(file, at, a + (b + (c + d)))
  {
    hide HasAt;
    HasAtConcat(file, at + |a| + |b|, c, d);
    HasAtConcat(file, at + |a|, b, c + d);
    HasAtConcat(file, at, a, b + (c + d));
  }

  lemma {:induction false} StandsAt(file: seq<byte>, at: nat, n: nat)
    requires at + n <= |file|
    ensures HasAt(file, at, file[at..at + n])
  {
  }

  lemma {:induction false} LowBits(b: byte)
    requires BType(b) == 0
    ensures b as nat == 8 * Ignored(b) + (if BFinal(b) then 1 else 0) && Ignored(b) < 32
  {
  }

  /** And the other way round. */
  lemma {:induction false} StepComplete(file: seq<byte>, foff: nat, end: nat, b: RawBlock, final: bool)
    requires ValidRaw(b) && HasAt(file, foff, RawBytes(b, final)) && foff + |RawBytes(b, final)| <= end
    ensures StepAt(file, foff, end) == Block(|b.content|, final)
    ensures file[foff + 5..foff + 5 + |b.content|] == b.content
  {
    hide Le, FromLe;
    var first := [(8 * b.ignored + if final then 1 else 0) as byte];
    HasAtConcat(file, foff, first, Le(|b.content|, 2) + (Le(0xFFFF - |b.content|, 2) + b.content));
    HasAtConcat(file, foff + 1, Le(|b.content|, 2), Le(0xFFFF - |b.content|, 2) + b.content);
    HasAtConcat(file, foff + 3, Le(0xFFFF - |b.content|, 2), b.content);
    Ranges();
    ReadBack(file, foff + 1, |b.content|, 2);
    ReadBack(file, foff + 3, 0xFFFF - |b.content|, 2);
    assert file[foff..foff + 1][0] == first[0];
    assert file[foff] == first[0];
  }

  /** What a walk that reaches the final block has found. */
  ghost predicate Sound(file: seq<byte>, foff: nat, uoff: nat, end: nat, bs: seq<StoredBlock>) {
    && bs != [] && Tiles(bs, uoff, Total(bs)) && Apart(bs, foff + 5, end) && InFile(file, bs)
    && IsChain(file, foff, end, RawOf(file, bs)) && ChainContent(RawOf(file, bs)) == Content(file, bs)
  }

  /** A block in front of a chain. */
  lemma {:induction false} ChainCons(file: seq<byte>, foff: nat, end: nat, b: RawBlock, raws: seq<RawBlock>)
    requires ValidRaw(b) && HasAt(file, foff, RawBytes(b, raws == [])) && foff + 5 + |b.content| <= end
    requires raws != [] ==> IsChain(file, foff + 5 + |b.content|, end, raws)
    ensures IsChain(file, foff, end, [b] + raws) && ChainContent([b] + raws) == b.content + ChainContent(raws)
  {
    hide RawBytes, HasAt;
    var all := [b] + raws;
    assert all[1..] == raws && ValidChain(all);
    if raws != [] {
      HasAtConcat(file, foff, RawBytes(b, false), ChainBytes(raws));
    }
  }

  /** A block in front of an index. */
  lemma {:induction false} InFileCons(file: seq<byte>, block: StoredBlock, rest: seq<StoredBlock>)
    requires InFile(file, rest) && block.fileOffset + block.len <= |file|
    ensures InFile(file, [block] + rest) && ([block] + rest)[0] == block && ([block] + rest)[1..] == rest
  {
    var bs := [block] + rest;
    forall i | 0 <= i < |bs|
      ensures bs[i].fileOffset + bs[i].len <= |file|
    {
      assert i > 0 ==> bs[i] == rest[i - 1];
    }
  }

  lemma {:induction false} ContentCons(file: seq<byte>, block: StoredBlock, rest: seq<StoredBlock>)
    requires InFile(file, rest) && block.fileOffset + block.len <= |file|
    ensures InFile(file, [block] + rest)
    ensures Content(file, [block] + rest) == file[block.fileOffset..block.fileOffset + block.len] + Content(file, rest)
    ensures Total([block] + rest) == if rest == [] then block.End() else Total(rest)
  {
    hide InFile;
    InFileCons(file, block, rest);
  }

  lemma {:induction false} RawCons(file: seq<byte>, block: StoredBlock, rest: seq<StoredBlock>)
    requires InFile(file, rest) && 5 <= block.fileOffset && block.fileOffset + block.len <= |file|
    requires forall i :: 0 <= i < |rest| ==> rest[i].fileOffset >= 5
    ensures InFile(file, [block] + rest) && forall i :: 0 <= i < |rest| + 1 ==> ([block] + rest)[i].fileOffset >= 5
    ensures RawOf(file, [block] + rest) ==
      [RawBlock(Ignored(file[block.fileOffset - 5]), file[block.fileOffset..block.fileOffset + block.len])]
      + RawOf(file, rest)
  {
    hide Ignored, InFile;
    InFileCons(file, block, rest);
    var bs := [block] + rest;
    forall i | 0 <= i < |bs|
      ensures bs[i].fileOffset >= 5
    {
      assert i > 0 ==> bs[i] == rest[i - 1];
    }
  }

  lemma {:induction false} SoundCons(file: seq<byte>, foff: nat, uoff: uint64, end: uint64, rest: seq<StoredBlock>)
    requires end <= |file| && foff + 5 <= end
    requires
      var s := StepAt(file, foff, end);
      s.Block? && (s.final <==> rest == []) && (!s.final ==> Sound(file, foff + 5 + s.len, uoff + s.len, end, rest))
    ensures Sound(file, foff, uoff, end, [StoredBlock(uoff, StepAt(file, foff, end).len, foff + 5)] + rest)
  {
    hide Le, FromLe, U16At, RawBytes, HasAt, StepAt, IsChain, ChainContent, Content, RawOf, Total, Tiles, Apart;
    StepSound(file, foff, end);
    var s := StepAt(file, foff, end);
    var block := StoredBlock(uoff, s.len, foff + 5);
    var raw := RawBlock(Ignored(file[foff]), file[foff + 5..foff + 5 + s.len]);
    NothingIndexed(file, rest);
    ContentCons(file, block, rest);
    RawCons(file, block, rest);
    ChainCons(file, foff, end, raw, RawOf(file, rest));
    SoundRanges(block, foff, uoff, end, rest);
  }

  lemma {:induction false} NothingIndexed(file: seq<byte>, rest: seq<StoredBlock>)
    ensures rest == [] ==>
      InFile(file, rest) && Content(file, rest) == [] && RawOf(file, rest) == [] && ChainContent([]) == []
    ensures rest != [] && InFile(file, rest) && (forall i :: 0 <= i < |rest| ==> rest[i].fileOffset >= 5) ==>
      RawOf(file, rest) != []
    ensures forall lo, hi :: Apart(rest, lo, hi) ==> forall i :: 0 <= i < |rest| ==> rest[i].fileOffset >= lo
  {
  }

  lemma {:induction false} SoundRanges(block: StoredBlock, foff: nat, uoff: nat, end: nat, rest: seq<StoredBlock>)
    requires foff + 5 + block.len <= end && block.uncompStart == uoff && block.fileOffset == foff + 5
    requires rest != [] ==>
      Tiles(rest, uoff + block.len, Total(rest)) && Apart(rest, foff + 5 + block.len + 5, end)
    ensures var bs := [block] + rest; Tiles(bs, uoff, Total(bs)) && Apart(bs, foff + 5, end)
  {
    var bs := [block] + rest;
    assert forall i :: 1 <= i < |bs| ==> bs[i] == rest[i - 1];
    forall i | 0 < i < |bs|
      ensures bs[i].uncompStart == bs[i - 1].End()
    {
      if i > 1 {
        assert rest[i - 1].uncompStart == rest[i - 2].End();
      }
    }
    forall i, j | 0 <= i < j < |bs|
      ensures bs[i].fileOffset + bs[i].len < bs[j].fileOffset
    {
      assert bs[j] == rest[j - 1];
    }
  }

  /** Soundness: an index tiles the output, and is read off a stored chain holding the same bytes. */
  lemma {:induction false} WalkSound(file: seq<byte>, foff: nat, uoff: nat, end: uint64)
    requires foff <= end <= |file| && uoff <= foff
    requires var w := Walk(file, foff, uoff, end); w.Ok? && w.value.Some?
    ensures Sound(file, foff, uoff, end, Walk(file, foff, uoff, end).value.value)
    decreases end - foff
  {
    hide StepAt, Sound;
    var s := StepAt(file, foff, end);
    if s.final {
      assert [StoredBlock(uoff, s.len, foff + 5)] + [] == [StoredBlock(uoff, s.len, foff + 5)];
      SoundCons(file, foff, uoff, end, []);
    } else {
      var next := foff + 5 + s.len;
      WalkSound(file, next, uoff + s.len, end);
      SoundNonEmpty(file, next, uoff + s.len, end, Walk(file, next, uoff + s.len, end).value.value);
      SoundCons(file, foff, uoff, end, Walk(file, next, uoff + s.len, end).value.value);
    }
  }

  lemma {:induction false} SoundNonEmpty(file: seq<byte>, foff: nat, uoff: nat, end: nat, bs: seq<StoredBlock>)
    requires Sound(file, foff, uoff, end, bs)
    ensures bs != []
  {
  }

  /** Completeness: a stored chain is indexed, whatever stands behind its final block. */
  lemma {:induction false} WalkComplete(file: seq<byte>, foff: nat, uoff: nat, end: uint64, raw: seq<RawBlock>)
    requires foff <= end && uoff <= foff && IsChain(file, foff, end, raw)
    ensures
      var w := Walk(file, foff, uoff, end);
      && w.Ok? && w.value.Some? && InFile(file, w.value.value)
      && Content(file, w.value.value) == ChainContent(raw) && Total(w.value.value) == uoff + |ChainContent(raw)|
    decreases |raw|
  {
    hide Le, FromLe, U16At, RawBytes, HasAt, StepAt, Content, ChainContent, Total, IsChain, ChainBytes;
    ChainSplit(file, foff, end, raw);
    var b := raw[0];
    var next := foff + 5 + |b.content|;
    StepComplete(file, foff, end, b, |raw| == 1);
    NothingIndexed(file, []);
    var rest := [];
    if |raw| > 1 {
      WalkComplete(file, next, uoff + |b.content|, end, raw[1..]);
      rest := Walk(file, next, uoff + |b.content|, end).value.value;
      WalkNonEmpty(file, next, uoff + |b.content|, end);
    }
    var block := StoredBlock(uoff, |b.content|, foff + 5);
    assert [block] + [] == [block];
    ContentCons(file, block, rest);
  }

  lemma {:induction false} WalkNonEmpty(file: seq<byte>, foff: nat, uoff: nat, end: uint64)
    requires foff <= end && uoff <= foff
    ensures var w := Walk(file, foff, uoff, end); w.Ok? && w.value.Some? ==> w.value.value != []
  {
    hide StepAt;
  }

  /** Even where the data runs past the end of the file, an index tiles the output. */
  lemma {:induction false} WalkTiles(file: seq<byte>, foff: nat, uoff: nat, end: uint64)
    requires foff <= end && uoff <= foff
    ensures
      var w := Walk(file, foff, uoff, end);
      w.Ok? && w.value.Some? ==>
        var bs := w.value.value;
        bs != [] && Tiles(bs, uoff, Total(bs)) && Apart(bs, foff + 5, end)
    decreases end - foff
  {
    hide StepAt, Tiles, Apart, Total;
    var s := StepAt(file, foff, end);
    if s.Block? {
      var block, next := StoredBlock(uoff, s.len, foff + 5), foff + 5 + s.len;
      SoundRanges(block, foff, uoff, end, []);
      assert [block] + [] == [block];
      if !s.final {
        WalkTiles(file, next, uoff + s.len, end);
        var w := Walk(file, next, uoff + s.len, end);
        if w.Ok? && w.value.Some? {
          SoundRanges(block, foff, uoff, end, w.value.value);
        }
      }
    }
  }

  lemma {:induction false} ChainSplit(file: seq<byte>, foff: nat, end: nat, raw: seq<RawBlock>)
    requires IsChain(file, foff, end, raw)
    ensures raw != [] && ValidRaw(raw[0]) && foff + 5 + |raw[0].content| <= end
    ensures HasAt(file, foff, RawBytes(raw[0], |raw| == 1)) && foff + 5 + |raw[0].content| <= |file|
    ensures |raw| > 1 ==> IsChain(file, foff + 5 + |raw[0].content|, end, raw[1..])
    ensures ChainContent(raw) == raw[0].content + if |raw| > 1 then ChainContent(raw[1..]) else []
  {
    hide RawBytes;
    if |raw| > 1 {
      HasAtConcat(file, foff, RawBytes(raw[0], false), ChainBytes(raw[1..]));
    } else {
      assert raw[1..] == [];
    }
  }

  /**
   `index_stored_blocks` against section 3.2.4 of RFC 1951. For entry data wholly inside the file it
   returns an index exactly when the data is a stored chain, up to its first final block, of the
   declared size; the blocks then tile the output, lie apart inside the data, and hold the decoded bytes.
   */
  lemma {:induction false} IndexRefinesChain(file: seq<byte>, start: nat, end: uint64, size: nat)
    requires start <= end <= |file|
    ensures
      var r := IndexOf(file, start, end, size);
      && ((r.Ok? && r.value.Some?) <==> exists raw :: IsChain(file, start, end, raw) && |ChainContent(raw)| == size)
      && (r.Ok? && r.value.Some? ==>
           var bs := r.value.value;
           && Tiles(bs, 0, size) && Apart(bs, start + 5, end) && InFile(file, bs)
           && forall raw :: IsChain(file, start, end, raw) ==> Content(file, bs) == ChainContent(raw))
  {
    hide Le, FromLe, U16At, RawBytes, HasAt, StepAt, ChainBytes, ChainContent, RawOf, IsChain;
    forall raw | IsChain(file, start, end, raw)
      ensures
        var w := Walk(file, start, 0, end);
        w.Ok? && w.value.Some? && InFile(file, w.value.value)
        && Content(file, w.value.value) == ChainContent(raw) && Total(w.value.value) == |ChainContent(raw)|
    {
      WalkComplete(file, start, 0, end, raw);
    }
    var w := Walk(file, start, 0, end);
    if w.Ok? && w.value.Some? {
      WalkSound(file, start, 0, end);
      assert IsChain(file, start, end, RawOf(file, w.value.value));
    }
  }

  // ----- why there is no index ------------------------------------------------------------------

  /** Any number of stored blocks, none of them final. */
  function RunBytes(bs: seq<RawBlock>): seq<byte>
    requires forall i :: 0 <= i < |bs| ==> ValidRaw(bs[i])
  {
    if bs == [] then [] else RawBytes(bs[0], false) + RunBytes(bs[1..])
  }

  /** The data starts with the blocks `bs`, and goes on at `at`. */
  predicate IsRun(file: seq<byte>, start: nat, end: nat, bs: seq<RawBlock>, at: nat) {
    && (forall i :: 0 <= i < |bs| ==> ValidRaw(bs[i]))
    && at == start + |RunBytes(bs)| <= end && HasAt(file, start, RunBytes(bs))
  }

  /** The data ends within a header, or the block is not a stored one: BTYPE is not 00. */
  predicate NoStoredBlock(file: seq<byte>, at: nat, end: nat)
    requires at <= end <= |file|
  {
    end - at < 5 || (file[at] / 2) % 4 != 0
  }

  /** A stored block whose LEN and NLEN are not complements. */
  predicate LengthsDisagree(file: seq<byte>, at: nat, end: nat)
    requires at <= end <= |file|
  {
    !NoStoredBlock(file, at, end) && FromLe(file[at + 1..at + 3]) + FromLe(file[at + 3..at + 5]) != 0xFFFF
  }

  /** A stored block that ends behind the data. */
  predicate BlockOverruns(file: seq<byte>, at: nat, end: nat)
    requires at <= end <= |file|
  {
    && !NoStoredBlock(file, at, end) && !LengthsDisagree(file, at, end)
    && at + 5 + FromLe(file[at + 1..at + 3]) > end
  }

  /** The pass over the header at `at`, in the terms of the format. */
  lemma {:induction false} StepDecides(file: seq<byte>, at: nat, end: nat)
    requires at <= end <= |file|
    ensures StepAt(file, at, end).Compressed? <==> NoStoredBlock(file, at, end)
    ensures StepAt(file, at, end) == Fail(Malformed(LengthCheck(at))) <==> LengthsDisagree(file, at, end)
    ensures StepAt(file, at, end) == Fail(Malformed(Overrun(at + 5))) <==> BlockOverruns(file, at, end)
    ensures StepAt(file, at, end).Fail? ==> LengthsDisagree(file, at, end) || BlockOverruns(file, at, end)
  {
    hide FromLe;
  }

  /** The non-final blocks the walk passes, and where it then stands. */
  ghost function Passed(file: seq<byte>, foff: nat, end: nat): (r: (seq<RawBlock>, nat))
    requires foff <= end <= |file|
    decreases end - foff
  {
    var s := StepAt(file, foff, end);
    if s.Block? && !s.final then
      var rest := Passed(file, foff + 5 + s.len, end);
      ([RawBlock(Ignored(file[foff]), file[foff + 5..foff + 5 + s.len])] + rest.0, rest.1)
    else ([], foff)
  }

  lemma {:induction false} RunCons(file: seq<byte>, start: nat, end: nat, b: RawBlock, bs: seq<RawBlock>, at: nat)
    requires ValidRaw(b) && HasAt(file, start, RawBytes(b, false)) && IsRun(file, start + 5 + |b.content|, end, bs, at)
    ensures IsRun(file, start, end, [b] + bs, at)
  {
    hide RawBytes;
    assert ([b] + bs)[1..] == bs;
    HasAtConcat(file, start, RawBytes(b, false), RunBytes(bs));
  }

  /** The walk without an index has passed non-final blocks, and stopped at something else. */
  lemma {:induction false} WalkStops(file: seq<byte>, foff: nat, uoff: nat, end: uint64)
    requires foff <= end <= |file| && uoff <= foff
    ensures
      var (bs, at) := Passed(file, foff, end);
      IsRun(file, foff, end, bs, at) && StepAt(file, at, end) != Block(0, false)
    ensures
      var w, s := Walk(file, foff, uoff, end), StepAt(file, Passed(file, foff, end).1, end);
      (w == Ok(None) <==> s.Compressed?) && (forall e :: w == Err(e) <==> s == Fail(e))
    decreases end - foff
  {
    hide StepAt, RawBytes, HasAt, Ignored;
    var s := StepAt(file, foff, end);
    if s.Block? && !s.final {
      StepSound(file, foff, end);
      var next := foff + 5 + s.len;
      WalkStops(file, next, uoff + s.len, end);
      var (bs, at) := Passed(file, next, end);
      RunCons(file, foff, end, RawBlock(Ignored(file[foff]), file[foff + 5..next]), bs, at);
    } else {
      EmptyRun(file, foff, end);
    }
  }

  lemma {:induction false} EmptyRun(file: seq<byte>, at: nat, end: nat)
    requires at <= end && at <= |file|
    ensures IsRun(file, at, end, [], at)
  {
  }

  /** Behind non-final blocks the walk goes on as from there. */
  lemma {:induction false} RunWalked(file: seq<byte>, foff: nat, uoff: nat, end: uint64, bs: seq<RawBlock>, at: nat)
    requires foff <= end <= |file| && uoff <= foff && IsRun(file, foff, end, bs, at)
    ensures uoff + |RunBytes(bs)| <= at
    ensures var w, s := Walk(file, foff, uoff, end), StepAt(file, at, end);
      (s.Compressed? ==> w == Ok(None)) && (s.Fail? ==> w == Err(s.error))
    decreases |bs|
  {
    hide StepAt, RawBytes, HasAt, ValidRaw;
    if bs != [] {
      var b := bs[0];
      HasAtConcat(file, foff, RawBytes(b, false), RunBytes(bs[1..]));
      StepComplete(file, foff, end, b, false);
      RunWalked(file, foff + 5 + |b.content|, uoff + |b.content|, end, bs[1..], at);
    }
  }

  /** Non-final stored blocks, and then one that is not stored or the end of the data. */
  ghost predicate NotAllStored(file: seq<byte>, start: nat, end: nat)
    requires end <= |file|
  {
    exists bs, at: nat :: IsRun(file, start, end, bs, at) && NoStoredBlock(file, at, end)
  }

  /** Non-final stored blocks, and then one at `at` with a wrong NLEN. */
  ghost predicate BadLengthAt(file: seq<byte>, start: nat, end: nat, at: nat)
    requires end <= |file|
  {
    exists bs :: IsRun(file, start, end, bs, at) && LengthsDisagree(file, at, end)
  }

  /** Non-final stored blocks, and then one at `at` that ends behind the data. */
  ghost predicate OverrunAt(file: seq<byte>, start: nat, end: nat, at: nat)
    requires end <= |file|
  {
    exists bs :: IsRun(file, start, end, bs, at) && BlockOverruns(file, at, end)
  }

  /** A chain of stored blocks that decodes to `n` bytes. */
  ghost predicate DecodesToLength(file: seq<byte>, start: nat, end: nat, n: nat) {
    exists raw :: IsChain(file, start, end, raw) && |ChainContent(raw)| == n
  }

  /**
   What becomes of data inside the file, in the terms of the format alone. No index, so that the codec is
   used, exactly when stored blocks are followed by a block that is not stored, or by too few bytes for
   a header; and a refusal exactly for a wrong NLEN, an overrun, or a total other than the declared size.
   */
  lemma {:induction false} IndexDecides(file: seq<byte>, start: nat, end: uint64, size: uint64)
    requires start <= end <= |file|
    ensures IndexOf(file, start, end, size) == Ok(None) <==> NotAllStored(file, start, end)
    ensures forall at: nat :: IndexOf(file, start, end, size) == Err(Malformed(LengthCheck(at)))
                              <==> BadLengthAt(file, start, end, at)
    ensures forall at: nat :: IndexOf(file, start, end, size) == Err(Malformed(Overrun(at + 5)))
                              <==> OverrunAt(file, start, end, at)
    ensures forall n: nat :: IndexOf(file, start, end, size) == Err(Malformed(SizeMismatch(n)))
                             <==> n != size && DecodesToLength(file, start, end, n)
    ensures IndexOf(file, start, end, size).Err? ==>
      || (exists at: nat :: BadLengthAt(file, start, end, at)) || (exists at: nat :: OverrunAt(file, start, end, at))
      || exists n: nat :: n != size && DecodesToLength(file, start, end, n)
  {
    hide StepAt, IsRun, IsChain, Walk, NoStoredBlock, LengthsDisagree, BlockOverruns, Total, ChainContent, NotAllStored,
      BadLengthAt, OverrunAt;
    StopsDecide(file, start, end);
    LengthDecides(file, start, end, size);
  }

  /** Where the walk stops without an index, and why. */
  lemma {:induction false} StopsDecide(file: seq<byte>, start: nat, end: uint64)
    requires start <= end <= |file|
    ensures
      var w := Walk(file, start, 0, end);
      && (w == Ok(None) <==> NotAllStored(file, start, end))
      && (forall at: nat :: w == Err(Malformed(LengthCheck(at))) <==> BadLengthAt(file, start, end, at))
      && (forall at: nat :: w == Err(Malformed(Overrun(at + 5))) <==> OverrunAt(file, start, end, at))
      && (w.Err? ==>
            && w.error.Malformed? && !w.error.defect.SizeMismatch?
            && ((exists at: nat :: BadLengthAt(file, start, end, at))
                || exists at: nat :: OverrunAt(file, start, end, at)))
  {
    hide StepAt, IsRun, Walk, NoStoredBlock, LengthsDisagree, BlockOverruns;
    WalkStops(file, start, 0, end);
    var (passed, stop) := Passed(file, start, end);
    RunInside(file, start, end, passed, stop);
    StepDecides(file, stop, end);
    assert LengthsDisagree(file, stop, end) ==> BadLengthAt(file, start, end, stop);
    assert BlockOverruns(file, stop, end) ==> OverrunAt(file, start, end, stop);
    forall bs, at: nat | IsRun(file, start, end, bs, at)
      ensures at <= end
      ensures var w := Walk(file, start, 0, end);
        && (NoStoredBlock(file, at, end) ==> w == Ok(None))
        && (LengthsDisagree(file, at, end) ==> w == Err(Malformed(LengthCheck(at))))
        && (BlockOverruns(file, at, end) ==> w == Err(Malformed(Overrun(at + 5))))
    {
      RunInside(file, start, end, bs, at);
      StepDecides(file, at, end);
      RunWalked(file, start, 0, end, bs, at);
    }
  }

  lemma {:induction false} RunInside(file: seq<byte>, start: nat, end: nat, bs: seq<RawBlock>, at: nat)
    requires IsRun(file, start, end, bs, at)
    ensures start <= at <= end
  {
  }

  /** A complete chain is refused exactly for its length. */
  lemma {:induction false} LengthDecides(file: seq<byte>, start: nat, end: uint64, size: nat)
    requires start <= end <= |file|
    ensures forall n: nat :: IndexOf(file, start, end, size) == Err(Malformed(SizeMismatch(n)))
                             <==> n != size && DecodesToLength(file, start, end, n)
  {
    hide Walk, IsChain, Total, ChainContent, IsRun, NoStoredBlock, LengthsDisagree, BlockOverruns;
    StopsDecide(file, start, end);
    forall n: nat
      ensures IndexOf(file, start, end, size) == Err(Malformed(SizeMismatch(n)))
              <==> n != size && DecodesToLength(file, start, end, n)
    {
      IndexRefinesChain(file, start, end, n);
    }
  }

  // ----- positioned reads ---------------------------------------------------------------------

  /** Where in the file the output byte `p` is stored. */
  function FileOffsetOf(bs: seq<StoredBlock>, p: nat): (at: nat)
    requires bs != [] && bs[0].uncompStart <= p < Total(bs) && Tiles(bs, bs[0].uncompStart, Total(bs))
    decreases |bs|
  {
    if p < bs[0].End() then bs[0].fileOffset + (p - bs[0].uncompStart)
    else
      TilesTail(bs);
      FileOffsetOf(bs[1..], p)
  }

  lemma {:induction false} TilesTail(bs: seq<StoredBlock>)
    requires bs != [] && Tiles(bs, bs[0].uncompStart, Total(bs))
    ensures |bs| > 1 ==> Tiles(bs[1..], bs[1].uncompStart, Total(bs[1..])) && bs[1].uncompStart == bs[0].End()
    ensures |bs| > 1 ==> Total(bs[1..]) == Total(bs)
  {
    forall i | 0 < i < |bs|
      ensures bs[i].uncompStart == bs[i - 1].End()
    {
    }
  }

  /** Output ranges end in order, so a prefix of the blocks is over by any given offset. */
  lemma {:induction false} EndsInOrder(bs: seq<StoredBlock>, i: nat, j: nat)
    requires bs != [] && Tiles(bs, bs[0].uncompStart, Total(bs)) && i <= j < |bs|
    ensures bs[0].uncompStart <= bs[i].uncompStart <= bs[i].End() <= bs[j].End()
    decreases i + j
  {
    if i < j {
      EndsInOrder(bs, i, j - 1);
      assert bs[j].uncompStart == bs[j - 1].End();
    } else if i > 0 {
      EndsInOrder(bs, i - 1, i - 1);
      assert bs[i].uncompStart == bs[i - 1].End();
    }
  }

  /** Byte `p` of the output is the file's byte at its offset. */
  lemma {:induction false} ContentByte(file: seq<byte>, bs: seq<StoredBlock>, p: nat)
    requires bs != [] && Tiles(bs, bs[0].uncompStart, Total(bs)) && InFile(file, bs)
    requires bs[0].uncompStart <= p < Total(bs)
    ensures |Content(file, bs)| == Total(bs) - bs[0].uncompStart
    ensures FileOffsetOf(bs, p) < |file| && Content(file, bs)[p - bs[0].uncompStart] == file[FileOffsetOf(bs, p)]
    decreases |bs|
  {
    hide Content, Tiles, InFile, Total, FileOffsetOf;
    TilesTail(bs);
    ContentLength(file, bs);
    ContentSplit(file, bs);
    OffsetStep(bs, p);
    var b := bs[0];
    if p < b.End() {
      HeadByte(file, b.fileOffset, b.len, Content(file, bs[1..]), p - b.uncompStart);
    } else {
      BlocksBehind(bs, p);
      ContentByte(file, bs[1..], p);
      TailByte(file[b.fileOffset..b.fileOffset + b.len], Content(file, bs[1..]), p - b.End());
    }
  }

  lemma {:induction false} OffsetStep(bs: seq<StoredBlock>, p: nat)
    requires bs != [] && bs[0].uncompStart <= p < Total(bs) && Tiles(bs, bs[0].uncompStart, Total(bs))
    ensures p < bs[0].End() ==> FileOffsetOf(bs, p) == bs[0].fileOffset + (p - bs[0].uncompStart)
    ensures p >= bs[0].End() ==>
      && |bs| > 1 && bs[1].uncompStart <= p < Total(bs[1..]) && Tiles(bs[1..], bs[1].uncompStart, Total(bs[1..]))
      && FileOffsetOf(bs, p) == FileOffsetOf(bs[1..], p)
  {
    TilesTail(bs);
  }

  lemma {:induction false} HeadByte(file: seq<byte>, at: nat, n: nat, rest: seq<byte>, k: nat)
    requires k < n && at + n <= |file|
    ensures (file[at..at + n] + rest)[k] == file[at + k]
  {
  }

  lemma {:induction false} TailByte(first: seq<byte>, rest: seq<byte>, k: nat)
    requires k < |rest|
    ensures (first + rest)[|first| + k] == rest[k]
  {
  }

  /** The bytes of the first block, and those of the others. */
  lemma {:induction false} ContentSplit(file: seq<byte>, bs: seq<StoredBlock>)
    requires bs != [] && InFile(file, bs)
    ensures bs[0].fileOffset + bs[0].len <= |file| && InFile(file, bs[1..])
    ensures
      Content(file, bs) == file[bs[0].fileOffset..bs[0].fileOffset + bs[0].len] + Content(file, bs[1..])
  {
  }

  /** A position behind the first block is in another. */
  lemma {:induction false} BlocksBehind(bs: seq<StoredBlock>, p: nat)
    requires bs != [] && Tiles(bs, bs[0].uncompStart, Total(bs)) && bs[0].End() <= p < Total(bs)
    ensures |bs| > 1
  {
  }

  lemma {:induction false} ContentLength(file: seq<byte>, bs: seq<StoredBlock>)
    requires bs != [] && Tiles(bs, bs[0].uncompStart, Total(bs)) && InFile(file, bs)
    ensures |Content(file, bs)| == Total(bs) - bs[0].uncompStart
    decreases |bs|
  {
    TilesTail(bs);
    if |bs| > 1 {
      ContentLength(file, bs[1..]);
    } else {
      assert Content(file, bs[1..]) == [];
    }
  }

  /** The blocks are an index of an entry of `size` bytes (a lone empty block indexes an empty entry). */
  predicate Indexes(bs: seq<StoredBlock>, size: nat) {
    bs != [] && Tiles(bs, 0, size)
  }

  /** How many bytes a read at `offset` into `room` bytes is due. */
  function Due(size: nat, offset: nat, room: nat): (n: nat)
    ensures n <= room && (offset <= size ==> offset + n <= size)
  {
    if offset >= size then 0 else if offset + room <= size then room else size - offset
  }

  /** Where a read from `offset` on enters a block it crosses. */
  function RunStart(b: StoredBlock, offset: nat): nat {
    if offset > b.uncompStart then offset else b.uncompStart
  }

  /**
   Where a read from `offset` on looks for the output byte `p`: the program adds the position in the
   block to the block's file offset in 64 bits, once for each block.
   */
  function PlaceOf(bs: seq<StoredBlock>, offset: nat, p: nat): (at: nat)
    requires bs != [] && bs[0].uncompStart <= p < Total(bs) && Tiles(bs, bs[0].uncompStart, Total(bs)) && offset <= p
    decreases |bs|
  {
    if p < bs[0].End() then
      var run := RunStart(bs[0], offset);
      WrappingAdd(bs[0].fileOffset, run - bs[0].uncompStart) + (p - run)
    else
      TilesTail(bs);
      PlaceOf(bs[1..], offset, p)
  }

  /** Inside a block the places follow one another from where the read enters it. */
  lemma {:induction false} PlaceInBlock(bs: seq<StoredBlock>, b: nat, offset: nat, p: nat)
    requires bs != [] && Tiles(bs, bs[0].uncompStart, Total(bs)) && offset <= p
    requires b < |bs| && bs[b].uncompStart <= p < bs[b].End()
    ensures bs[0].uncompStart <= p < Total(bs)
    ensures
      var run := RunStart(bs[b], offset);
      PlaceOf(bs, offset, p) == WrappingAdd(bs[b].fileOffset, run - bs[b].uncompStart) + (p - run)
    decreases b
  {
    EndsInOrder(bs, b, |bs| - 1);
    EndsInOrder(bs, 0, b);
    if b > 0 {
      TilesTail(bs);
      EndsInOrder(bs, 0, b - 1);
      PlaceInBlock(bs[1..], b - 1, offset, p);
    }
  }

  /** For blocks inside the file it is where the byte is stored. */
  lemma {:induction false} PlaceIsStored(file: seq<byte>, bs: seq<StoredBlock>, offset: nat, p: nat)
    requires bs != [] && Tiles(bs, bs[0].uncompStart, Total(bs)) && InFile(file, bs) && |file| < 0x1_0000_0000_0000_0000
    requires bs[0].uncompStart <= p < Total(bs) && offset <= p
    ensures PlaceOf(bs, offset, p) == FileOffsetOf(bs, p)
    decreases |bs|
  {
    TilesTail(bs);
    if p >= bs[0].End() {
      PlaceIsStored(file, bs[1..], offset, p);
    }
  }

  /** Every byte due is looked for inside the file. */
  predicate Readable(file: seq<byte>, bs: seq<StoredBlock>, size: nat, offset: nat, n: nat)
    requires Indexes(bs, size) && offset + n <= size
  {
    forall p :: offset <= p < offset + n ==> PlaceOf(bs, offset, p) < |file|
  }

  /** What the stored-block arm fetches: where the end of the range wraps at 64 bits, nothing. */
  function Fetched(size: nat, offset: nat, room: nat): (n: nat)
    ensures n <= Due(size, offset, room)
  {
    if offset + room < 0x1_0000_0000_0000_0000 then Due(size, offset, room) else 0
  }

  /** The first block whose output ends behind `cur`; an index always has one. */
  method BlockAt(bs: seq<StoredBlock>, size: nat, cur: nat) returns (b: StoredBlock)
    requires Indexes(bs, size) && cur < size
    ensures b in bs && b.uncompStart <= cur < b.End() <= size
    ensures forall x :: x in bs && x.End() <= cur ==> x.End() <= b.uncompStart
  {
    forall i, j | 0 <= i <= j < |bs|
      ensures bs[i].End() <= bs[j].End()
    {
      EndsInOrder(bs, i, j);
    }
    var bi := PartitionPoint(bs, (b: StoredBlock) => b.End() <= cur);
    b := bs[bi];
    if bi > 0 {
      assert b.uncompStart == bs[bi - 1].End();
    }
  }

  /** A read from `offset` stands at its start or at the end of a block. */
  ghost predicate Reached(bs: seq<StoredBlock>, offset: nat, cur: nat) {
    cur == offset || exists x :: x in bs && x.End() == cur
  }

  lemma {:induction false} ReachedAtStart(bs: seq<StoredBlock>, offset: nat)
    ensures Reached(bs, offset, offset)
  {
  }

  lemma {:induction false} ReachedBehind(bs: seq<StoredBlock>, b: StoredBlock, offset: nat, cur: nat)
    requires b in bs
    ensures cur == b.End() ==> Reached(bs, offset, cur)
  {
  }

  lemma {:induction false} RunsFrom(bs: seq<StoredBlock>, b: StoredBlock, offset: nat, cur: nat)
    requires Reached(bs, offset, cur) && offset <= cur && b.uncompStart <= cur
    requires forall x :: x in bs && x.End() <= cur ==> x.End() <= b.uncompStart
    ensures cur == RunStart(b, offset)
  {
  }

  /** A run that starts where the read enters a block is contiguous in the file. */
  lemma {:induction false} RunInBlock(bs: seq<StoredBlock>, size: nat, b: StoredBlock, offset: nat, cur: nat, n: nat)
    requires Indexes(bs, size) && b in bs && cur == RunStart(b, offset) && cur + n <= b.End() <= size
    ensures
      forall p :: cur <= p < cur + n ==>
        PlaceOf(bs, offset, p) == WrappingAdd(b.fileOffset, cur - b.uncompStart) + (p - cur)
  {
    hide PlaceOf;
    var bi :| 0 <= bi < |bs| && bs[bi] == b;
    forall p | cur <= p < cur + n
      ensures PlaceOf(bs, offset, p) == WrappingAdd(b.fileOffset, cur - b.uncompStart) + (p - cur)
    {
      PlaceInBlock(bs, bi, offset, p);
    }
  }

  /**
   The stored-block arm of `read_at`: it fills the buffer with exactly the bytes due, each from its
   place in the file, whichever blocks the range crosses and however many of them are empty; it
   fails exactly when one of those places is past the end of the file.
   */
  method ReadAt(file: seq<byte>, bs: seq<StoredBlock>, size: uint64, offset: uint64, buf: array<byte>)
    returns (r: Result<nat>)
    requires Indexes(bs, size) && buf.Length < 0x8000_0000_0000_0000
    modifies buf
    ensures offset <= size ==> (r.Ok? <==> Readable(file, bs, size, offset, Fetched(size, offset, buf.Length)))
    ensures offset > size ==> r.Ok?
    ensures r.Ok? ==> r.value == Fetched(size, offset, buf.Length)
    ensures r.Ok? ==>
      forall k :: 0 <= k < r.value ==>
        PlaceOf(bs, offset, offset + k) < |file| && buf[k] == file[PlaceOf(bs, offset, offset + k)]
    ensures forall k :: Fetched(size, offset, buf.Length) <= k < buf.Length ==> buf[k] == old(buf[k])
  {
    hide PlaceOf, RunStart, Reached;
    if offset >= size || buf.Length == 0 {
      return Ok(0);
    }
    var sum := WrappingAdd(offset, buf.Length);
    var wantEnd := if sum < size then sum else size;
    var filled := 0;
    var cur := offset;
    ReachedAtStart(bs, offset);
    while cur < wantEnd
      invariant offset <= cur && filled == cur - offset && (cur <= wantEnd || (filled == 0 && wantEnd < offset))
      invariant cur < wantEnd ==> Reached(bs, offset, cur)
      invariant Readable(file, bs, size, offset, filled)
      invariant forall k :: 0 <= k < filled ==> buf[k] == file[PlaceOf(bs, offset, offset + k)]
      invariant forall k :: Fetched(size, offset, buf.Length) <= k < buf.Length ==> buf[k] == old(buf[k])
      decreases wantEnd - cur
    {
      var b := BlockAt(bs, size, cur);
      var within := cur - b.uncompStart;
      var avail := b.len - within;
      var n := if avail < wantEnd - cur then avail else wantEnd - cur;
      RunsFrom(bs, b, offset, cur);
      RunInBlock(bs, size, b, offset, cur, n);
      var bytes := ReadAtExact(file, WrappingAdd(b.fileOffset, within), n);
      if bytes.Err? {
        assert PlaceOf(bs, offset, cur + n - 1) >= |file|;
        return Err(Io);
      }
      forall k | 0 <= k < n {
        buf[filled + k] := bytes.value[k];
      }
      filled := filled + n;
      cur := cur + n;
      ReachedBehind(bs, b, offset, cur);
    }
    r := Ok(filled);
  }

  lemma {:induction false} InsideReadable(file: seq<byte>, bs: seq<StoredBlock>, size: nat, offset: nat, n: nat)
    requires Indexes(bs, size) && InFile(file, bs) && |file| < 0x1_0000_0000_0000_0000 && offset + n <= size
    ensures Readable(file, bs, size, offset, n)
  {
    hide FileOffsetOf, PlaceOf, Content, InFile;
    forall p | offset <= p < offset + n
      ensures PlaceOf(bs, offset, p) < |file|
    {
      ContentByte(file, bs, p);
      PlaceIsStored(file, bs, offset, p);
    }
  }

  /** With the blocks inside the file, what `ReadAt` delivers is a slice of the content. */
  lemma {:induction false} ReadIsSlice(file: seq<byte>, bs: seq<StoredBlock>, size: nat, offset: nat, out: seq<byte>)
    requires Indexes(bs, size) && InFile(file, bs) && |file| < 0x1_0000_0000_0000_0000 && offset + |out| <= size
    requires
      forall k :: 0 <= k < |out| ==>
        PlaceOf(bs, offset, offset + k) < |file| && out[k] == file[PlaceOf(bs, offset, offset + k)]
    ensures |Content(file, bs)| == size && out == Content(file, bs)[offset..offset + |out|]
    ensures Readable(file, bs, size, offset, |out|)
  {
    hide FileOffsetOf, PlaceOf, Content, InFile, Readable;
    ContentLength(file, bs);
    InsideReadable(file, bs, size, offset, |out|);
    forall k | 0 <= k < |out|
      ensures out[k] == Content(file, bs)[offset + k]
    {
      ContentByte(file, bs, offset + k);
      PlaceIsStored(file, bs, offset, offset + k);
    }
    assert out == Content(file, bs)[offset..offset + |out|];
  }
}
