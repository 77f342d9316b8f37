/**
 Random access to one entry (core/src/lib.rs): the layout `open_entry` chooses, and what `read_at`
 answers through each layout, against decoding the whole entry and slicing.
 */
module Layouts {
  import opened Wrappers
  import opened Bytes
  import opened StoredBlocks
  import D64 = Deflate64Seek

  datatype Compression = Stored | Deflated | Deflate64 | Other

  /** What the archive says of the entry. */
  datatype Described = Described(compression: Compression, dataStart: uint64, compressedSize: uint64, size: uint64)

  datatype Layout = Blocks(blocks: seq<StoredBlock>) | Checkpointed(index: D64.Index) | Fallback

  datatype Opened = Opened(size: uint64, layout: Layout)

  /** The compressed data lies inside the file. */
  predicate InRange(d: Described, file: seq<byte>) {
    d.dataStart + d.compressedSize <= |file| < 0x8000_0000_0000_0000
  }

  /** The compressed data, as far as the file holds it. */
  function DataIn(d: Described, file: seq<byte>): (r: seq<byte>)
    ensures InRange(d, file) ==> r == file[d.dataStart..d.dataStart + d.compressedSize]
  {
    D64.Held(file, d.dataStart, d.dataStart + d.compressedSize)
  }

  /** The block index; there is none where the end of the data wraps at 64 bits. */
  function Indexed(d: Described, file: seq<byte>): Result<Option<seq<StoredBlock>>> {
    if d.dataStart + d.compressedSize >= 0x1_0000_0000_0000_0000 then Ok(None)
    else IndexOf(file, d.dataStart, d.dataStart + d.compressedSize, d.size)
  }

  /** The layout that goes with an entry. */
  ghost predicate Chosen<S(!new)>(o: Opened, d: Described, file: seq<byte>, m: D64.Machine<S>, st: D64.Stream<S>) {
    && o.size == d.size
    && match d.compression {
         case Stored => o.layout == Blocks([StoredBlock(0, d.size, d.dataStart)])
         case Other => o.layout == Fallback
         case Deflated =>
           Indexed(d, file).Ok? && o.layout == if Indexed(d, file).value.Some?
             then Blocks(Indexed(d, file).value.value) else Fallback
         case Deflate64 =>
           && Indexed(d, file).Ok?
           && if Indexed(d, file).value.Some? then o.layout == Blocks(Indexed(d, file).value.value)
              else
                && o.layout.Checkpointed? && D64.IndexFor(o.layout.index, m, st, d.dataStart)
                && o.layout.index.size == d.size && o.layout.index.dataEnd == d.dataStart + d.compressedSize
       }
  }

  /** Deflated data inside the file that is not stored blocks only. */
  ghost predicate GoesToCodec(d: Described, file: seq<byte>) {
    && InRange(d, file) && (d.compression.Deflated? || d.compression.Deflate64?)
    && NotAllStored(file, d.dataStart, d.dataStart + d.compressedSize)
  }

  lemma {:induction false} CodecIsUsed(d: Described, file: seq<byte>)
    ensures GoesToCodec(d, file) ==> Indexed(d, file) == Ok(None)
  {
    hide NotAllStored, IndexOf;
    if GoesToCodec(d, file) {
      IndexDecides(file, d.dataStart, d.dataStart + d.compressedSize, d.size);
    }
  }

  /** At most 4 GiB that decode to the declared size, with checkpoints of at most 1 MiB. */
  ghost predicate Indexable<S(!new)>(d: Described, m: D64.Machine<S>, st: D64.Stream<S>) {
    st.fate.Complete? && |st.output| == d.size <= 0x1_0000_0000 && D64.SmallBlobs(m, st, 0x10_0000)
  }

  /** An index of at most 4 GiB of output and 512 MiB of checkpoints, the next one never 8 MiB and a chunk away. */
  ghost predicate WithinCaps<S(!new)>(ix: D64.Index, m: D64.Machine<S>, st: D64.Stream<S>) {
    && ix.size <= 0x1_0000_0000 && D64.BlobBytes(ix.checkpoints) <= 0x2000_0000
    && (D64.Prompt(m, st) ==> D64.Dense(ix.checkpoints, ix.size, 0x80_0000 + 0x2_0000))
  }

  /** No default cap refuses an entry that can be indexed. */
  lemma {:induction false} NotRefused<S(!new)>(d: Described, file: seq<byte>, m: D64.Machine<S>, st: D64.Stream<S>,
                                               why: Defect)
    requires InRange(d, file) && Indexable(d, m, st)
    ensures !D64.Refused(why, m, st, d.dataStart, true, d.size, D64.DEFAULT_CHECKPOINT_INTERVAL, D64.DEFAULT_CAPS)
  {
    hide D64.Outgrows, D64.SmallBlobs;
    assert |st.output| / D64.DEFAULT_CHECKPOINT_INTERVAL <= 0x200;
    D64.SmallDoNotOutgrow(m, st, d.dataStart, D64.DEFAULT_CHECKPOINT_INTERVAL, D64.DEFAULT_CAPS.maxIndexBytes,
      0x10_0000);
  }

  /** `open_entry`, once the entry has been found. */
  method OpenEntry<S(!new)>(m: D64.Machine<S>, ghost st: D64.Stream<S>, file: seq<byte>, d: Described,
                            ghost ledger: D64.Ledger)
    returns (r: Result<Opened>)
    requires |file| < 0x8000_0000_0000_0000 && d.dataStart + 5 < 0x1_0000_0000_0000_0000
    requires D64.Lawful(m, st) && st.input == DataIn(d, file)
    modifies ledger
    ensures r.Ok? ==> Chosen(r.value, d, file, m, st)
    ensures r.Err? ==> d.compression.Deflated? || d.compression.Deflate64?
    ensures r.Err? && Indexed(d, file).Err? ==> r == Err(Indexed(d, file).error)
    ensures r.Err? && Indexed(d, file).Ok? ==>
      && d.compression.Deflate64? && Indexed(d, file) == Ok(None) && r.error.Malformed?
      && D64.Refused(r.error.defect, m, st, d.dataStart, InRange(d, file), d.size,
           D64.DEFAULT_CHECKPOINT_INTERVAL, D64.DEFAULT_CAPS)
    ensures GoesToCodec(d, file) ==> if d.compression.Deflated? then r == Ok(Opened(d.size, Fallback))
      else (r.Ok? ==> r.value.layout.Checkpointed?) && (Indexable(d, m, st) ==> r.Ok?)
    ensures r.Ok? && r.value.layout.Checkpointed? ==> WithinCaps(r.value.layout.index, m, st)
  {
    hide D64.Lawful, IndexOf, D64.IndexFor, D64.Checkpoints, D64.Refused, NotAllStored, D64.Dense, D64.BlobBytes,
      D64.Prompt, D64.SmallBlobs;
    CodecIsUsed(d, file);
    match d.compression {
      case Stored =>
        r := Ok(Opened(d.size, Blocks([StoredBlock(0, d.size, d.dataStart)])));
      case Other =>
        r := Ok(Opened(d.size, Fallback));
      case Deflated =>
        var blocks :- IndexStoredBlocks(file, d.dataStart, d.compressedSize, d.size);
        r := Ok(Opened(d.size, if blocks.Some? then Blocks(blocks.value) else Fallback));
      case Deflate64 =>
        var blocks :- IndexStoredBlocks(file, d.dataStart, d.compressedSize, d.size);
        if blocks.Some? {
          return Ok(Opened(d.size, Blocks(blocks.value)));
        }
        var index :=
          D64.BuildIndex(m, st, file, d.dataStart, d.compressedSize, d.size, D64.DEFAULT_CHECKPOINT_INTERVAL,
            D64.DEFAULT_CAPS, ledger);
        if index.Err? {
          if InRange(d, file) && Indexable(d, m, st) {
            NotRefused(d, file, m, st, index.error.defect);
          }
          return Err(index.error);
        }
        r := Ok(Opened(d.size, Checkpointed(index.value)));
    }
  }

  // ----- positioned reads -----------------------------------------------------------------------

  /** The most bytes a buffer can be asked to hold. */
  const ISIZE_MAX: nat := 0x7FFF_FFFF_FFFF_FFFF

  /**
   How a read ends; the program panics when it slices a decoded
   entry past its end, or asks for too large a buffer.
   */
  datatype Outcome<T> = Done(value: T) | Failed(error: Error) | Panics

  predicate Serviceable(o: Opened) {
    o.layout.Blocks? ==> Indexes(o.layout.blocks, o.size)
  }

  /** The end of the range wraps at 64 bits. */
  predicate Wraps(offset: nat, room: nat) {
    offset + room >= 0x1_0000_0000_0000_0000
  }

  /**
   The answer to a read; `whole` is the entry decoded from its start, which only the fallback uses; that
   the entry can be opened for it is known from opening it before. Where the end of the range wraps, the
   blocks give nothing; the fallback panics on a size no buffer can have, before the range matters.
   */
  ghost function Answer<S(!new)>(o: Opened, file: seq<byte>, st: D64.Stream<S>, whole: Result<seq<byte>>,
                                 offset: nat, room: nat): Outcome<seq<byte>>
    requires Serviceable(o) && (o.layout.Checkpointed? ==> o.size == |st.output|)
  {
    var due := Due(o.size, offset, room);
    if due == 0 then Done([])
    else
      match o.layout
      case Blocks(bs) =>
        var n := Fetched(o.size, offset, room);
        if Readable(file, bs, o.size, offset, n) then Done(Gathered(file, bs, o.size, offset, n)) else Failed(Io)
      case Checkpointed(_) => Done(st.output[offset..offset + due])
      case Fallback =>
        if o.size > ISIZE_MAX then Panics
        else match whole {
          case Err(e) => Failed(e)
          case Ok(all) => if offset > |all| then Panics else Done(Window(all, offset, due))
        }
  }

  /** The bytes at their places in the file. */
  ghost function Gathered(file: seq<byte>, bs: seq<StoredBlock>, size: nat, offset: nat, n: nat): (r: seq<byte>)
    requires Indexes(bs, size) && offset + n <= size && Readable(file, bs, size, offset, n)
    ensures |r| == n && forall k :: 0 <= k < n ==> r[k] == file[PlaceOf(bs, offset, offset + k)]
  {
    seq(n, k requires 0 <= k < n => file[PlaceOf(bs, offset, offset + k)])
  }

  /** `read_at`: the answer, or a failure to inflate anew what runs past the end of the file. */
  method ReadAt<S(!new)>(o: Opened, ghost d: Described, file: seq<byte>, m: D64.Machine<S>, ghost st: D64.Stream<S>,
                         whole: Result<seq<byte>>, offset: uint64, buf: array<byte>, ghost ledger: D64.Ledger)
    returns (r: Outcome<nat>)
    requires |file| < 0x8000_0000_0000_0000 && D64.Lawful(m, st) && st.input == DataIn(d, file)
    requires Chosen(o, d, file, m, st) && buf.Length < 0x8000_0000_0000_0000
    modifies buf, ledger
    ensures Serviceable(o) && (o.layout.Checkpointed? ==> o.size == |st.output|)
    ensures
      !(r == Failed(Io) && o.layout.Checkpointed? && !InRange(d, file) && Due(o.size, offset, buf.Length) > 0) ==>
        match Answer(o, file, st, whole, offset, buf.Length)
        case Done(bytes) =>
          && r == Done(|bytes|) && buf[..|bytes|] == bytes
          && forall k :: |bytes| <= k < buf.Length ==> buf[k] == old(buf[k])
        case Failed(e) => r == Failed(e)
        case Panics => r == Panics
  {
    hide D64.Lawful, IndexOf, D64.Checkpoints, Readable, Tiles, PlaceOf;
    ChosenServes(o, d, file, m, st);
    if offset >= o.size || buf.Length == 0 {
      return Done(0);
    }
    match o.layout {
      case Blocks(bs) =>
        var n := StoredBlocks.ReadAt(file, bs, o.size, offset, buf);
        if n.Err? {
          return Failed(Io);
        }
        assert buf[..n.value] == Gathered(file, bs, o.size, offset, n.value);
        r := Done(n.value);
      case Checkpointed(index) =>
        var n := D64.ReadAt(index, m, st, file, d.dataStart, offset, buf, ledger);
        if n.Err? {
          return Failed(n.error);
        }
        r := Done(n.value);
      case Fallback =>
        if o.size as nat > ISIZE_MAX {
          return Panics;
        }
        if whole.Err? {
          return Failed(whole.error);
        }
        var sum := WrappingAdd(offset, buf.Length);
        var wantEnd := if sum < o.size then sum else o.size;
        r := ReadDecoded(whole.value, offset, wantEnd - offset, buf);
    }
  }

  /** The fallback's copy: `&all[start..end]` with `end` cut to the decoded length. */
  method ReadDecoded(all: seq<byte>, start: uint64, total: uint64, buf: array<byte>) returns (r: Outcome<nat>)
    requires 0 < total <= buf.Length
    modifies buf
    ensures Wraps(start, total) || start > |all| ==> r == Panics
    ensures !Wraps(start, total) && start <= |all| ==>
      && r == Done(|Window(all, start, total)|) && buf[..r.value] == Window(all, start, total)
      && forall k :: r.value <= k < buf.Length ==> buf[k] == old(buf[k])
  {
    var sum := WrappingAdd(start, total);
    var end := if sum < |all| then sum else |all|;
    if start > end {
      return Panics;
    }
    var slice := all[start..end];
    forall k | 0 <= k < |slice| {
      buf[k] := slice[k];
    }
    r := Done(|slice|);
  }

  /** Whatever layout is chosen can be read. */
  lemma {:induction false} ChosenServes<S(!new)>(o: Opened, d: Described, file: seq<byte>, m: D64.Machine<S>,
                                                 st: D64.Stream<S>)
    requires Chosen(o, d, file, m, st)
    ensures Serviceable(o) && (o.layout.Checkpointed? ==> o.size == |st.output|)
  {
    hide D64.Checkpoints, Tiles, Total, IndexOf;
    if o.layout.Blocks? {
      if d.compression.Stored? {
        OneTile(o.layout.blocks[0]);
      } else {
        IndexTiles(d, file);
      }
    }
  }

  lemma {:induction false} OneTile(b: StoredBlock)
    requires b.uncompStart == 0
    ensures Indexes([b], b.len)
  {
  }

  lemma {:induction false} IndexTiles(d: Described, file: seq<byte>)
    requires Indexed(d, file).Ok? && Indexed(d, file).value.Some?
    ensures Indexes(Indexed(d, file).value.value, d.size)
  {
    hide Walk, Tiles, Total;
    WalkTiles(file, d.dataStart, 0, d.dataStart + d.compressedSize);
  }

  /** Indexed blocks of data inside the file are inside it. */
  lemma {:induction false} ChosenInFile<S(!new)>(o: Opened, d: Described, file: seq<byte>, m: D64.Machine<S>,
                                                 st: D64.Stream<S>)
    requires InRange(d, file) && Chosen(o, d, file, m, st) && o.layout.Blocks? && !d.compression.Stored?
    ensures InFile(file, o.layout.blocks)
  {
    hide D64.Checkpoints, IndexOf;
    IndexRefinesChain(file, d.dataStart, d.dataStart + d.compressedSize, d.size);
  }

  // ----- what decoding the whole entry gives -----------------------------------------------------

  /**
   `whole` is what the entry's codec makes of its compressed data: a stored entry is that data, and a
   deflate codec decodes a chain of stored blocks as section 3.2.4 of RFC 1951 says.
   */
  ghost predicate DecodesTo<S(!new)>(d: Described, file: seq<byte>, st: D64.Stream<S>, whole: seq<byte>)
    requires InRange(d, file)
  {
    && |whole| < 0x8000_0000_0000_0000
    && (d.compression.Stored? ==> whole == file[d.dataStart..d.dataStart + d.compressedSize])
    && (d.compression.Deflated? || d.compression.Deflate64? ==>
          forall raw :: IsChain(file, d.dataStart, d.dataStart + d.compressedSize, raw) ==> whole == ChainContent(raw))
    && (d.compression.Deflate64? ==> whole == st.output)
  }

  /**
   What a caller can check: the sizes of a stored entry agree; the
   fallback decodes to its declared size, or one less.
   */
  predicate SizesAgree(o: Opened, d: Described, whole: seq<byte>) {
    match o.layout
    case Blocks(_) => d.compression.Stored? ==> d.compressedSize == d.size
    case Checkpointed(_) => true
    case Fallback => |whole| <= d.size <= |whole| + 1 && d.size <= ISIZE_MAX
  }

  /** Every positioned read whose range ends within 64 bits is a slice of the decoded entry. */
  ghost predicate AllSlices<S(!new)>(o: Opened, file: seq<byte>, st: D64.Stream<S>, whole: seq<byte>)
    requires Serviceable(o) && (o.layout.Checkpointed? ==> o.size == |st.output|)
  {
    forall offset: nat, room: nat :: !Wraps(offset, room) ==>
      Answer(o, file, st, Ok(whole), offset, room) == Done(Window(whole, offset, room))
  }

  /** Random access is "decode everything, then slice", exactly when the sizes agree. */
  lemma {:induction false} ReadsAreSlices<S(!new)>(o: Opened, d: Described, file: seq<byte>, m: D64.Machine<S>,
                                                   st: D64.Stream<S>, whole: seq<byte>)
    requires InRange(d, file) && Chosen(o, d, file, m, st) && DecodesTo(d, file, st, whole)
    ensures Serviceable(o) && (o.layout.Checkpointed? ==> o.size == |st.output|)
    ensures AllSlices(o, file, st, whole) <==> SizesAgree(o, d, whole)
  {
    hide Window, Answer, Indexed, IsChain, ChainContent, D64.IndexFor, Indexes;
    ChosenServes(o, d, file, m, st);
    match o.layout {
      case Blocks(bs) =>
        if d.compression.Stored? {
          StoredSlices(o, d, file, st, whole);
        } else {
          ChosenInFile(o, d, file, m, st);
          IndexedSlices(o, d, file, m, st, whole);
        }
      case Checkpointed(index) =>
        forall offset: nat, room: nat | !Wraps(offset, room)
          ensures Answer(o, file, st, Ok(whole), offset, room) == Done(Window(whole, offset, room))
        {
          CheckpointedSlice(o, file, st, whole, offset, room);
        }
      case Fallback =>
        FallbackSlices(o, d, file, st, whole);
    }
  }

  lemma {:induction false} CheckpointedSlice<S(!new)>(o: Opened, file: seq<byte>, st: D64.Stream<S>,
                                                      whole: seq<byte>, offset: nat, room: nat)
    requires o.layout.Checkpointed? && o.size == |st.output| && whole == st.output
    ensures Answer(o, file, st, Ok(whole), offset, room) == Done(Window(whole, offset, room))
  {
    if offset < |whole| {
      assert whole[offset..] == whole[offset..|whole|];
    }
  }

  lemma {:induction false} FallbackSlices<S(!new)>(o: Opened, d: Described, file: seq<byte>, st: D64.Stream<S>,
                                                   whole: seq<byte>)
    requires o.layout == Fallback && o.size == d.size && |whole| < 0x8000_0000_0000_0000
    ensures AllSlices(o, file, st, whole) <==> SizesAgree(o, d, whole)
  {
    if SizesAgree(o, d, whole) {
      forall offset: nat, room: nat | !Wraps(offset, room)
        ensures Answer(o, file, st, Ok(whole), offset, room) == Done(Window(whole, offset, room))
      {
      }
    } else if o.size > ISIZE_MAX {
      assert Answer(o, file, st, Ok(whole), 0, 1) == Panics;
    } else if |whole| > o.size {
      assert Answer(o, file, st, Ok(whole), o.size, 1) == Done([]);
      assert |Window(whole, o.size, 1)| == 1;
    } else {
      assert Answer(o, file, st, Ok(whole), |whole| + 1, 1) == Panics;
    }
  }

  /** A read through blocks inside the file is a slice of what they hold. */
  lemma {:induction false} BlocksSlice<S(!new)>(o: Opened, file: seq<byte>, st: D64.Stream<S>, whole: seq<byte>,
                                                offset: nat, room: nat)
    requires o.layout.Blocks? && Serviceable(o) && InFile(file, o.layout.blocks)
    requires Content(file, o.layout.blocks) == whole
    requires |whole| == o.size && |file| <= ISIZE_MAX && !Wraps(offset, room)
    ensures Answer(o, file, st, Ok(whole), offset, room) == Done(Window(whole, offset, room))
  {
    hide PlaceOf, Content, Tiles, InFile;
    var bs, due := o.layout.blocks, Due(o.size, offset, room);
    if due > 0 {
      InsideReadable(file, bs, o.size, offset, due);
      var got := Gathered(file, bs, o.size, offset, due);
      ReadIsSlice(file, bs, o.size, offset, got);
      assert whole[offset..] == whole[offset..|whole|];
    }
  }

  lemma {:induction false} IndexedSlices<S(!new)>(o: Opened, d: Described, file: seq<byte>, m: D64.Machine<S>,
                                                  st: D64.Stream<S>, whole: seq<byte>)
    requires InRange(d, file) && Chosen(o, d, file, m, st) && DecodesTo(d, file, st, whole)
    requires o.layout.Blocks? && !d.compression.Stored?
    requires Serviceable(o) && InFile(file, o.layout.blocks)
    ensures AllSlices(o, file, st, whole)
  {
    hide Answer, IsChain, ChainContent, IndexOf, Content, Window, InFile;
    IndexRefinesChain(file, d.dataStart, d.dataStart + d.compressedSize, d.size);
    var raw :| IsChain(file, d.dataStart, d.dataStart + d.compressedSize, raw) && |ChainContent(raw)| == d.size;
    assert whole == ChainContent(raw);
    forall offset: nat, room: nat | !Wraps(offset, room)
      ensures Answer(o, file, st, Ok(whole), offset, room) == Done(Window(whole, offset, room))
    {
      BlocksSlice(o, file, st, whole, offset, room);
    }
  }

  lemma {:induction false} StoredSlices<S(!new)>(o: Opened, d: Described, file: seq<byte>, st: D64.Stream<S>,
                                                 whole: seq<byte>)
    requires InRange(d, file) && o == Opened(d.size, Blocks([StoredBlock(0, d.size, d.dataStart)])) && Serviceable(o)
    requires whole == file[d.dataStart..d.dataStart + d.compressedSize]
    ensures AllSlices(o, file, st, whole) <==> d.compressedSize == d.size
  {
    var bs := o.layout.blocks;
    if d.compressedSize == d.size {
      assert Content(file, bs) == whole + Content(file, []);
      forall offset: nat, room: nat | !Wraps(offset, room)
        ensures Answer(o, file, st, Ok(whole), offset, room) == Done(Window(whole, offset, room))
      {
        BlocksSlice(o, file, st, whole, offset, room);
      }
    } else if d.size < d.compressedSize {
      assert Answer(o, file, st, Ok(whole), d.size, 1) == Done([]);
      assert |Window(whole, d.size, 1)| == 1;
    } else {
      var got := Answer(o, file, st, Ok(whole), d.compressedSize, 1);
      assert got.Done? ==> |got.value| == 1;
      assert Window(whole, d.compressedSize, 1) == [];
    }
  }
}
