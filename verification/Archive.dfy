/**
 The container parser of core/src/archive.rs: the End Of Central Directory record, its Zip64
 promotion, prefix detection, the central directory and the local headers. Each method is proved
 against the function of the file that it computes.
 */
module Archive {
  import opened Wrappers
  import opened Bytes
  import opened Streams

  const EOCD_SIG: uint32 := 0x0605_4b50
  const CD_HEADER_SIG: uint32 := 0x0201_4b50
  const LFH_SIG: uint32 := 0x0403_4b50
  const ZIP64_EOCD_SIG: uint32 := 0x0606_4b50
  const ZIP64_LOCATOR_SIG: uint32 := 0x0706_4b50
  const ARCHIVE_SIG_SIG: uint32 := 0x0505_4b50
  const ZIP64_EXTRA_ID: uint16 := 0x0001
  const AES_EXTRA_ID: uint16 := 0x9901
  const U32_SENTINEL: uint32 := 0xFFFF_FFFF
  const U16_SENTINEL: uint16 := 0xFFFF
  const EOCD_MIN: nat := 22
  const EOCD_SCAN_MAX: nat := EOCD_MIN + 0xFFFF
  const ZIP64_LOCATOR_LEN: nat := 20
  const LFH_FIXED: nat := 30
  const CD_FIXED: nat := 46
  const MAX_ENTRIES: nat := 16_000_000

  /** General-purpose flag bit 3: sizes and checksum follow the data. */
  const DESCRIPTOR_FLAG: nat := 0x0008

  /** A file is shorter than 2^63 bytes: its offsets are the operating system's signed 64-bit ones. */
  const MAX_FILE: nat := 0x8000_0000_0000_0000

  type File = s: seq<byte> | |s| < MAX_FILE

  datatype AesInfo = AesInfo(strength: byte, actualMethod: uint16, isAe2: bool)

  datatype CentralEntry = CentralEntry(
    name: seq<byte>,
    method_: uint16,
    flags: uint16,
    crc32: uint32,
    compressedSize: uint64,
    uncompressedSize: uint64,
    lfhOffset: uint64,
    lastModTime: uint16,
    aes: Option<AesInfo>,
    diskStart: uint16)

  datatype Summary = Summary(
    fileLen: nat,
    centralDirOffset: nat,
    centralDirSize: nat,
    eocdEndOffset: nat,
    commentLen: uint16,
    diskNumber: uint32,
    cdStartDisk: uint32,
    signatureLen: Option<uint16>)

  datatype Archive = Archive(entries: seq<CentralEntry>, summary: Summary)

  // ----- extra fields -------------------------------------------------------------------------

  /** The first record with a given id in an extra block: its data, or a record cut short on the way. */
  datatype Extra = Found(data: seq<byte>) | Missing | Cut

  function FindExtra(extra: seq<byte>, at: nat, id: uint16): Extra
    requires at <= |extra|
    decreases |extra| - at
  {
    if |extra| - at < 4 then
      Missing
    else
      var next := at + 4 + U16At(extra, at + 2);
      if next > |extra| then Cut
      else if U16At(extra, at) == id then Found(extra[at + 4..next])
      else FindExtra(extra, next, id)
  }

  /** The three fields a Zip64 extended-information record can override. */
  datatype Sizes = Sizes(uncompressed: uint64, compressed: uint64, offset: uint64)

  datatype Needs = Needs(uncompressed: bool, compressed: bool, offset: bool)

  function TakeField(z: seq<byte>, at: nat, need: bool, base: uint64): (r: Result<(uint64, nat)>)
    requires at <= |z|
    ensures r.Ok? ==> at <= r.value.1 <= |z|
  {
    if !need then Ok((base, at))
    else if at + 8 <= |z| then Ok((U64At(z, at), at + 8))
    else Err(Truncated)
  }

  function Zip64Fields(z: seq<byte>, needs: Needs, base: Sizes): Result<Sizes> {
    var u :- TakeField(z, 0, needs.uncompressed, base.uncompressed);
    var c :- TakeField(z, u.1, needs.compressed, base.compressed);
    var o :- TakeField(z, c.1, needs.offset, base.offset);
    Ok(Sizes(u.0, c.0, o.0))
  }

  function Zip64Sizes(extra: seq<byte>, needs: Needs, base: Sizes): Result<Sizes> {
    match FindExtra(extra, 0, ZIP64_EXTRA_ID)
    case Found(z) => Zip64Fields(z, needs, base)
    case Missing => Err(Zip64Inconsistent)
    case Cut => Err(Truncated)
  }

  /** Override the sentinel fields from the Zip64 record, walking the block with a cursor. */
  method ApplyZip64Extra(extra: seq<byte>, needs: Needs, base: Sizes) returns (r: Result<Sizes>)
    ensures r == Zip64Sizes(extra, needs, base)
  {
    hide U16At, U64At, FieldAt, FromLe;
    var c := new Reader(extra);
    while c.Remaining() >= 4
      invariant c.Valid() && c.data == extra
      invariant FindExtra(extra, 0, ZIP64_EXTRA_ID) == FindExtra(extra, c.pos, ZIP64_EXTRA_ID)
      decreases |extra| - c.pos
    {
      ghost var at := c.pos;
      var id :- assert c.U16();
      var size :- assert c.U16();
      if id == ZIP64_EXTRA_ID {
        var data :- c.Take(size);
        var z := new Reader(data);
        var out := base;
        if needs.uncompressed {
          var v :- z.U64();
          out := out.(uncompressed := v);
        }
        if needs.compressed {
          var v :- z.U64();
          out := out.(compressed := v);
        }
        if needs.offset {
          var v :- z.U64();
          out := out.(offset := v);
        }
        return Ok(out);
      }
      var _ :- c.Skip(size);
    }
    return Err(Zip64Inconsistent);
  }

  function AesFields(d: seq<byte>): Option<AesInfo> {
    if |d| < 7 then None
    else Some(AesInfo(d[4], U16At(d, 5), U16At(d, 0) == 2))
  }

  function AesOf(extra: seq<byte>): Option<AesInfo> {
    match FindExtra(extra, 0, AES_EXTRA_ID)
    case Found(d) => AesFields(d)
    case Missing => None
    case Cut => None
  }

  /** The AE-x record of a method-99 entry. */
  method ParseAesExtra(extra: seq<byte>) returns (r: Option<AesInfo>)
    ensures r == AesOf(extra)
  {
    var c := new Reader(extra);
    while c.Remaining() >= 4
      invariant c.Valid() && c.data == extra
      invariant FindExtra(extra, 0, AES_EXTRA_ID) == FindExtra(extra, c.pos, AES_EXTRA_ID)
      decreases |extra| - c.pos
    {
      ghost var at := c.pos;
      var id :- assert c.U16();
      var size :- assert c.U16();
      if id == AES_EXTRA_ID {
        var data := c.Take(size);
        if data.Err? || |data.value| < 7 {
          return None;
        }
        var d := data.value;
        return Some(AesInfo(d[4], U16At(d, 5), U16At(d, 0) == 2));
      }
      var skipped := c.Skip(size);
      if skipped.Err? {
        return None;
      }
    }
    return None;
  }

  // ----- central directory --------------------------------------------------------------------

  /** The fields of a central header that the parser keeps, before its variable-length tail. */
  datatype CentralFixed = CentralFixed(
    flags: uint16,
    method_: uint16,
    lastModTime: uint16,
    crc32: uint32,
    compressed: uint32,
    uncompressed: uint32,
    nameLen: uint16,
    extraLen: uint16,
    commentLen: uint16,
    diskStart: uint16,
    offset: uint32)

  function FixedAt(cd: seq<byte>, at: nat): CentralFixed
    requires at + CD_FIXED <= |cd|
  {
    CentralFixed(
      U16At(cd, at + 8), U16At(cd, at + 10), U16At(cd, at + 12), U32At(cd, at + 16),
      U32At(cd, at + 20), U32At(cd, at + 24), U16At(cd, at + 28), U16At(cd, at + 30), U16At(cd, at + 32),
      U16At(cd, at + 34), U32At(cd, at + 42))
  }

  /** The central header at `at` and the offset just past it. */
  function EntryAt(cd: seq<byte>, at: nat): (r: Result<(CentralEntry, nat)>)
    requires at <= |cd|
    ensures r.Ok? ==> at + CD_FIXED <= r.value.1 <= |cd|
  {
    if |cd| - at < CD_FIXED then
      Err(Truncated)
    else if U32At(cd, at) != CD_HEADER_SIG then
      Err(BadSignature(CentralHeader, at + 4))
    else
      EntryTail(cd, at, FixedAt(cd, at))
  }

  /** The entry whose fixed fields are `f`. */
  function EntryTail(cd: seq<byte>, at: nat, f: CentralFixed): (r: Result<(CentralEntry, nat)>)
    requires at + CD_FIXED <= |cd|
    ensures r.Ok? ==> at + CD_FIXED <= r.value.1 <= |cd|
  {
    var nameEnd := at + CD_FIXED + f.nameLen;
    var extraEnd := nameEnd + f.extraLen;
    var next := extraEnd + f.commentLen;
    if next > |cd| then
      Err(Truncated)
    else
      var extra := cd[nameEnd..extraEnd];
      var sizes :- ResolvedSizes(extra, Sizes(f.uncompressed, f.compressed, f.offset));
      Ok((CentralEntry(
            cd[at + CD_FIXED..nameEnd], f.method_, f.flags, f.crc32, sizes.compressed, sizes.uncompressed,
            sizes.offset, f.lastModTime, if f.method_ == 99 then AesOf(extra) else None, f.diskStart), next))
  }

  /** The fields whose 32-bit value is the sentinel. */
  function SentinelsOf(base: Sizes): Needs {
    Needs(base.uncompressed == U32_SENTINEL, base.compressed == U32_SENTINEL, base.offset == U32_SENTINEL)
  }

  /** The 64-bit sizes and offset of an entry whose header holds the 32-bit ones of `base`. */
  function ResolvedSizes(extra: seq<byte>, base: Sizes): Result<Sizes> {
    var needs := SentinelsOf(base);
    if needs.uncompressed || needs.compressed || needs.offset then Zip64Sizes(extra, needs, base) else Ok(base)
  }

  /** `count` central headers from `at`, and the offset just past the last. */
  function EntriesFrom(cd: seq<byte>, at: nat, count: nat): (r: Result<(seq<CentralEntry>, nat)>)
    requires at <= |cd|
    ensures r.Ok? ==> at <= r.value.1 <= |cd| && |r.value.0| == count
    decreases count
  {
    if count == 0 then
      Ok(([], at))
    else
      var first :- EntryAt(cd, at);
      var rest :- EntriesFrom(cd, first.1, count - 1);
      Ok(([first.0] + rest.0, rest.1))
  }

  /** The fixed part of the central header at `at` after its signature, field by field. */
  method ReadFixed(r: Reader, ghost at: nat) returns (f: CentralFixed)
    requires r.pos == at + 4 && at + CD_FIXED <= |r.data|
    modifies r
    ensures r.Valid() && r.pos == at + CD_FIXED
    ensures f == FixedAt(r.data, at)
  {
    hide U16At, U32At;
    var versionMadeBy :- assert r.U16();
    var versionNeeded :- assert r.U16();
    var flags :- assert r.U16();
    var rawMethod :- assert r.U16();
    var lastModTime :- assert r.U16();
    var modDate :- assert r.U16();
    var crc32 :- assert r.U32();
    var compressed :- assert r.U32();
    var uncompressed :- assert r.U32();
    var nameLen :- assert r.U16();
    var extraLen :- assert r.U16();
    var commentLen :- assert r.U16();
    var diskStart :- assert r.U16();
    var internalAttrs :- assert r.U16();
    var externalAttrs :- assert r.U32();
    var offset :- assert r.U32();
    f := CentralFixed(
      flags, rawMethod, lastModTime, crc32, compressed, uncompressed, nameLen, extraLen, commentLen,
      diskStart, offset);
  }

  /** One pass of the central-directory loop: the header under the cursor. */
  method ReadEntry(r: Reader) returns (e: Result<CentralEntry>)
    requires r.Valid()
    modifies r
    ensures r.Valid()
    ensures match EntryAt(r.data, old(r.pos))
            case Ok((entry, next)) => e == Ok(entry) && r.pos == next
            case Err(error) => e == Err(error)
  {
    hide U32At, FixedAt, Zip64Sizes, AesOf;
    ghost var at := r.pos;
    if r.Remaining() < CD_FIXED {
      return Err(Truncated);
    }
    var sig :- assert r.U32();
    if sig != CD_HEADER_SIG {
      return Err(BadSignature(CentralHeader, |r.data| - r.Remaining()));
    }
    var f := ReadFixed(r, at);
    var name :- r.Take(f.nameLen);
    var extra :- r.Take(f.extraLen);
    var comment :- r.Take(f.commentLen);
    var sizes := Sizes(f.uncompressed, f.compressed, f.offset);
    var needs := SentinelsOf(sizes);
    if needs.uncompressed || needs.compressed || needs.offset {
      sizes :- ApplyZip64Extra(extra, needs, sizes);
    }
    var aes := None;
    if f.method_ == 99 {
      aes := ParseAesExtra(extra);
    }
    e := Ok(CentralEntry(
              name, f.method_, f.flags, f.crc32, sizes.compressed, sizes.uncompressed, sizes.offset,
              f.lastModTime, aes, f.diskStart));
  }

  /** Parse `total` headers, returning the entries and the bytes they consumed. */
  method ParseCdEntries(cd: seq<byte>, total: nat) returns (r: Result<(seq<CentralEntry>, nat)>)
    ensures r == EntriesFrom(cd, 0, total)
  {
    hide EntryAt, Prepend;
    var c := new Reader(cd);
    var entries: seq<CentralEntry> := [];
    PrependNothing(EntriesFrom(cd, 0, total));
    for i := 0 to total
      invariant c.Valid() && c.data == cd
      invariant EntriesFrom(cd, 0, total) == Prepend(entries, EntriesFrom(cd, c.pos, total - i))
    {
      ghost var at := c.pos;
      PrependError(entries, EntryAt(cd, at));
      var e :- ReadEntry(c);
      PrependOne(entries, e, EntriesFrom(cd, c.pos, total - i - 1));
      entries := entries + [e];
    }
    PrependEnd(entries, c.pos);
    r := Ok((entries, |cd| - c.Remaining()));
  }

  ghost function Prepend(done: seq<CentralEntry>,
                         rest: Result<(seq<CentralEntry>, nat)>): Result<(seq<CentralEntry>, nat)> {
    match rest
    case Ok((es, end)) => Ok((done + es, end))
    case Err(e) => Err(e)
  }

  lemma {:induction false} PrependError<T>(done: seq<CentralEntry>, failed: Result<T>)
    ensures failed.Err? ==> Prepend(done, Err(failed.error)) == Err(failed.error)
  {
  }

  lemma {:induction false} PrependEnd(done: seq<CentralEntry>, end: nat)
    ensures Prepend(done, Ok(([], end))) == Ok((done, end))
  {
    assert done + [] == done;
  }

  lemma {:induction false} PrependNothing(rest: Result<(seq<CentralEntry>, nat)>)
    ensures Prepend([], rest) == rest
  {
    if rest.Ok? {
      assert [] + rest.value.0 == rest.value.0;
    }
  }

  lemma {:induction false} PrependOne(done: seq<CentralEntry>, one: CentralEntry,
                                      rest: Result<(seq<CentralEntry>, nat)>)
    ensures rest.Ok? ==>
      Prepend(done, Ok(([one] + rest.value.0, rest.value.1))) == Prepend(done + [one], rest)
    ensures rest.Err? ==> Prepend(done, rest) == Prepend(done + [one], rest)
  {
    if rest.Ok? {
      assert done + ([one] + rest.value.0) == done + [one] + rest.value.0;
    }
  }
}
