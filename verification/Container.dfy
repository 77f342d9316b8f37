/**
 Locating the central directory in a file: the backwards End Of Central Directory scan, the Zip64
 record, the prepended prefix and the signature record; and the local headers.
 */
module Container {
  import opened Wrappers
  import opened Bytes
  import opened Streams
  import opened Archive

  // ----- the End Of Central Directory scan ------------------------------------------------------

  /** Whether the EOCD signature stands at `i` with room for a whole record. */
  predicate EocdAt(s: seq<byte>, i: int) {
    0 <= i && i + EOCD_MIN <= |s| && U32At(s, i) == EOCD_SIG
  }

  /** The latest EOCD position, scanning back from the end. */
  function FindEocd(tail: seq<byte>): (r: Option<nat>)
    ensures r.Some? ==> EocdAt(tail, r.value) && forall i :: r.value < i ==> !EocdAt(tail, i)
    ensures r.None? ==> forall i :: !EocdAt(tail, i)
  {
    if |tail| < EOCD_MIN then None else ScanBack(tail, |tail| - EOCD_MIN)
  }

  function ScanBack(tail: seq<byte>, i: nat): (r: Option<nat>)
    requires i + EOCD_MIN <= |tail|
    ensures r.Some? ==> r.value <= i && EocdAt(tail, r.value) && forall j :: r.value < j <= i ==> !EocdAt(tail, j)
    ensures r.None? ==> forall j :: j <= i ==> !EocdAt(tail, j)
  {
    if U32At(tail, i) == EOCD_SIG then Some(i)
    else if i == 0 then None
    else ScanBack(tail, i - 1)
  }

  /** Where the scanned tail of a file of `len` bytes starts. */
  function ScanStart(len: nat): (n: nat)
    ensures n <= len
  {
    if len <= EOCD_SCAN_MAX then 0 else len - EOCD_SCAN_MAX
  }

  /** The absolute EOCD position of a file. */
  function EocdPos(file: seq<byte>): Option<nat> {
    match FindEocd(file[ScanStart(|file|)..])
    case Some(rel) => Some(ScanStart(|file|) + rel)
    case None => None
  }

  /** The EOCD of a file is the last match of its signature, provided that lies in the scanned tail. */
  lemma {:induction false} EocdPosIsLast(file: seq<byte>, pos: nat)
    ensures EocdPos(file) == Some(pos) <==>
      pos >= ScanStart(|file|) && EocdAt(file, pos) && forall i :: pos < i ==> !EocdAt(file, i)
    ensures EocdPos(file) == None <==> forall i :: ScanStart(|file|) <= i ==> !EocdAt(file, i)
  {
    var lo := ScanStart(|file|);
    var tail := file[lo..];
    assert tail == file[lo..|file|];
    forall i | lo <= i
      ensures EocdAt(file, i) <==> EocdAt(tail, i - lo)
    {
      if i + EOCD_MIN <= |file| {
        FieldShift(file, lo, |file|, i - lo, 4);
      }
    }
    var r := FindEocd(tail);
    if r.Some? {
      assert EocdAt(file, lo + r.value);
    }
    assert EocdAt(file, pos) && lo <= pos ==> EocdAt(tail, pos - lo);
  }

  // ----- the directory location ---------------------------------------------------------------

  datatype Directory = Directory(
    offset: uint64, size: uint64, total: nat, disk: uint32, startDisk: uint32, zip64: bool)

  /** The fields of the 32-bit EOCD record. */
  datatype Eocd = Eocd(
    disk: uint16, startDisk: uint16, total: uint16, size: uint32, offset: uint32, commentLen: uint16)
  {
    predicate Zip64() {
      offset == U32_SENTINEL || size == U32_SENTINEL || total == U16_SENTINEL
    }
  }

  function EocdFields(s: seq<byte>, pos: nat): Eocd
    requires pos + EOCD_MIN <= |s|
  {
    Eocd(U16At(s, pos + 4), U16At(s, pos + 6), U16At(s, pos + 10), U32At(s, pos + 12), U32At(s, pos + 16),
         U16At(s, pos + 20))
  }

  /** The Zip64 EOCD record that the locator before `pos` points at; the locator must lie in the tail. */
  function Zip64Directory(file: seq<byte>, pos: nat): Result<Directory>
    requires ScanStart(|file|) <= pos && pos + EOCD_MIN <= |file|
  {
    if pos - ScanStart(|file|) < ZIP64_LOCATOR_LEN then
      Err(Zip64Unsupported)
    else if U32At(file, pos - 20) != ZIP64_LOCATOR_SIG then
      Err(Zip64Unsupported)
    else
      var at := U64At(file, pos - 12);
      if at + 56 > |file| then Err(Io)
      else if U32At(file, at) != ZIP64_EOCD_SIG then Err(BadSignature(Zip64End, at))
      else Ok(Zip64Record(file, at))
  }

  function Zip64Record(s: seq<byte>, at: nat): Directory
    requires at + 56 <= |s|
  {
    Directory(U64At(s, at + 48), U64At(s, at + 40), U64At(s, at + 32), U32At(s, at + 16), U32At(s, at + 20), true)
  }

  /** Where the EOCD at `pos` says the central directory is. */
  function Locate(file: seq<byte>, pos: nat): Result<Directory>
    requires ScanStart(|file|) <= pos && pos + EOCD_MIN <= |file|
  {
    var e := EocdFields(file, pos);
    if e.Zip64() then Zip64Directory(file, pos)
    else Ok(Directory(e.offset, e.size, e.total, e.disk, e.startDisk, false))
  }

  predicate CdHeaderAt(file: seq<byte>, at: nat) {
    at + 4 <= |file| && U32At(file, at) == CD_HEADER_SIG
  }

  /** The length of the data prepended before the archive. */
  function PrefixLen(file: seq<byte>, pos: nat, d: Directory): (n: nat)
    requires pos <= |file|
    ensures n <= pos
  {
    if d.zip64 || pos <= d.offset + d.size then 0
    else
      var n := pos - (d.offset + d.size);
      if !CdHeaderAt(file, d.offset) && CdHeaderAt(file, d.offset + n) then n else 0
  }

  /** Recorded local-header offsets made absolute. */
  function Shifted(entries: seq<CentralEntry>, n: uint64): (r: seq<CentralEntry>)
    ensures |r| == |entries|
    ensures forall i :: 0 <= i < |entries| ==> r[i] == ShiftedEntry(entries[i], n)
  {
    if entries == [] then [] else [ShiftedEntry(entries[0], n)] + Shifted(entries[1..], n)
  }

  function ShiftedEntry(e: CentralEntry, n: uint64): CentralEntry {
    e.(lfhOffset := WrappingAdd(e.lfhOffset, n))
  }

  /** A signature record after the headers: inside the directory block, or right behind it. */
  function SignatureLen(file: seq<byte>, start: nat, size: nat, consumed: nat): Option<uint16>
    requires start + size <= |file| && consumed <= size
  {
    if size - consumed >= 6 && U32At(file, start + consumed) == ARCHIVE_SIG_SIG then
      Some(U16At(file, start + consumed + 4))
    else if consumed == size && start + size + 6 <= |file| && U32At(file, start + size) == ARCHIVE_SIG_SIG then
      Some(U16At(file, start + size + 4))
    else
      None
  }

  /** The archive whose EOCD stands at `pos`. */
  function OpenAt(file: File, pos: nat): Result<Archive>
    requires ScanStart(|file|) <= pos && pos + EOCD_MIN <= |file|
  {
    var d :- Locate(file, pos);
    var prefix := PrefixLen(file, pos, d);
    var start := d.offset + prefix;
    if start + d.size > |file| then
      Err(CentralDirOutOfRange(d.offset, d.size))
    else if d.total > MAX_ENTRIES then
      Err(TooManyEntries(d.total))
    else
      var parsed :- EntriesFrom(file[start..start + d.size], 0, d.total);
      var commentLen := EocdFields(file, pos).commentLen;
      Ok(Archive(
           Shifted(parsed.0, prefix),
           Summary(
             |file|, start, d.size, pos + EOCD_MIN + commentLen, commentLen, d.disk, d.startDisk,
             SignatureLen(file, start, d.size, parsed.1))))
  }

  /** `ZipArchive::new` as a function of the file. */
  function Open(file: File): Result<Archive> {
    EocdPosInside(file);
    match EocdPos(file)
    case None => Err(NoEocd)
    case Some(pos) => OpenAt(file, pos)
  }

  lemma {:induction false} EocdPosInside(file: seq<byte>)
    ensures EocdPos(file).Some? ==>
      ScanStart(|file|) <= EocdPos(file).value && EocdPos(file).value + EOCD_MIN <= |file|
  {
    if EocdPos(file).Some? {
      EocdPosIsLast(file, EocdPos(file).value);
    }
  }

  // ----- the program --------------------------------------------------------------------------

  method ParseEocd(buf: seq<byte>) returns (r: Result<Eocd>)
    ensures r ==
      if |buf| < 4 then Err(Truncated)
      else if U32At(buf, 0) != EOCD_SIG then Err(NoEocd)
      else if |buf| < EOCD_MIN then Err(Truncated)
      else Ok(EocdFields(buf, 0))
  {
    hide U16At, U32At;
    var c := new Reader(buf);
    var sig :- c.U32();
    if sig != EOCD_SIG {
      return Err(NoEocd);
    }
    var disk :- c.U16();
    var startDisk :- c.U16();
    var onThisDisk :- c.U16();
    var total :- c.U16();
    var size :- c.U32();
    var offset :- c.U32();
    var commentLen :- c.U16();
    r := Ok(Eocd(disk, startDisk, total, size, offset, commentLen));
  }

  method ReadZip64Record(rec: seq<byte>, at: nat) returns (r: Result<Directory>)
    requires |rec| == 56
    ensures r == if U32At(rec, 0) != ZIP64_EOCD_SIG then Err(BadSignature(Zip64End, at)) else Ok(Zip64Record(rec, 0))
  {
    hide U16At, U32At, U64At;
    var c := new Reader(rec);
    var sig :- assert c.U32();
    if sig != ZIP64_EOCD_SIG {
      return Err(BadSignature(Zip64End, at));
    }
    var recordSize :- assert c.U64();
    var madeBy :- assert c.U16();
    var needed :- assert c.U16();
    var disk :- assert c.U32();
    var startDisk :- assert c.U32();
    var onThisDisk :- assert c.U64();
    var total :- assert c.U64();
    var size :- assert c.U64();
    var offset :- assert c.U64();
    r := Ok(Directory(offset, size, total, disk, startDisk, true));
  }

  /** Where the locator says the Zip64 record is. */
  method ReadLocator(locator: seq<byte>) returns (at: Option<uint64>)
    requires |locator| == ZIP64_LOCATOR_LEN
    ensures at == if U32At(locator, 0) == ZIP64_LOCATOR_SIG then Some(U64At(locator, 8)) else None
  {
    hide U32At, U64At;
    var c := new Reader(locator);
    var sig :- assert c.U32();
    if sig != ZIP64_LOCATOR_SIG {
      return None;
    }
    var disk :- assert c.U32();
    var offset :- assert c.U64();
    at := Some(offset);
  }

  method ResolveZip64Eocd(f: FileCursor, tail: seq<byte>, rel: nat) returns (r: Result<Directory>)
    requires tail == f.data[ScanStart(|f.data|)..] && rel + EOCD_MIN <= |tail|
    modifies f
    ensures r == Zip64Directory(f.data, ScanStart(|f.data|) + rel)
  {
    hide U32At, U64At, Zip64Record, ScanStart;
    if rel < ZIP64_LOCATOR_LEN {
      return Err(Zip64Unsupported);
    }
    LocatorShift(f.data, ScanStart(|f.data|), rel);
    var at := ReadLocator(tail[rel - ZIP64_LOCATOR_LEN..rel]);
    if at.None? {
      return Err(Zip64Unsupported);
    }
    f.Seek(at.value);
    var rec :- f.ReadExact(56);
    Zip64RecordShift(f.data, at.value);
    r := ReadZip64Record(rec, at.value);
  }

  lemma {:induction false} LocatorShift(s: seq<byte>, lo: nat, rel: nat)
    requires lo + rel <= |s| && ZIP64_LOCATOR_LEN <= rel
    ensures U32At(s[lo..][rel - ZIP64_LOCATOR_LEN..rel], 0) == U32At(s, lo + rel - 20)
    ensures U64At(s[lo..][rel - ZIP64_LOCATOR_LEN..rel], 8) == U64At(s, lo + rel - 12)
  {
    hide FieldAt;
    var pos := lo + rel;
    assert s[lo..][rel - ZIP64_LOCATOR_LEN..rel] == s[pos - 20..pos];
    FieldShift(s, pos - 20, pos, 0, 4);
    FieldShift(s, pos - 20, pos, 8, 8);
  }

  lemma {:induction false} Zip64RecordShift(s: seq<byte>, at: nat)
    requires at + 56 <= |s|
    ensures U32At(s[at..at + 56], 0) == U32At(s, at)
    ensures Zip64Record(s[at..at + 56], 0) == Zip64Record(s, at)
  {
    FieldShift(s, at, at + 56, 0, 4);
    FieldShift(s, at, at + 56, 16, 4);
    FieldShift(s, at, at + 56, 20, 4);
    FieldShift(s, at, at + 56, 32, 8);
    FieldShift(s, at, at + 56, 40, 8);
    FieldShift(s, at, at + 56, 48, 8);
  }

  method IsCdHeaderAt(f: FileCursor, at: nat) returns (b: bool)
    modifies f
    ensures b == CdHeaderAt(f.data, at)
  {
    f.Seek(at);
    var sig := f.ReadExact(4);
    b := sig.Ok? && FromLe(sig.value) == CD_HEADER_SIG;
  }

  method DetectPrefix(f: FileCursor, pos: nat, d: Directory) returns (n: nat)
    requires pos <= |f.data|
    modifies f
    ensures n == PrefixLen(f.data, pos, d)
  {
    n := 0;
    if !d.zip64 && pos > d.offset + d.size {
      var gap := pos - (d.offset + d.size);
      var here := IsCdHeaderAt(f, d.offset);
      if !here {
        var there := IsCdHeaderAt(f, d.offset + gap);
        if there {
          n := gap;
        }
      }
    }
  }

  /** The signature record, looked for where the headers ended; the cursor stands behind the block. */
  method DetectSignature(f: FileCursor, start: nat, cd: seq<byte>, consumed: nat) returns (len: Option<uint16>)
    requires start + |cd| <= |f.data| && cd == f.data[start..start + |cd|] && consumed <= |cd|
    requires f.pos == start + |cd|
    modifies f
    ensures len == SignatureLen(f.data, start, |cd|, consumed)
  {
    len := None;
    var trailing := cd[consumed..];
    assert trailing == f.data[start + consumed..start + |cd|];
    if |trailing| >= 6 && U32At(trailing, 0) == ARCHIVE_SIG_SIG {
      FieldShift(f.data, start + consumed, start + |cd|, 0, 4);
      FieldShift(f.data, start + consumed, start + |cd|, 4, 2);
      len := Some(U16At(trailing, 4));
    } else {
      if |trailing| >= 6 {
        FieldShift(f.data, start + consumed, start + |cd|, 0, 4);
      }
      if |trailing| == 0 {
        var hdr := f.ReadExact(6);
        if hdr.Ok? {
          FieldShift(f.data, start + |cd|, start + |cd| + 6, 0, 4);
          FieldShift(f.data, start + |cd|, start + |cd| + 6, 4, 2);
          if U32At(hdr.value, 0) == ARCHIVE_SIG_SIG {
            len := Some(U16At(hdr.value, 4));
          }
        }
      }
    }
  }

  method ParseCentralDirectory(f: FileCursor) returns (r: Result<Archive>)
    requires |f.data| < MAX_FILE
    modifies f
    ensures r == Open(f.data)
  {
    hide U16At, U32At, U64At, FieldAt, OpenAt, ScanBack, EocdFields;
    var scanLen := if |f.data| < EOCD_SCAN_MAX then |f.data| else EOCD_SCAN_MAX;
    if scanLen < EOCD_MIN {
      return Err(NoEocd);
    }
    var scanStart := |f.data| - scanLen;
    f.Seek(scanStart);
    var tail :- assert f.ReadExact(scanLen);
    assert tail == f.data[scanStart..];
    var rel := FindEocd(tail);
    if rel.None? {
      return Err(NoEocd);
    }
    EocdInTail(f.data, scanStart, rel.value);
    var e :- assert ParseEocd(tail[rel.value..]);
    r := ParseAt(f, tail, rel.value, e);
  }

  /** The part of `parse_central_directory` after the EOCD record has been found and parsed. */
  method ParseAt(f: FileCursor, tail: seq<byte>, rel: nat, e: Eocd) returns (r: Result<Archive>)
    requires |f.data| < MAX_FILE
    requires tail == f.data[ScanStart(|f.data|)..] && rel + EOCD_MIN <= |tail|
    requires e == EocdFields(f.data, ScanStart(|f.data|) + rel)
    modifies f
    ensures r == OpenAt(f.data, ScanStart(|f.data|) + rel)
  {
    hide U16At, U32At, U64At, FieldAt, FromLe, EntriesFrom, Shifted, ShiftedEntry, PrefixLen, SignatureLen,
      Zip64Directory, ScanStart;
    var pos := ScanStart(|f.data|) + rel;
    var d := Directory(e.offset, e.size, e.total, e.disk, e.startDisk, false);
    if e.Zip64() {
      d :- ResolveZip64Eocd(f, tail, rel);
    }
    var prefix := DetectPrefix(f, pos, d);
    var start := d.offset + prefix;
    if start + d.size > |f.data| {
      return Err(CentralDirOutOfRange(d.offset, d.size));
    }
    if d.total > MAX_ENTRIES {
      return Err(TooManyEntries(d.total));
    }
    f.Seek(start);
    var cd :- assert f.ReadExact(d.size);
    var parsed :- ParseCdEntries(cd, d.total);
    var entries := parsed.0;
    ShiftByZero(entries);
    if prefix > 0 {
      entries := ShiftEntries(entries, prefix);
    }
    var signatureLen := DetectSignature(f, start, cd, parsed.1);
    r := Ok(Archive(
              entries,
              Summary(
                |f.data|, start, d.size, pos + EOCD_MIN + e.commentLen, e.commentLen, d.disk, d.startDisk,
                signatureLen)));
  }

  /** The EOCD record as found in the scanned tail. */
  lemma {:induction false} EocdInTail(file: seq<byte>, lo: nat, rel: nat)
    requires lo <= |file| && EocdAt(file[lo..], rel)
    ensures |file[lo..][rel..]| >= EOCD_MIN && U32At(file[lo..][rel..], 0) == EOCD_SIG
    ensures EocdFields(file[lo..][rel..], 0) == EocdFields(file, lo + rel)
  {
    var pos := lo + rel;
    assert file[lo..][rel..] == file[pos..];
    EocdShift(file, pos);
    assert file[lo..] == file[lo..|file|];
    FieldShift(file, lo, |file|, rel, 4);
  }

  lemma {:induction false} EocdShift(s: seq<byte>, pos: nat)
    requires pos + EOCD_MIN <= |s|
    ensures EocdFields(s[pos..], 0) == EocdFields(s, pos)
    ensures U32At(s[pos..], 0) == U32At(s, pos)
  {
    assert s[pos..] == s[pos..|s|];
    FieldShift(s, pos, |s|, 0, 4);
    FieldShift(s, pos, |s|, 4, 2);
    FieldShift(s, pos, |s|, 6, 2);
    FieldShift(s, pos, |s|, 10, 2);
    FieldShift(s, pos, |s|, 12, 4);
    FieldShift(s, pos, |s|, 16, 4);
    FieldShift(s, pos, |s|, 20, 2);
  }

  /** The offset shift of the parsed entries, one by one. */
  method ShiftEntries(parsed: seq<CentralEntry>, n: uint64) returns (entries: seq<CentralEntry>)
    ensures entries == Shifted(parsed, n)
  {
    entries := parsed;
    for i := 0 to |parsed|
      invariant |entries| == |parsed|
      invariant forall j :: 0 <= j < i ==> entries[j] == ShiftedEntry(parsed[j], n)
      invariant forall j :: i <= j < |parsed| ==> entries[j] == parsed[j]
    {
      entries := entries[i := ShiftedEntry(entries[i], n)];
    }
  }

  lemma {:induction false} ShiftByZero(entries: seq<CentralEntry>)
    ensures Shifted(entries, 0) == entries
  {
  }

  // ----- local headers ------------------------------------------------------------------------

  /** The fields recorded in both copies of an entry's header. */
  datatype HeaderFields = HeaderFields(
    name: seq<byte>, method_: uint16, flags: uint16, crc32: uint32, compressedSize: uint64, uncompressedSize: uint64)

  datatype EntryLayout = EntryLayout(
    index: nat, lfhOffset: uint64, dataStart: nat, central: HeaderFields, local: HeaderFields)

  datatype LocalFixed = LocalFixed(
    flags: uint16, method_: uint16, crc32: uint32, compressed: uint32, uncompressed: uint32,
    nameLen: uint16, extraLen: uint16)

  function LocalFixedAt(s: seq<byte>, at: nat): LocalFixed
    requires at + LFH_FIXED <= |s|
  {
    LocalFixed(
      U16At(s, at + 6), U16At(s, at + 8), U32At(s, at + 14), U32At(s, at + 18), U32At(s, at + 22),
      U16At(s, at + 26), U16At(s, at + 28))
  }

  /** The local header at `at` and the offset of the entry's first data byte. */
  function LocalAt(file: seq<byte>, at: nat): Result<(HeaderFields, nat)> {
    if at + LFH_FIXED > |file| then Err(Io)
    else if U32At(file, at) != LFH_SIG then Err(BadSignature(LocalHeader, at))
    else LocalTail(file, at, LocalFixedAt(file, at))
  }

  function LocalTail(file: seq<byte>, at: nat, h: LocalFixed): Result<(HeaderFields, nat)> {
    var nameEnd := at + LFH_FIXED + h.nameLen;
    if nameEnd > |file| then Err(Io)
    else Ok((HeaderFields(file[at + LFH_FIXED..nameEnd], h.method_, h.flags, h.crc32, h.compressed, h.uncompressed),
             nameEnd + h.extraLen))
  }

  lemma {:induction false} LocalFits(f: File, at: nat)
    requires LocalAt(f, at).Ok?
    ensures at + LFH_FIXED <= |f| && LocalAt(f, at).value.1 <= |f| + 0xFFFF
  {
    hide U32At, U16At;
  }

  function CentralFields(e: CentralEntry): HeaderFields {
    HeaderFields(e.name, e.method_, e.flags, e.crc32, e.compressedSize, e.uncompressedSize)
  }

  function LayoutOf(index: nat, e: CentralEntry, local: (HeaderFields, nat)): EntryLayout {
    EntryLayout(index, e.lfhOffset, local.1, CentralFields(e), local.0)
  }

  function LayoutsFrom(file: seq<byte>, entries: seq<CentralEntry>, index: nat): (r: Result<seq<EntryLayout>>)
    requires index <= |entries|
    ensures r.Ok? ==> |r.value| == |entries| - index
    decreases |entries| - index
  {
    if index == |entries| then
      Ok([])
    else
      var local :- LocalAt(file, entries[index].lfhOffset);
      var rest :- LayoutsFrom(file, entries, index + 1);
      Ok([LayoutOf(index, entries[index], local)] + rest)
  }

  /** `structural_view` as a function of the file. */
  function StructuralView(file: File): Result<seq<EntryLayout>> {
    var archive :- Open(file);
    LayoutsFrom(file, archive.entries, 0)
  }

  method ReadLfhFields(f: FileCursor, at: nat) returns (r: Result<(HeaderFields, nat)>)
    modifies f
    ensures r == LocalAt(f.data, at)
  {
    f.Seek(at);
    var fixed :- f.ReadExact(LFH_FIXED);
    LocalShift(f.data, at);
    var h :- ReadLocalFixed(fixed, at);
    var name :- f.ReadExact(h.nameLen);
    r := Ok((HeaderFields(name, h.method_, h.flags, h.crc32, h.compressed, h.uncompressed),
             at + LFH_FIXED + h.nameLen + h.extraLen));
  }

  method ReadLocalFixed(fixed: seq<byte>, at: nat) returns (r: Result<LocalFixed>)
    requires |fixed| == LFH_FIXED
    ensures r == if U32At(fixed, 0) != LFH_SIG then Err(BadSignature(LocalHeader, at)) else Ok(LocalFixedAt(fixed, 0))
  {
    hide U16At, U32At;
    var c := new Reader(fixed);
    var sig :- assert c.U32();
    if sig != LFH_SIG {
      return Err(BadSignature(LocalHeader, at));
    }
    var needed :- assert c.U16();
    var flags :- assert c.U16();
    var rawMethod :- assert c.U16();
    var modTime :- assert c.U16();
    var modDate :- assert c.U16();
    var crc32 :- assert c.U32();
    var compressed :- assert c.U32();
    var uncompressed :- assert c.U32();
    var nameLen :- assert c.U16();
    var extraLen :- assert c.U16();
    r := Ok(LocalFixed(flags, rawMethod, crc32, compressed, uncompressed, nameLen, extraLen));
  }

  lemma {:induction false} LocalShift(s: seq<byte>, at: nat)
    requires at + LFH_FIXED <= |s|
    ensures U32At(s[at..at + LFH_FIXED], 0) == U32At(s, at)
    ensures LocalFixedAt(s[at..at + LFH_FIXED], 0) == LocalFixedAt(s, at)
  {
    FieldShift(s, at, at + LFH_FIXED, 0, 4);
    FieldShift(s, at, at + LFH_FIXED, 6, 2);
    FieldShift(s, at, at + LFH_FIXED, 8, 2);
    FieldShift(s, at, at + LFH_FIXED, 14, 4);
    FieldShift(s, at, at + LFH_FIXED, 18, 4);
    FieldShift(s, at, at + LFH_FIXED, 22, 4);
    FieldShift(s, at, at + LFH_FIXED, 26, 2);
    FieldShift(s, at, at + LFH_FIXED, 28, 2);
  }

  /** Both header copies of every entry, in directory order. */
  method ReadStructuralView(f: FileCursor, entries: seq<CentralEntry>) returns (r: Result<seq<EntryLayout>>)
    modifies f
    ensures r == LayoutsFrom(f.data, entries, 0)
  {
    var out: seq<EntryLayout> := [];
    PrependNoLayout(LayoutsFrom(f.data, entries, 0));
    for i := 0 to |entries|
      invariant LayoutsFrom(f.data, entries, 0) == PrependLayouts(out, LayoutsFrom(f.data, entries, i))
    {
      var local :- ReadLfhFields(f, entries[i].lfhOffset);
      var layout := LayoutOf(i, entries[i], local);
      PrependOneLayout(out, layout, LayoutsFrom(f.data, entries, i + 1));
      out := out + [layout];
    }
    assert out + [] == out;
    r := Ok(out);
  }

  ghost function PrependLayouts(done: seq<EntryLayout>, rest: Result<seq<EntryLayout>>): Result<seq<EntryLayout>> {
    match rest
    case Ok(layouts) => Ok(done + layouts)
    case Err(e) => Err(e)
  }

  lemma {:induction false} PrependNoLayout(rest: Result<seq<EntryLayout>>)
    ensures PrependLayouts([], rest) == rest
  {
    if rest.Ok? {
      assert [] + rest.value == rest.value;
    }
  }

  lemma {:induction false} PrependOneLayout(done: seq<EntryLayout>, one: EntryLayout, rest: Result<seq<EntryLayout>>)
    ensures rest.Ok? ==> PrependLayouts(done, Ok([one] + rest.value)) == PrependLayouts(done + [one], rest)
  {
    if rest.Ok? {
      assert done + ([one] + rest.value) == done + [one] + rest.value;
    }
  }
}
