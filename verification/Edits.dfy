/** What prepending bytes to an archive file, and appending bytes to it, does to the parsed archive. */
module Edits {
  import opened Wrappers
  import opened Bytes
  import opened Archive
  import opened Container
  import opened Printer
  import opened PrintParse

  // ----- prepending ---------------------------------------------------------------------------

  lemma {:induction false} FieldBehind(p: seq<byte>, f: seq<byte>, at: nat, width: nat)
    requires at + width <= |f|
    ensures FieldAt(p + f, |p| + at, width) == FieldAt(f, at, width)
  {
    assert (p + f)[|p| + at..|p| + at + width] == f[at..at + width];
  }

  lemma {:induction false} EocdBehind(p: seq<byte>, f: seq<byte>)
    ensures forall i :: EocdAt(f, i) <==> i >= 0 && EocdAt(p + f, |p| + i)
  {
    forall i | 0 <= i && i + EOCD_MIN <= |f|
      ensures EocdAt(f, i) <==> EocdAt(p + f, |p| + i)
    {
      FieldBehind(p, f, i, 4);
    }
  }

  /** The end record moves with the file. */
  lemma {:induction false} EocdPosBehind(p: seq<byte>, f: seq<byte>)
    requires EocdPos(f).Some?
    ensures EocdPos(p + f) == Some(|p| + EocdPos(f).value)
  {
    var pos := EocdPos(f).value;
    EocdPosIsLast(f, pos);
    EocdPosIsLast(p + f, |p| + pos);
    EocdBehind(p, f);
    hide EocdAt, EocdPos;
    forall i | |p| + pos < i
      ensures !EocdAt(p + f, i)
    {
      assert !EocdAt(f, i - |p|);
    }
  }

  lemma {:induction false} EocdFieldsBehind(p: seq<byte>, f: seq<byte>, pos: nat)
    requires pos + EOCD_MIN <= |f|
    ensures EocdFields(p + f, |p| + pos) == EocdFields(f, pos)
  {
    FieldBehind(p, f, pos + 4, 2);
    FieldBehind(p, f, pos + 6, 2);
    FieldBehind(p, f, pos + 10, 2);
    FieldBehind(p, f, pos + 12, 4);
    FieldBehind(p, f, pos + 16, 4);
    FieldBehind(p, f, pos + 20, 2);
    hide FieldAt;
  }

  lemma {:induction false} CdHeaderBehind(p: seq<byte>, f: seq<byte>, at: nat)
    ensures CdHeaderAt(p + f, |p| + at) == CdHeaderAt(f, at)
  {
    if at + 4 <= |f| {
      FieldBehind(p, f, at, 4);
    }
  }

  lemma {:induction false} SignatureBehind(p: seq<byte>, f: seq<byte>, start: nat, size: nat, consumed: nat)
    requires start + size <= |f| && consumed <= size
    ensures SignatureLen(p + f, |p| + start, size, consumed) == SignatureLen(f, start, size, consumed)
  {
    if size - consumed >= 6 {
      FieldBehind(p, f, start + consumed, 4);
      FieldBehind(p, f, start + consumed + 4, 2);
    }
    if start + size + 6 <= |f| {
      FieldBehind(p, f, start + size, 4);
      FieldBehind(p, f, start + size + 4, 2);
    }
    hide FieldAt;
  }

  /** The archive with every offset moved by `n`. */
  function Moved(a: Archive, n: uint64): Archive {
    Archive(
      Shifted(a.entries, n),
      a.summary.(fileLen := a.summary.fileLen + n,
                 centralDirOffset := a.summary.centralDirOffset + n,
                 eocdEndOffset := a.summary.eocdEndOffset + n))
  }

  lemma {:induction false} ShiftTwice(entries: seq<CentralEntry>, m: uint64, n: uint64)
    requires m + n < 0x1_0000_0000_0000_0000
    ensures Shifted(Shifted(entries, m), n) == Shifted(entries, m + n)
  {
    forall i | 0 <= i < |entries|
      ensures ShiftedEntry(ShiftedEntry(entries[i], m), n) == ShiftedEntry(entries[i], m + n)
    {
    }
  }

  /** A non-empty directory starts with a header signature. */
  lemma {:induction false} DirectoryStart(f: File, start: nat, size: nat, count: nat)
    requires start + size <= |f| && count > 0
    requires EntriesFrom(f[start..start + size], 0, count).Ok?
    ensures CdHeaderAt(f, start)
  {
    hide EntryTail, FixedAt;
    FieldShift(f, start, start + size, 0, 4);
  }

  /** The archive's directory, as its end record at `pos` gives it, has no gap before that record. */
  predicate Contiguous(a: Archive, pos: nat) {
    a.summary.centralDirOffset + a.summary.centralDirSize == pos
  }

  /** A prefix can be detected: the archive is not Zip64, and its directory ends at its end record. */
  predicate Detectable(f: File) {
    && Open(f).Ok? && EocdPos(f).Some? && EocdPos(f).value + EOCD_MIN <= |f|
    && Contiguous(Open(f).value, EocdPos(f).value) && !EocdFields(f, EocdPos(f).value).Zip64()
  }

  lemma {:induction false} PrependingDetectable(p: seq<byte>, f: File)
    requires p != [] && |p| + |f| < MAX_FILE
    requires Open(f).Ok? && Open(f).value.entries != [] && Detectable(f)
    ensures Open(p + f) == Ok(Moved(Open(f).value, |p|)) <==> !CdHeaderAt(p + f, EocdFields(f, EocdPos(f).value).offset)
  {
    hide EocdPos, EocdFields, U32At, SignatureLen, ScanStart, EntriesFrom, CdHeaderAt, Shifted;
    var pos := EocdPos(f).value;
    var e := EocdFields(f, pos);
    EocdPosInside(f);
    EocdPosInside(p + f);
    EocdPosBehind(p, f);
    EocdFieldsBehind(p, f, pos);
    var d := Directory(e.offset, e.size, e.total, e.disk, e.startDisk, false);
    assert Locate(f, pos) == Ok(d) && Locate(p + f, |p| + pos) == Ok(d);
    var n := PrefixLen(f, pos, d);
    var start := d.offset + n;
    assert start + d.size == pos;
    var parsed := EntriesFrom(f[start..start + d.size], 0, d.total);
    assert Open(f).value.entries == Shifted(parsed.value.0, n);
    DirectoryStart(f, start, d.size, d.total);
    CdHeaderBehind(p, f, start);
    assert (p + f)[|p| + start..|p| + start + d.size] == f[start..start + d.size];
    SignatureBehind(p, f, start, d.size, parsed.value.1);
    ShiftTwice(parsed.value.0, n, |p|);
    if CdHeaderAt(p + f, d.offset) {
      assert PrefixLen(p + f, |p| + pos, d) == 0;
      if Open(p + f).Ok? {
        assert Open(p + f).value.summary.centralDirOffset == d.offset;
      }
    } else {
      assert PrefixLen(p + f, |p| + pos, d) == |p| + n;
    }
  }

  /** A gap between directory and end record is counted into the prefix, so no prefix is found. */
  lemma {:induction false} PrependingGap(p: seq<byte>, f: File)
    requires p != [] && |p| + |f| < MAX_FILE
    requires Open(f).Ok? && EocdPos(f).Some? && EocdPos(f).value + EOCD_MIN <= |f|
    requires !EocdFields(f, EocdPos(f).value).Zip64() && !Contiguous(Open(f).value, EocdPos(f).value)
    ensures Open(p + f) != Ok(Moved(Open(f).value, |p|))
  {
    hide EocdPos, EocdFields, U32At, SignatureLen, ScanStart, EntriesFrom, CdHeaderAt, Shifted;
    var pos := EocdPos(f).value;
    var e := EocdFields(f, pos);
    EocdPosInside(f);
    EocdPosInside(p + f);
    EocdPosBehind(p, f);
    EocdFieldsBehind(p, f, pos);
    var d := Directory(e.offset, e.size, e.total, e.disk, e.startDisk, false);
    assert Locate(f, pos) == Ok(d) && Locate(p + f, |p| + pos) == Ok(d);
    assert Open(f).value.summary.centralDirOffset == d.offset;
    if Open(p + f).Ok? {
      assert Open(p + f).value.summary.centralDirOffset == d.offset + PrefixLen(p + f, |p| + pos, d);
    }
  }

  lemma {:induction false} NotMoved(entries: seq<CentralEntry>, n: uint64)
    requires entries != [] && 0 < n
    ensures Shifted(entries, n) != Shifted(entries, 0)
  {
    assert Shifted(entries, n)[0] == ShiftedEntry(entries[0], n);
    assert Shifted(entries, 0)[0] == ShiftedEntry(entries[0], 0);
    assert WrappingAdd(entries[0].lfhOffset, n) != WrappingAdd(entries[0].lfhOffset, 0);
  }

  /** The archive's entries are those of its directory block, with their offsets as recorded. */
  predicate Unshifted(f: File, a: Archive) {
    var start, size := a.summary.centralDirOffset, a.summary.centralDirSize;
    && start + size <= |f| && EntriesFrom(f[start..start + size], 0, |a.entries|).Ok?
    && a.entries == Shifted(EntriesFrom(f[start..start + size], 0, |a.entries|).value.0, 0)
  }

  /** A Zip64 archive is opened without a prefix. */
  lemma {:induction false} OpenedZip64(f: File, pos: nat)
    requires EocdPos(f) == Some(pos) && pos + EOCD_MIN <= |f| && EocdFields(f, pos).Zip64() && Open(f).Ok?
    ensures Unshifted(f, Open(f).value)
  {
    hide EocdPos, U32At, U64At, SignatureLen, ScanStart, EntriesFrom, Shifted, FieldAt;
    EocdPosInside(f);
    assert Locate(f, pos).Ok? && Locate(f, pos).value.zip64;
  }

  /** For Zip64 archives the program does not look for a prefix. */
  lemma {:induction false} PrependingZip64(p: seq<byte>, f: File)
    requires p != [] && |p| + |f| < MAX_FILE
    requires Open(f).Ok? && Open(f).value.entries != [] && EocdPos(f).Some? && EocdPos(f).value + EOCD_MIN <= |f|
    requires EocdFields(f, EocdPos(f).value).Zip64()
    ensures Open(p + f) != Ok(Moved(Open(f).value, |p|))
  {
    hide EocdPos, EocdFields, Open, EntriesFrom, Shifted;
    var pos := EocdPos(f).value;
    EocdPosBehind(p, f);
    EocdFieldsBehind(p, f, pos);
    OpenedZip64(f, pos);
    var a := Open(f).value;
    if Open(p + f) == Ok(Moved(a, |p|)) {
      OpenedZip64(p + f, |p| + pos);
      var at, size := a.summary.centralDirOffset, a.summary.centralDirSize;
      assert (p + f)[|p| + at..|p| + at + size] == f[at..at + size];
      var parsed := EntriesFrom(f[at..at + size], 0, |a.entries|).value.0;
      ShiftTwice(parsed, 0, |p|);
      NotMoved(parsed, |p|);
    }
  }

  /**
   Prefix detection: prepending bytes moves the whole parsed archive by their number, exactly when
   the archive's prefix can be detected and they put no central-header signature at the offset its
   end record names. The archive has an entry, and may itself carry a prefix already.
   */
  lemma {:induction false} Prepending(p: seq<byte>, f: File)
    requires p != [] && |p| + |f| < MAX_FILE && Open(f).Ok? && Open(f).value.entries != []
    ensures EocdPos(f).Some? && EocdPos(f).value + EOCD_MIN <= |f|
    ensures
      Open(p + f) == Ok(Moved(Open(f).value, |p|))
      <==> Detectable(f) && !CdHeaderAt(p + f, EocdFields(f, EocdPos(f).value).offset)
  {
    hide EocdPos, EocdFields, OpenAt, CdHeaderAt, Moved;
    EocdPosInside(f);
    if Detectable(f) {
      PrependingDetectable(p, f);
    } else if EocdFields(f, EocdPos(f).value).Zip64() {
      PrependingZip64(p, f);
    } else {
      PrependingGap(p, f);
    }
  }

  lemma {:induction false} PrintedEnd(a: Contents)
    requires a.Valid() && |a.Print()| < MAX_FILE && a.Opens()
    ensures EocdPos(a.Print()) == Some(a.EocdOffset()) && a.EocdOffset() + EOCD_MIN <= |a.Print()|
    ensures
      var e := EocdFields(a.Print(), a.EocdOffset());
      (e.Zip64() <==> a.NeedsZip64()) && (!e.Zip64() ==> e.offset as nat == a.CdOffset())
  {
    hide Contents.Print, Contents.EocdOffset, Contents.EocdBytes, Contents.UnambiguousEnd, EocdPos, EocdFields,
      EocdAt, HasAt, Contents.CdSize, Contents.CdOffset;
    EndFound(a);
    Placed(a);
    EocdPrinted(a.Print(), a.EocdOffset(), a);
  }

  /** What opening the archive gives with bytes put before it. */
  function OpenBehind(p: seq<byte>, f: seq<byte>): Result<Archive>
    requires |p| + |f| < MAX_FILE
  {
    Open(p + f)
  }

  /**
   Prefix detection on printed archives: it works exactly for archives without Zip64 records whose
   signature record, if any, is counted into the directory, and only if the prefix does not hide itself.
   */
  lemma {:induction false} PrependingPrinted(p: seq<byte>, a: Contents)
    requires a.Valid() && a.Opens() && a.members != [] && p != [] && |p| + |a.Print()| < MAX_FILE
    ensures Open(a.Print()) == Ok(a.Parsed())
    ensures
      OpenBehind(p, a.Print()) == Ok(Moved(a.Parsed(), |p|))
      <==> !a.NeedsZip64() && !a.signature.Behind? && !CdHeaderAt(p + a.Print(), a.CdOffset())
  {
    RoundTrip(a);
    PrintedEnd(a);
    PrintedGap(a);
    hide Open, Contents.Print, Contents.EocdOffset, Contents.NeedsZip64, Contents.Opens, Contents.Valid, EocdPos,
      EocdFields, CdHeaderAt, Moved, Entries;
    Prepending(p, a.Print());
  }

  /** Only a signature record behind the directory leaves a gap before the end record. */
  lemma {:induction false} PrintedGap(a: Contents)
    requires a.Valid() && |a.Print()| < MAX_FILE
    ensures !a.NeedsZip64() ==> (Contiguous(a.Parsed(), a.EocdOffset()) <==> !a.signature.Behind?)
  {
    hide Contents.Print, ValidMembers, Headers, Locals, Entries, Contents.NeedsZip64, Contents.Zip64RecordBytes,
      Contents.LocatorBytes;
  }

  // ----- appending ----------------------------------------------------------------------------

  lemma {:induction false} FieldBefore(f: seq<byte>, s: seq<byte>, at: nat, width: nat)
    requires at + width <= |f|
    ensures FieldAt(f + s, at, width) == FieldAt(f, at, width)
  {
    assert (f + s)[at..at + width] == f[at..at + width];
  }

  lemma {:induction false} EocdFieldsBefore(f: seq<byte>, s: seq<byte>, pos: nat)
    requires pos + EOCD_MIN <= |f|
    ensures EocdFields(f + s, pos) == EocdFields(f, pos) && EocdAt(f + s, pos) == EocdAt(f, pos)
  {
    FieldBefore(f, s, pos, 4);
    FieldBefore(f, s, pos + 4, 2);
    FieldBefore(f, s, pos + 6, 2);
    FieldBefore(f, s, pos + 10, 2);
    FieldBefore(f, s, pos + 12, 4);
    FieldBefore(f, s, pos + 16, 4);
    FieldBefore(f, s, pos + 20, 2);
    hide FieldAt;
  }

  lemma {:induction false} CdHeaderBefore(f: seq<byte>, s: seq<byte>, at: nat)
    requires at + 4 <= |f|
    ensures CdHeaderAt(f + s, at) == CdHeaderAt(f, at)
  {
    FieldBefore(f, s, at, 4);
  }

  /** The appended bytes complete a signature record right behind a directory block ending at `end`. */
  predicate SignatureBorn(f: seq<byte>, s: seq<byte>, end: nat) {
    |f| < end + 6 <= |f + s| && U32At(f + s, end) == ARCHIVE_SIG_SIG
  }

  lemma {:induction false} SignatureBefore(f: seq<byte>, s: seq<byte>, start: nat, size: nat, consumed: nat)
    requires start + size <= |f| && consumed <= size
    ensures
      SignatureLen(f + s, start, size, consumed) == SignatureLen(f, start, size, consumed)
      <==> !(consumed == size && SignatureBorn(f, s, start + size))
  {
    if size - consumed >= 6 {
      FieldBefore(f, s, start + consumed, 4);
      FieldBefore(f, s, start + consumed + 4, 2);
    }
    if start + size + 6 <= |f| {
      FieldBefore(f, s, start + size, 4);
      FieldBefore(f, s, start + size + 4, 2);
    }
    hide FieldAt;
  }

  lemma {:induction false} Zip64RecordBefore(f: seq<byte>, s: seq<byte>, at: nat)
    requires at + 56 <= |f|
    ensures Zip64Record(f + s, at) == Zip64Record(f, at) && U32At(f + s, at) == U32At(f, at)
  {
    FieldBefore(f, s, at, 4);
    FieldBefore(f, s, at + 16, 4);
    FieldBefore(f, s, at + 20, 4);
    FieldBefore(f, s, at + 32, 8);
    FieldBefore(f, s, at + 40, 8);
    FieldBefore(f, s, at + 48, 8);
    hide FieldAt;
  }

  /** The directory location survives, but for the locator leaving the scanned tail. */
  lemma {:induction false} LocateBefore(f: seq<byte>, s: seq<byte>, pos: nat)
    requires ScanStart(|f + s|) <= pos && pos + EOCD_MIN <= |f| && Locate(f, pos).Ok?
    ensures Locate(f + s, pos) ==
      if EocdFields(f, pos).Zip64() && pos - ScanStart(|f + s|) < ZIP64_LOCATOR_LEN then Err(Zip64Unsupported)
      else Locate(f, pos)
  {
    hide EocdFields, Zip64Record, FieldAt;
    EocdFieldsBefore(f, s, pos);
    if EocdFields(f, pos).Zip64() {
      FieldBefore(f, s, pos - 20, 4);
      FieldBefore(f, s, pos - 12, 8);
      Zip64RecordBefore(f, s, U64At(f, pos - 12));
    }
  }

  lemma {:induction false} PrefixBefore(f: seq<byte>, s: seq<byte>, pos: nat, d: Directory)
    requires pos + EOCD_MIN <= |f|
    ensures PrefixLen(f + s, pos, d) == PrefixLen(f, pos, d)
  {
    hide CdHeaderAt;
    if !d.zip64 && pos > d.offset + d.size {
      CdHeaderBefore(f, s, d.offset);
      CdHeaderBefore(f, s, d.offset + (pos - (d.offset + d.size)));
    }
  }

  /** Appended bytes leave the end record where the parser finds it. */
  ghost predicate KeepsEnd(f: seq<byte>, s: seq<byte>, pos: nat)
    requires pos + EOCD_MIN <= |f|
  {
    && pos >= ScanStart(|f + s|)
    && (forall i :: pos < i ==> !EocdAt(f + s, i))
    && (EocdFields(f, pos).Zip64() ==> pos - ScanStart(|f + s|) >= ZIP64_LOCATOR_LEN)
  }

  /** How many bytes of its directory block an archive's headers take. */
  function HeadersLen(f: File, a: Archive): nat
    requires a.summary.centralDirOffset + a.summary.centralDirSize <= |f|
  {
    var start, size := a.summary.centralDirOffset, a.summary.centralDirSize;
    match EntriesFrom(f[start..start + size], 0, |a.entries|)
    case Ok(parsed) => parsed.1
    case Err(_) => 0
  }

  /** No signature record is completed behind the archive's headers. */
  predicate KeepsSignature(f: File, s: seq<byte>, a: Archive)
    requires a.summary.centralDirOffset + a.summary.centralDirSize <= |f|
  {
    var start, size := a.summary.centralDirOffset, a.summary.centralDirSize;
    !(HeadersLen(f, a) == size && SignatureBorn(f, s, start + size))
  }

  /** The directory of an opened archive. */
  lemma {:induction false} OpenedDirectory(f: File, pos: nat)
    requires EocdPos(f) == Some(pos) && Open(f).Ok?
    ensures pos + EOCD_MIN <= |f| && ScanStart(|f|) <= pos && Locate(f, pos).Ok?
    ensures
      var m, d := Open(f).value.summary, Locate(f, pos).value;
      && d.offset + PrefixLen(f, pos, d) == m.centralDirOffset && d.size == m.centralDirSize && d.total <= MAX_ENTRIES
      && m.centralDirOffset + m.centralDirSize <= |f| && d.total == |Open(f).value.entries|
      && EntriesFrom(f[m.centralDirOffset..m.centralDirOffset + d.size], 0, d.total).Ok?
  {
    hide EocdPos, EocdFields, SignatureLen, ScanStart, EntriesFrom, PrefixLen, Shifted, Locate;
    EocdPosInside(f);
  }

  /** Opening with the end record where it was gives the same archive, unless a signature record was completed. */
  lemma {:induction false} OpenedBefore(f: File, s: seq<byte>, pos: nat)
    requires |f| + |s| < MAX_FILE && Open(f).Ok? && EocdPos(f) == Some(pos) && EocdPos(f + s) == Some(pos)
    ensures pos + EOCD_MIN <= |f| && ScanStart(|f + s|) <= pos
    ensures Open(f).value.summary.centralDirOffset + Open(f).value.summary.centralDirSize <= |f|
    ensures
      var a := Open(f).value;
      var want := Ok(Archive(a.entries, a.summary.(fileLen := |f| + |s|)));
      Open(f + s) == want
      <==> KeepsSignature(f, s, a) && (EocdFields(f, pos).Zip64() ==> pos - ScanStart(|f + s|) >= ZIP64_LOCATOR_LEN)
  {
    hide EocdPos, EocdFields, EocdAt, SignatureLen, ScanStart, EntriesFrom, PrefixLen, Shifted, Locate, SignatureBorn;
    OpenedDirectory(f, pos);
    EocdPosInside(f + s);
    EocdFieldsBefore(f, s, pos);
    LocateBefore(f, s, pos);
    var d := Locate(f, pos).value;
    PrefixBefore(f, s, pos, d);
    var start := d.offset + PrefixLen(f, pos, d);
    assert (f + s)[start..start + d.size] == f[start..start + d.size];
    SignatureBefore(f, s, start, d.size, EntriesFrom(f[start..start + d.size], 0, d.total).value.1);
  }

  /**
   Appending bytes changes nothing of the parsed archive but the file length, exactly when the end
   record (and a Zip64 locator) stays in the scanned tail, no later signature of it appears, and no
   signature record is completed right behind the headers.
   */
  lemma {:induction false} Appending(f: File, s: seq<byte>)
    requires |f| + |s| < MAX_FILE && Open(f).Ok?
    ensures EocdPos(f).Some? && EocdPos(f).value + EOCD_MIN <= |f|
    ensures Open(f).value.summary.centralDirOffset + Open(f).value.summary.centralDirSize <= |f|
    ensures
      var a := Open(f).value;
      Open(f + s) == Ok(Archive(a.entries, a.summary.(fileLen := |f| + |s|)))
      <==> KeepsEnd(f, s, EocdPos(f).value) && KeepsSignature(f, s, a)
  {
    hide EocdPos, EocdFields, EocdAt, ScanStart, OpenAt, KeepsSignature;
    EocdPosInside(f);
    EocdPosInside(f + s);
    var pos := EocdPos(f).value;
    OpenedDirectory(f, pos);
    EocdPosIsLast(f, pos);
    EocdPosIsLast(f + s, pos);
    EocdFieldsBefore(f, s, pos);
    OpenedPosition(f, pos);
    var a := Open(f).value;
    if Open(f + s) == Ok(Archive(a.entries, a.summary.(fileLen := |f| + |s|))) {
      OpenedPosition(f + s, EocdPos(f + s).value);
      assert EocdPos(f + s) == Some(pos);
    }
    if EocdPos(f + s) == Some(pos) {
      OpenedBefore(f, s, pos);
    }
  }
}
