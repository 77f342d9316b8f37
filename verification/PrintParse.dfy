/** Parsing a printed archive: when it succeeds, and that it then returns what was printed. */
module PrintParse {
  import opened Wrappers
  import opened Bytes
  import opened Archive
  import opened Container
  import opened Printer

  /** Where each part of a printed archive stands. */
  lemma {:induction false} Placed(a: Contents)
    requires a.Valid()
    ensures HasAt(a.Print(), 0, Locals(a.members))
    ensures HasAt(a.Print(), a.CdOffset(), Headers(a.members, 0))
    ensures HasAt(a.Print(), a.CdOffset() + |Headers(a.members, 0)|, a.SignatureBytes())
    ensures HasAt(a.Print(), a.EndOffset(), a.Zip64Bytes())
    ensures HasAt(a.Print(), a.EocdOffset(), a.EocdBytes())
    ensures |a.Print()| == a.EocdOffset() + EOCD_MIN + |a.comment|
    ensures a.Print()[a.EocdOffset()..] == a.EocdBytes() + a.comment
  {
    hide Locals, Headers, Contents.SignatureBytes, Contents.Zip64Bytes, Contents.EocdBytes, Le;
    var file := a.Print();
    assert HasAt(file, 0, file);
    var end := a.EocdBytes() + a.comment;
    var rest := a.Zip64Bytes() + end;
    var signed := a.SignatureBytes() + rest;
    HasAtConcat(file, 0, Locals(a.members), Headers(a.members, 0) + signed);
    HasAtConcat(file, a.CdOffset(), Headers(a.members, 0), signed);
    HasAtConcat(file, a.CdOffset() + |Headers(a.members, 0)|, a.SignatureBytes(), rest);
    HasAtConcat(file, a.EndOffset(), a.Zip64Bytes(), end);
    HasAtConcat(file, a.EocdOffset(), a.EocdBytes(), a.comment);
    TailOf(file, a.EocdOffset(), end);
  }

  lemma {:induction false} TailOf(file: seq<byte>, at: nat, x: seq<byte>)
    requires HasAt(file, at, x) && at + |x| == |file|
    ensures file[at..] == x
  {
    assert file[at..] == file[at..at + |x|];
  }

  /** The printed end record reads back. */
  lemma {:induction false} EocdPrinted(file: seq<byte>, at: nat, a: Contents)
    requires a.Valid() && HasAt(file, at, a.EocdBytes())
    ensures EocdAt(file, at)
    ensures EocdFields(file, at) ==
      Eocd(a.disk, a.startDisk, a.ClipCount(), Clip(a.CdSize()), Clip(a.CdOffset()), |a.comment|)
  {
    Ranges();
    PartsInPlace(file);
    FieldsReadBack(file);
    hide HasAt, FieldAt, FromLe, Le, Clip, Range, Contents.ClipCount, Contents.CdSize, Contents.CdOffset;
  }

  /** Later matches of the end signature are those in the comment. */
  lemma {:induction false} LaterEnds(file: seq<byte>, pos: nat, tail: seq<byte>)
    requires pos + EOCD_MIN <= |file| && tail == file[pos..]
    ensures
      (forall i :: pos < i ==> !EocdAt(file, i))
      <==> forall i :: 0 < i <= |tail| - EOCD_MIN ==> U32At(tail, i) != EOCD_SIG
  {
    hide U32At;
    assert tail == file[pos..|file|];
    if forall i :: pos < i ==> !EocdAt(file, i) {
      forall i | 0 < i <= |tail| - EOCD_MIN
        ensures U32At(tail, i) != EOCD_SIG
      {
        assert !EocdAt(file, pos + i);
        U32Shift(file, pos, i);
      }
    }
    if forall i :: 0 < i <= |tail| - EOCD_MIN ==> U32At(tail, i) != EOCD_SIG {
      forall i | pos < i
        ensures !EocdAt(file, i)
      {
        if i + EOCD_MIN <= |file| {
          assert U32At(tail, i - pos) != EOCD_SIG;
          U32Shift(file, pos, i - pos);
        }
      }
    }
  }

  /** The end record the parser finds is the printed one exactly when the comment hides no later one. */
  lemma {:induction false} EndFound(a: Contents)
    requires a.Valid()
    ensures EocdPos(a.Print()) == Some(a.EocdOffset()) <==> a.UnambiguousEnd()
  {
    hide Contents.Print, Contents.EocdOffset, Contents.EocdBytes, EocdPos, EocdAt, U32At, HasAt;
    var file, pos := a.Print(), a.EocdOffset();
    Placed(a);
    EocdPrinted(file, pos, a);
    EocdPosIsLast(file, pos);
    LaterEnds(file, pos, a.EocdBytes() + a.comment);
  }

  lemma {:induction false} U32Shift(file: seq<byte>, pos: nat, i: nat)
    requires pos + i + 4 <= |file|
    ensures U32At(file[pos..|file|], i) == U32At(file, pos + i)
  {
    FieldShift(file, pos, |file|, i, 4);
  }

  // ----- the directory location ---------------------------------------------------------------

  function DirectoryOf(a: Contents): Directory
    requires a.Valid() && a.CdOffset() < MAX_FILE && a.CdSize() < MAX_FILE
  {
    Directory(a.CdOffset(), a.CdSize(), |a.members|, a.disk, a.startDisk, a.NeedsZip64())
  }

  lemma {:induction false} Zip64Printed(file: seq<byte>, at: nat, a: Contents)
    requires a.Valid() && a.NeedsZip64() && HasAt(file, at, a.Zip64Bytes())
    requires a.CdOffset() < MAX_FILE && a.CdSize() < MAX_FILE && |a.members| < MAX_FILE && a.EndOffset() < MAX_FILE
    ensures |a.Zip64Bytes()| == 76
    ensures at + 76 <= |file| && U32At(file, at) == ZIP64_EOCD_SIG && Zip64Record(file, at) == DirectoryOf(a)
    ensures U32At(file, at + 56) == ZIP64_LOCATOR_SIG && U64At(file, at + 64) == a.EndOffset()
  {
    Ranges();
    PartsInPlace(file);
    FieldsReadBack(file);
    hide HasAt, FieldAt, FromLe, Le, Range, Contents.CdSize, Contents.CdOffset, Contents.EndOffset, Contents.NeedsZip64;
  }

  /**
   The directory location inverts its encoding, with or without Zip64 records. The exception is the
   code's: it looks for the Zip64 locator only inside the scanned tail, so a comment longer than
   65515 bytes makes it refuse a well-formed Zip64 archive.
   */
  lemma {:induction false} LocationPrinted(a: Contents)
    requires a.Valid() && |a.Print()| < MAX_FILE
    ensures ScanStart(|a.Print()|) <= a.EocdOffset() && a.EocdOffset() + EOCD_MIN <= |a.Print()|
    ensures a.CdOffset() < MAX_FILE && a.CdSize() < MAX_FILE
    ensures Locate(a.Print(), a.EocdOffset()) ==
      if a.NeedsZip64() && |a.comment| > 65515 then Err(Zip64Unsupported) else Ok(DirectoryOf(a))
  {
    hide HasAt, Headers, Locals, U32At, U64At, Zip64Record, EocdFields, Contents.Print, Contents.Zip64Bytes,
      Contents.EocdBytes, Contents.SignatureBytes;
    Placed(a);
    CountBound(a.members, 0);
    EocdPrinted(a.Print(), a.EocdOffset(), a);
    assert a.EndOffset() <= |a.Print()|;
    if a.NeedsZip64() {
      Zip64Printed(a.Print(), a.EndOffset(), a);
    }
  }

  /** Every member takes at least a byte of the directory. */
  lemma {:induction false} CountBound(ms: seq<Member>, base: nat)
    requires ValidMembers(ms, base)
    ensures |ms| <= |Headers(ms, base)|
  {
    hide ValidMember, LocalRecord, CentralFixedBytes;
    if ms != [] {
      CountBound(ms[1..], base + |LocalRecord(ms[0])|);
    }
  }

  /** No prefix is detected in a printed archive, wherever its signature record is counted. */
  lemma {:induction false} NoPrefix(a: Contents)
    requires a.Valid() && |a.Print()| < MAX_FILE && a.CdOffset() < MAX_FILE && a.CdSize() < MAX_FILE
    requires a.EocdOffset() <= |a.Print()|
    ensures PrefixLen(a.Print(), a.EocdOffset(), DirectoryOf(a)) == 0
  {
    hide HasAt, Locals, CentralRecord, U32At, Contents.Print, Contents.EocdBytes, CdHeaderAt;
    if !a.NeedsZip64() {
      NoZip64(a);
      if a.members == [] {
        NoHeaderAtEnd(a);
      } else {
        HeaderAtStart(a);
      }
    }
  }

  lemma {:induction false} NoHeaderAtEnd(a: Contents)
    requires a.Valid()
    ensures !CdHeaderAt(a.Print(), a.EocdOffset())
  {
    hide HasAt, Locals, U32At, Contents.Print, Contents.EocdBytes, Contents.EocdOffset;
    Placed(a);
    EocdPrinted(a.Print(), a.EocdOffset(), a);
  }

  lemma {:induction false} HeaderAtStart(a: Contents)
    requires a.Valid() && a.members != []
    ensures CdHeaderAt(a.Print(), a.CdOffset())
  {
    hide HasAt, Locals, CentralRecord, LocalRecord, U32At, Contents.Print;
    Placed(a);
    HasAtConcat(a.Print(), a.CdOffset(), CentralRecord(a.members[0], 0),
      Headers(a.members[1..], |LocalRecord(a.members[0])|));
    EntryStart(a.Print(), a.CdOffset(), a.members[0], 0);
  }

  lemma {:induction false} EntryStart(file: seq<byte>, at: nat, m: Member, offset: nat)
    requires ValidMember(m, offset) && HasAt(file, at, CentralRecord(m, offset))
    ensures CdHeaderAt(file, at)
  {
    HasAtConcat(file, at, CentralFixedBytes(m, offset), m.name + (ExtraBytes(Extras(m, offset)) + m.comment));
    CentralFixedPrinted(file, at, m, offset);
  }

  /** The signature record is recognised in both places, and nothing else is taken for one. */
  lemma {:induction false} SignaturePrinted(a: Contents)
    requires a.Valid()
    ensures a.CdOffset() + a.CdSize() <= |a.Print()|
    ensures SignatureLen(a.Print(), a.CdOffset(), a.CdSize(), |Headers(a.members, 0)|) ==
      if a.signature.Unsigned? then None else Some(|a.signature.body|)
  {
    hide Locals, Headers, U32At, U16At, Contents.Print, Contents.EocdBytes, Contents.Zip64Bytes, HasAt;
    Placed(a);
    var file, at := a.Print(), a.CdOffset() + |Headers(a.members, 0)|;
    if a.signature.Unsigned? {
      NextRecord(file, at, a);
    } else {
      SignatureRead(file, at, a);
    }
  }

  lemma {:induction false} SignatureRead(file: seq<byte>, at: nat, a: Contents)
    requires a.Valid() && !a.signature.Unsigned? && HasAt(file, at, a.SignatureBytes())
    ensures |a.SignatureBytes()| == 6 + |a.signature.body| && at + 6 <= |file|
    ensures U32At(file, at) == ARCHIVE_SIG_SIG && U16At(file, at + 4) == |a.signature.body|
  {
    Ranges();
    PartsInPlace(file);
    FieldsReadBack(file);
    hide FieldAt, FromLe, Le, Range;
  }

  /** What follows an unsigned directory is not a signature record. */
  lemma {:induction false} NextRecord(file: seq<byte>, at: nat, a: Contents)
    requires a.Valid() && HasAt(file, at, a.Zip64Bytes()) && HasAt(file, at + |a.Zip64Bytes()|, a.EocdBytes())
    ensures at + 4 <= |file| && U32At(file, at) != ARCHIVE_SIG_SIG
  {
    hide HasAt, U32At, Contents.Zip64Bytes, Contents.EocdBytes, Contents.CdSize, Contents.CdOffset, Contents.EndOffset;
    if a.NeedsZip64() {
      Zip64Start(file, at, a);
    } else {
      NoZip64(a);
      EocdPrinted(file, at, a);
    }
  }

  lemma {:induction false} NoZip64(a: Contents)
    requires a.Valid() && !a.NeedsZip64()
    ensures a.Zip64Bytes() == []
  {
  }

  lemma {:induction false} Zip64Start(file: seq<byte>, at: nat, a: Contents)
    requires a.Valid() && a.NeedsZip64() && HasAt(file, at, a.Zip64Bytes())
    ensures at + 4 <= |file| && U32At(file, at) == ZIP64_EOCD_SIG
  {
    hide HasAt, FieldAt, Le, Range, Contents.LocatorBytes, Contents.Zip64RecordBytes;
    Ranges();
    HasAtConcat(file, at, a.Zip64RecordBytes(), a.LocatorBytes());
    RecordStart(a);
    HasAtConcat(file, at, Le(ZIP64_EOCD_SIG, 4), a.Zip64RecordBytes()[4..]);
    ReadBack(file, at, ZIP64_EOCD_SIG, 4);
  }

  lemma {:induction false} RecordStart(a: Contents)
    requires a.Valid()
    ensures a.Zip64RecordBytes() == Le(ZIP64_EOCD_SIG, 4) + a.Zip64RecordBytes()[4..]
  {
    hide Le, Contents.CdSize, Contents.CdOffset, ValidMembers;
  }

  // ----- the round trip -----------------------------------------------------------------------

  lemma {:induction false} OpenedAtEnd(a: Contents)
    requires a.Valid() && |a.Print()| < MAX_FILE
    ensures ScanStart(|a.Print()|) <= a.EocdOffset() && a.EocdOffset() + EOCD_MIN <= |a.Print()|
    ensures OpenAt(a.Print(), a.EocdOffset()) ==
      if a.NeedsZip64() && |a.comment| > 65515 then Err(Zip64Unsupported)
      else if |a.members| > 16_000_000 then Err(TooManyEntries(|a.members|))
      else Ok(a.Parsed())
  {
    hide HasAt, Locals, Headers, Entries, Locate, PrefixLen, SignatureLen, EntriesFrom, Shifted, EocdFields, EocdAt,
      ScanStart, Contents.Print, Contents.EocdBytes, Contents.Zip64Bytes, Contents.SignatureBytes,
      Contents.NeedsZip64, Contents.EocdOffset, Contents.EndOffset, Contents.CdSize, Contents.CdOffset;
    Placed(a);
    LocationPrinted(a);
    NoPrefix(a);
    SignaturePrinted(a);
    EocdPrinted(a.Print(), a.EocdOffset(), a);
    DirectoryRead(a);
    ShiftByZero(Entries(a.members, 0));
  }

  lemma {:induction false} DirectoryRead(a: Contents)
    requires a.Valid() && a.CdOffset() + a.CdSize() <= |a.Print()|
    ensures EntriesFrom(a.Print()[a.CdOffset()..a.CdOffset() + a.CdSize()], 0, |a.members|) ==
      Ok((Entries(a.members, 0), |Headers(a.members, 0)|))
  {
    hide Locals, Headers, Entries, EntriesFrom, Contents.Print, Contents.EocdBytes, Contents.Zip64Bytes;
    Placed(a);
    var file, at := a.Print(), a.CdOffset();
    var cd := file[at..at + a.CdSize()];
    var h := Headers(a.members, 0);
    assert cd[0..|h|] == file[at..at + |h|];
    assert HasAt(cd, 0, h);
    EntriesPrinted(cd, 0, a.members, 0);
  }

  /**
   Print/parse round trip: the parser returns the printed members in order, with every 64-bit size
   and offset, exactly when the archive `Opens`.
   */
  lemma {:induction false} RoundTrip(a: Contents)
    requires a.Valid() && |a.Print()| < MAX_FILE
    ensures Open(a.Print()) == Ok(a.Parsed()) <==> a.Opens()
  {
    hide OpenAt, EocdPos, Contents.UnambiguousEnd, Contents.Print, Contents.EocdOffset, Contents.NeedsZip64,
      ScanStart, HasAt;
    EndFound(a);
    OpenedAtEnd(a);
    EocdPosInside(a.Print());
    if Open(a.Print()) == Ok(a.Parsed()) {
      OpenedPosition(a.Print(), EocdPos(a.Print()).value);
      Placed(a);
    }
  }

  /** A parsed archive tells where its end record stands. */
  lemma {:induction false} OpenedPosition(file: File, pos: nat)
    requires ScanStart(|file|) <= pos && pos + EOCD_MIN <= |file| && OpenAt(file, pos).Ok?
    ensures var s := OpenAt(file, pos).value.summary; pos == s.eocdEndOffset - EOCD_MIN - s.commentLen
  {
    hide EntriesFrom, Shifted, SignatureLen, PrefixLen, Locate, EocdFields;

  }

  // ----- the structural view ------------------------------------------------------------------

  function FieldsOf(m: Member): HeaderFields
    requires |m.data| < MAX_FILE
  {
    HeaderFields(m.name, m.method_, m.flags, m.crc32, |m.data|, m.uncompressedSize)
  }

  /** The local copy, whose sizes are 32-bit fields. */
  function LocalFieldsOf(m: Member): HeaderFields {
    HeaderFields(m.name, m.method_, m.flags, m.crc32, Clip(|m.data|), Clip(m.uncompressedSize))
  }

  function DataStart(m: Member, offset: nat): nat {
    offset + LFH_FIXED + |m.name| + |m.localExtra|
  }

  lemma {:induction false} LocalPrinted(file: seq<byte>, at: nat, m: Member)
    requires HasAt(file, at, LocalRecord(m)) && |m.name| < 0x1_0000 && |m.localExtra| < 0x1_0000
    ensures LocalAt(file, at) == Ok((LocalFieldsOf(m), DataStart(m, at)))
    ensures HasAt(file, DataStart(m, at), m.data)
  {
    hide LocalFixedAt, LocalFixedBytes, U32At, U16At, Clip;
    var nameEnd := at + LFH_FIXED + |m.name|;
    HasAtConcat(file, at, LocalFixedBytes(m), m.name + (m.localExtra + (m.data + m.descriptor)));
    HasAtConcat(file, at + LFH_FIXED, m.name, m.localExtra + (m.data + m.descriptor));
    HasAtConcat(file, nameEnd, m.localExtra, m.data + m.descriptor);
    HasAtConcat(file, nameEnd + |m.localExtra|, m.data, m.descriptor);
    LocalFixedPrinted(file, at, m);
  }

  lemma {:induction false} CentralIs(m: Member, offset: nat)
    requires ValidMember(m, offset)
    ensures CentralFields(EntryOf(m, offset)) == FieldsOf(m) && EntryOf(m, offset).lfhOffset as nat == offset
  {
    hide Extras, AesRecord;
  }

  lemma {:induction false} LocalsPrinted(file: seq<byte>, base: nat, ms: seq<Member>, i: nat)
    requires ValidMembers(ms, base) && HasAt(file, base, Locals(ms)) && i < |ms|
    ensures
      var e := Entries(ms, base)[i];
      && |ms[i].data| < MAX_FILE && CentralFields(e) == FieldsOf(ms[i])
      && LocalAt(file, e.lfhOffset) == Ok((LocalFieldsOf(ms[i]), DataStart(ms[i], e.lfhOffset)))
      && HasAt(file, DataStart(ms[i], e.lfhOffset), ms[i].data)
    decreases i
  {
    hide LocalRecord, LocalAt, HasAt, EntryOf, FieldsOf, LocalFieldsOf, DataStart, CentralFields;
    var next := base + |LocalRecord(ms[0])|;
    HasAtConcat(file, base, LocalRecord(ms[0]), Locals(ms[1..]));
    if i == 0 {
      LocalPrinted(file, base, ms[0]);
      CentralIs(ms[0], base);
    } else {
      LocalsPrinted(file, next, ms[1..], i - 1);
      assert Entries(ms, base)[i] == Entries(ms[1..], next)[i - 1];
    }
  }

  /** The view succeeds exactly when every local header reads, and lists them in order. */
  lemma {:induction false} LayoutsAll(file: seq<byte>, entries: seq<CentralEntry>, index: nat)
    requires index <= |entries|
    ensures LayoutsFrom(file, entries, index).Ok? <==> forall i :: index <= i < |entries| ==>
      LocalAt(file, entries[i].lfhOffset).Ok?
    ensures LayoutsFrom(file, entries, index).Ok? ==>
      forall i :: index <= i < |entries| ==>
        LayoutsFrom(file, entries, index).value[i - index] ==
          LayoutOf(i, entries[i], LocalAt(file, entries[i].lfhOffset).value)
    decreases |entries| - index
  {
    hide LocalAt;
    if index < |entries| {
      LayoutsAll(file, entries, index + 1);
    }
  }

  lemma {:induction false} LayoutsAre(file: seq<byte>, entries: seq<CentralEntry>)
    ensures
      LayoutsFrom(file, entries, 0).Ok? <==> forall i :: 0 <= i < |entries| ==> LocalAt(file, entries[i].lfhOffset).Ok?
    ensures LayoutsFrom(file, entries, 0).Ok? ==>
      forall i :: 0 <= i < |entries| ==>
        LayoutsFrom(file, entries, 0).value[i] == LayoutOf(i, entries[i], LocalAt(file, entries[i].lfhOffset).value)
  {
    hide LocalAt, LayoutsFrom;
    LayoutsAll(file, entries, 0);
    if LayoutsFrom(file, entries, 0).Ok? {
      forall i | 0 <= i < |entries|
        ensures
          LayoutsFrom(file, entries, 0).value[i] == LayoutOf(i, entries[i], LocalAt(file, entries[i].lfhOffset).value)
      {
        assert i - 0 == i;
      }
    }
  }

  /**
   The structural view of a printed archive: for every member its central fields, the local copy of
   them, and the offset of its first data byte. The copies are equal unless a size does not fit 32 bits.
   */
  lemma {:induction false} ViewRoundTrip(a: Contents)
    requires a.Valid() && |a.Print()| < MAX_FILE && a.Opens()
    ensures
      var view := StructuralView(a.Print());
      && view.Ok? && |view.value| == |a.members|
      && forall i :: 0 <= i < |a.members| ==>
           var m, layout := a.members[i], view.value[i];
           && |m.data| < MAX_FILE && layout.index == i
           && layout.central == FieldsOf(m) && layout.local == LocalFieldsOf(m)
           && HasAt(a.Print(), layout.dataStart, m.data)
           && (layout.central == layout.local <==> |m.data| <= 0xFFFF_FFFF && m.uncompressedSize <= 0xFFFF_FFFF)
  {
    hide Open, LocalAt, HasAt, Contents.Print, Locals, Contents.Opens;
    RoundTrip(a);
    Placed(a);
    var entries := Entries(a.members, 0);
    forall i | 0 <= i < |entries|
      ensures |a.members[i].data| < MAX_FILE && CentralFields(entries[i]) == FieldsOf(a.members[i])
      ensures LocalAt(a.Print(), entries[i].lfhOffset) ==
        Ok((LocalFieldsOf(a.members[i]), DataStart(a.members[i], entries[i].lfhOffset)))
      ensures HasAt(a.Print(), DataStart(a.members[i], entries[i].lfhOffset), a.members[i].data)
    {
      LocalsPrinted(a.Print(), 0, a.members, i);
    }
    LayoutsAll(a.Print(), entries, 0);
  }
}
