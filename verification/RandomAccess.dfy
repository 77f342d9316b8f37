/**
 Opening an entry of an archive by its name for random access (core/src/lib.rs): the parser, the
 sequential decoder and the layouts together.
 */
module RandomAccess {
  import opened Wrappers
  import opened Bytes
  import opened Streams
  import opened Archive
  import opened Container
  import opened Printer
  import opened PrintParse
  import opened StoredBlocks
  import opened Layouts
  import opened Extract
  import Format
  import D64 = Deflate64Seek

  // ----- by name --------------------------------------------------------------------------------

  /** The first entry of the name. */
  function Find(es: seq<CentralEntry>, name: seq<byte>): (r: Option<nat>)
    ensures
      r.Some? ==> r.value < |es| && es[r.value].name == name && forall i :: 0 <= i < r.value ==> es[i].name != name
    ensures r.None? ==> forall i :: 0 <= i < |es| ==> es[i].name != name
  {
    if es == [] then None
    else
      var before := Find(es[..|es| - 1], name);
      if before.None? && es[|es| - 1].name == name then Some(|es| - 1) else before
  }

  method FindByName(es: seq<CentralEntry>, name: seq<byte>) returns (r: Option<nat>)
    ensures r == Find(es, name)
  {
    for i := 0 to |es|
      invariant forall j :: 0 <= j < i ==> es[j].name != name
    {
      if es[i].name == name {
        return Some(i);
      }
    }
    r := None;
  }

  function CompressionOf(method_: uint16): Compression {
    if method_ == 0 then Stored else if method_ == 8 then Deflated else if method_ == 9 then Deflate64 else Other
  }

  /** What `by_name` reports of an entry it can open. */
  function Describe(c: Crates, file: File, a: Archive, e: CentralEntry): Result<Described> {
    if ForeignDisk(e, a.summary).Some? then Err(SpannedArchive(ForeignDisk(e, a.summary).value))
    else if Bit(e.flags as nat, ENCRYPTED) then Err(EncryptedNoPassword)
    else
      var local :- LocalAt(file, e.lfhOffset);
      var _ :- Decoded(c, e.method_, e.uncompressedSize, Plainly(Taken(file, local.1, e.compressedSize)));
      LocalFits(file, e.lfhOffset);
      Ok(Described(CompressionOf(e.method_), local.1, e.compressedSize, e.uncompressedSize))
  }

  function DescribeNamed(c: Crates, file: File, name: seq<byte>): Result<Described> {
    var a :- Open(file);
    match Find(a.entries, name)
    case None => Err(EntryNotFound)
    case Some(i) => Describe(c, file, a, a.entries[i])
  }

  /** What the named entry decodes to from its start. */
  function ReadNamed(c: Crates, file: File, name: seq<byte>): Result<seq<byte>> {
    var a :- Open(file);
    match Find(a.entries, name)
    case None => Err(EntryNotFound)
    case Some(i) => ReadOpen(c, file, a, a.entries[i])
  }

  /** Entry `i` has the name, and no earlier one has. */
  predicate FirstWith(es: seq<CentralEntry>, name: seq<byte>, i: nat) {
    i < |es| && es[i].name == name && forall j :: 0 <= j < i ==> es[j].name != name
  }

  predicate NoneWith(es: seq<CentralEntry>, name: seq<byte>) {
    forall i :: 0 <= i < |es| ==> es[i].name != name
  }

  lemma {:induction false} FirstFound(es: seq<CentralEntry>, name: seq<byte>)
    ensures Find(es, name) == None <==> NoneWith(es, name)
    ensures forall i: nat :: Find(es, name) == Some(i) <==> FirstWith(es, name, i)
  {
  }

  /** An archive that does not open is refused as such, and so is a name that no entry has. */
  lemma {:induction false} NamedEntry(c: Crates, file: File, name: seq<byte>)
    ensures
      match Open(file)
      case Err(e) => DescribeNamed(c, file, name) == Err(e) && ReadNamed(c, file, name) == Err(e)
      case Ok(a) =>
        && (NoneWith(a.entries, name) ==>
              DescribeNamed(c, file, name) == Err(EntryNotFound) && ReadNamed(c, file, name) == Err(EntryNotFound))
        && (forall i: nat :: FirstWith(a.entries, name, i) ==>
              && DescribeNamed(c, file, name) == Describe(c, file, a, a.entries[i])
              && ReadNamed(c, file, name) == ReadOpen(c, file, a, a.entries[i]))
  {
    hide Open, Describe, ReadOpen, Find, NoneWith;
    if Open(file).Ok? {
      FirstFound(Open(file).value.entries, name);
    }
  }

  /**
   Which entries can be opened for random access: those on this disk that are not encrypted, have a local
   header and a codec. Others are refused, for their disk first and then for their encryption.
   */
  lemma {:induction false} DescribedWhen(c: Crates, file: File, a: Archive, e: CentralEntry)
    ensures
      Describe(c, file, a, e).Ok?
      <==> OnThisDisk(e, a.summary) && !Format.IsEncrypted(e.flags) && LocalAt(file, e.lfhOffset).Ok?
           && Decoded(c, e.method_, e.uncompressedSize,
                Plainly(Window(file, LocalAt(file, e.lfhOffset).value.1, e.compressedSize))).Ok?
    ensures forall n: nat :: OnDisk(e, a.summary, n) ==> Describe(c, file, a, e) == Err(SpannedArchive(n))
    ensures OnThisDisk(e, a.summary) && Format.IsEncrypted(e.flags) ==>
      Describe(c, file, a, e) == Err(EncryptedNoPassword)
    ensures Describe(c, file, a, e).Ok? ==>
      var d := Describe(c, file, a, e).value;
      && d.dataStart as nat == LocalAt(file, e.lfhOffset).value.1 && d.compressedSize == e.compressedSize
      && d.size == e.uncompressedSize
      && (d.compression.Stored? <==> e.method_ == 0) && (d.compression.Deflated? <==> e.method_ == 8)
      && (d.compression.Deflate64? <==> e.method_ == 9)
  {
    hide Bit, LocalAt, ForeignDisk, Window, Decoded;
    DiskChecked(e, a.summary);
    FlagBits(e.flags);
  }

  /** The stream `st` is the described compressed data, as far as the file holds it. */
  ghost predicate CompressedAs<S(!new)>(d: Described, file: seq<byte>, st: D64.Stream<S>) {
    st.input == DataIn(d, file)
  }

  /** `open_entry`. */
  method OpenNamed<S(!new)>(c: Crates, m: D64.Machine<S>, ghost st: D64.Stream<S>, f: FileCursor, name: seq<byte>,
                            ghost ledger: D64.Ledger)
    returns (r: Result<Opened>)
    requires |f.data| < MAX_FILE && D64.Lawful(m, st)
    requires DescribeNamed(c, f.data, name).Ok? ==> CompressedAs(DescribeNamed(c, f.data, name).value, f.data, st)
    modifies f, ledger
    ensures DescribeNamed(c, f.data, name).Err? ==> r == Err(DescribeNamed(c, f.data, name).error)
    ensures r.Err? && DescribeNamed(c, f.data, name).Ok? ==>
      DescribeNamed(c, f.data, name).value.compression.Deflated? ||
        DescribeNamed(c, f.data, name).value.compression.Deflate64?
    ensures r.Ok? ==>
      DescribeNamed(c, f.data, name).Ok? && Chosen(r.value, DescribeNamed(c, f.data, name).value, f.data, m, st)
    ensures DescribeNamed(c, f.data, name).Ok? ==>
      var d := DescribeNamed(c, f.data, name).value;
      && (GoesToCodec(d, f.data) && d.compression.Deflated? ==> r == Ok(Opened(d.size, Fallback)))
      && (GoesToCodec(d, f.data) && d.compression.Deflate64? && Indexable(d, m, st) ==> r.Ok?)
  {
    hide Open, D64.Lawful, Describe, LocalAt, Chosen, Indexed, GoesToCodec, Indexable;
    var a :- ParseCentralDirectory(f);
    var i := FindByName(a.entries, name);
    if i.None? {
      return Err(EntryNotFound);
    }
    var d :- OpenForReading(c, f, a, a.entries[i.value]);
    r := Layouts.OpenEntry(m, st, f.data, d, ledger);
  }

  /** `open`, as far as random access needs its reader. */
  method OpenForReading(c: Crates, f: FileCursor, a: Archive, e: CentralEntry) returns (r: Result<Described>)
    requires |f.data| < MAX_FILE
    modifies f
    ensures r == Describe(c, f.data, a, e)
    ensures r.Ok? ==> r.value.dataStart <= |f.data| + 0xFFFF
  {
    hide LocalAt, Bit, Decoded, Taken;
    var disk := ForeignDisk(e, a.summary);
    if disk.Some? {
      return Err(SpannedArchive(disk.value));
    }
    if Bit(e.flags as nat, ENCRYPTED) {
      return Err(EncryptedNoPassword);
    }
    var local :- ReadLfhFields(f, e.lfhOffset);
    LocalFits(f.data, e.lfhOffset);
    var decoder :- Decoded(c, e.method_, e.uncompressedSize, Plainly(Taken(f.data, local.1, e.compressedSize)));
    r := Ok(Described(CompressionOf(e.method_), local.1, e.compressedSize, e.uncompressedSize));
  }

  // ----- the codecs' side -------------------------------------------------------------------------

  /** The deflate codecs decode a chain of stored blocks as section 3.2.4 of RFC 1951 says, whatever follows it. */
  ghost predicate DecodesChains(c: Crates, method_: uint16, size: uint64) {
    forall raw, tail :: ValidChain(raw) ==> Unpacks(c, method_, size, ChainBytes(raw) + tail, ChainContent(raw))
  }

  /** The Deflate64 codec and the seekable inflater make the same of the stream. */
  ghost predicate SameInflater<S(!new)>(c: Crates, size: uint64, st: D64.Stream<S>) {
    forall plain :: Unpacks(c, 9, size, st.input, plain) ==> plain == st.output
  }

  ghost predicate Conforms<S(!new)>(c: Crates, method_: uint16, size: uint64, st: D64.Stream<S>) {
    && (method_ == 8 || method_ == 9 ==> DecodesChains(c, method_, size))
    && (method_ == 9 ==> SameInflater(c, size, st))
  }

  lemma {:induction false} ChainIsPrefix(file: seq<byte>, start: nat, data: seq<byte>, raw: seq<RawBlock>)
    requires HasAt(file, start, data) && IsChain(file, start, start + |data|, raw)
    ensures ValidChain(raw) && data == ChainBytes(raw) + data[|ChainBytes(raw)|..]
  {
    hide ChainBytes, ValidChain;
    var n := |ChainBytes(raw)|;
    assert data[..n] == file[start..start + n];
  }

  lemma {:induction false} OneResult(c: Crates, method_: uint16, size: uint64, packed: seq<byte>, a: seq<byte>,
                                     b: seq<byte>)
    requires Unpacks(c, method_, size, packed, a) && Unpacks(c, method_, size, packed, b)
    ensures a == b
  {
  }

  /** What the archive's codec makes of the data is what the layouts are measured by. */
  lemma {:induction false} CodecDecodes<S(!new)>(c: Crates, file: File, st: D64.Stream<S>, method_: uint16,
                                                 d: Described, data: seq<byte>, plain: seq<byte>)
    requires InRange(d, file) && d.compression == CompressionOf(method_)
    requires d.compressedSize == |data| && HasAt(file, d.dataStart, data)
    requires st.input == data && Conforms(c, method_, d.size, st)
    requires Unpacks(c, method_, d.size, data, plain) && |plain| < MAX_FILE
    ensures DecodesTo(d, file, st, plain)
  {
    hide ChainBytes, ValidChain, ChainContent, IsChain, DecodesChains, SameInflater;
    if method_ == 8 || method_ == 9 {
      forall raw | IsChain(file, d.dataStart, d.dataStart + d.compressedSize, raw)
        ensures plain == ChainContent(raw)
      {
        ChainResult(c, file, d.dataStart, method_, d.size, data, plain, raw);
      }
    }
    if method_ == 9 {
      SameResult(c, d.size, st, plain);
    }
  }

  lemma {:induction false} ChainResult(c: Crates, file: seq<byte>, start: nat, method_: uint16, size: uint64,
                                       data: seq<byte>, plain: seq<byte>,
                                          raw: seq<RawBlock>)
    requires HasAt(file, start, data) && IsChain(file, start, start + |data|, raw)
    requires DecodesChains(c, method_, size) && Unpacks(c, method_, size, data, plain)
    ensures plain == ChainContent(raw)
  {
    hide ChainBytes, ValidChain, ChainContent, IsChain, Unpacks;
    ChainIsPrefix(file, start, data, raw);
    assert Unpacks(c, method_, size, ChainBytes(raw) + data[|ChainBytes(raw)|..], ChainContent(raw));
    OneResult(c, method_, size, data, plain, ChainContent(raw));
  }

  lemma {:induction false} SameResult<S(!new)>(c: Crates, size: uint64, st: D64.Stream<S>, plain: seq<byte>)
    requires SameInflater(c, size, st) && Unpacks(c, 9, size, st.input, plain)
    ensures plain == st.output
  {
  }

  // ----- random access to a printed archive -------------------------------------------------------

  /** Every read, with the entry decoded anew where the layout needs it, gives a window of `plain`. */
  ghost predicate GivesWindows<S(!new)>(c: Crates, file: File, name: seq<byte>, o: Opened, st: D64.Stream<S>,
                                        plain: seq<byte>)
    requires Serviceable(o) && (o.layout.Checkpointed? ==> o.size == |st.output|)
  {
    forall offset: nat, room: nat :: !Wraps(offset, room) ==>
      Answer(o, file, st, ReadNamed(c, file, name), offset, room) == Done(Window(plain, offset, room))
  }

  /** Where the printer put member `k`, as `by_name` describes it. */
  function MemberAt(a: Contents, k: nat): (d: Described)
    requires a.Valid() && k < |a.members| && |a.Print()| < MAX_FILE
  {
    var m, offset := a.members[k], Entries(a.members, 0)[k].lfhOffset;
    EntryIs(a.members, 0, k);
    Described(CompressionOf(m.method_), DataStart(m, offset), |m.data|, m.uncompressedSize)
  }

  lemma {:induction false} MemberInside(a: Contents, k: nat)
    requires a.Valid() && |a.Print()| < MAX_FILE && a.Opens() && k < |a.members|
    ensures
      var m, d := a.members[k], MemberAt(a, k);
      && LocalAt(a.Print(), Entries(a.members, 0)[k].lfhOffset) == Ok((LocalFieldsOf(m), d.dataStart as nat))
      && InRange(d, a.Print()) && HasAt(a.Print(), d.dataStart, m.data)
      && a.Print()[d.dataStart..d.dataStart + d.compressedSize] == m.data
  {
    hide LocalAt, Contents.Print, Locals, Contents.Opens, ValidMember, LocalFieldsOf;
    Placed(a);
    LocalsPrinted(a.Print(), 0, a.members, k);
    EntryIs(a.members, 0, k);
  }

  lemma {:induction false} NamesKept(ms: seq<Member>, base: nat, i: nat)
    requires ValidMembers(ms, base) && i < |ms|
    ensures Entries(ms, base)[i].name == ms[i].name
  {
    hide ValidMember, LocalRecord, Extras, AesRecord;
    EntryIs(ms, base, i);
  }

  lemma {:induction false} FoundByName(a: Contents, k: nat)
    requires a.Valid() && k < |a.members| && forall i :: 0 <= i < k ==> a.members[i].name != a.members[k].name
    ensures Find(Entries(a.members, 0), a.members[k].name) == Some(k)
  {
    hide Entries, ValidMembers;
    var es := Entries(a.members, 0);
    forall i | 0 <= i < |es|
      ensures es[i].name == a.members[i].name
    {
      NamesKept(a.members, 0, i);
    }
  }

  /** A printed member is described as it was laid out, and decodes to its data. */
  lemma {:induction false} NamedMember(c: Crates, a: Contents, k: nat, plain: seq<byte>)
    requires c.Lawful() && a.Valid() && |a.Print()| < MAX_FILE && a.Opens() && a.disk == 0
    requires a.startDisk == 0 && k < |a.members|
    requires forall i :: 0 <= i < k ==> a.members[i].name != a.members[k].name
    requires
      var offset := Entries(a.members, 0)[k].lfhOffset as nat;
      ValidMember(a.members[k], offset) && Holds(c, a.members[k], offset, Unprotected, [], plain)
    requires ChecksumIs(plain, a.members[k].crc32)
    ensures DescribeNamed(c, a.Print(), a.members[k].name) == Ok(MemberAt(a, k))
    ensures ReadNamed(c, a.Print(), a.members[k].name) == Ok(plain)
  {
    hide Open, LocalAt, HasAt, Contents.Print, Locals, Contents.Opens, ValidMember, LocalFieldsOf, ChecksumIs, Bit,
      Decoded, Plainly, ReadOpen, Checked, Find, Entries, ValidMembers;
    RoundTrip(a);
    MemberInside(a, k);
    FoundByName(a, k);
    EntryIs(a.members, 0, k);
    var m := a.members[k];
    var offset := Entries(a.members, 0)[k].lfhOffset as nat;
    var start := MemberAt(a, k).dataStart as nat;
    TakenWhole(a.Print(), start, m.data);
    FlagBits(m.flags);
    HeldOpenly(c, a.Print(), a.Parsed(), m, offset, start, plain);
    SummedIsOk(plain, m.crc32);
  }

  /**
   Random access to a printed archive: a member opened by its name gives, at every offset and through
   whichever layout is chosen for it, the window of its plaintext there, exactly when its sizes agree.
   */
  lemma {:induction false} NamedReads<S(!new)>(c: Crates, a: Contents, k: nat, plain: seq<byte>, o: Opened,
                                               m: D64.Machine<S>, st: D64.Stream<S>)
    requires c.Lawful() && a.Valid() && |a.Print()| < MAX_FILE && a.Opens() && a.disk == 0
    requires a.startDisk == 0 && k < |a.members|
    requires forall i :: 0 <= i < k ==> a.members[i].name != a.members[k].name
    requires
      var offset := Entries(a.members, 0)[k].lfhOffset as nat;
      ValidMember(a.members[k], offset) && Holds(c, a.members[k], offset, Unprotected, [], plain)
    requires ChecksumIs(plain, a.members[k].crc32) && |plain| < MAX_FILE
    requires st.input == a.members[k].data && Conforms(c, a.members[k].method_, a.members[k].uncompressedSize, st)
    requires Chosen(o, MemberAt(a, k), a.Print(), m, st)
    ensures DescribeNamed(c, a.Print(), a.members[k].name) == Ok(MemberAt(a, k))
    ensures InRange(MemberAt(a, k), a.Print()) && CompressedAs(MemberAt(a, k), a.Print(), st)
    ensures Serviceable(o) && (o.layout.Checkpointed? ==> o.size == |st.output|)
    ensures GivesWindows(c, a.Print(), a.members[k].name, o, st, plain) <==> SizesAgree(o, MemberAt(a, k), plain)
  {
    hide Contents.Print, Contents.Opens, Contents.Valid, ValidMember, Entries, DescribeNamed, ReadNamed, Chosen,
      Answer, Window, SizesAgree, Conforms, DecodesTo, ChecksumIs, HasAt, LocalAt, LocalFieldsOf, Serviceable,
      MemberAt;
    NamedMember(c, a, k, plain);
    MemberInside(a, k);
    var mem, d := a.members[k], MemberAt(a, k);
    MemberFacts(a, k);
    HeldUnpacks(c, a, k, plain);
    CodecDecodes(c, a.Print(), st, mem.method_, d, mem.data, plain);
    ReadsAreSlices(o, d, a.Print(), m, st, plain);
  }

  /** Data that stands in a file is there what it is by itself. */
  lemma {:induction false} CodecMoved(file: seq<byte>, start: nat, data: seq<byte>)
    requires HasAt(file, start, data) && NotAllStored(data, 0, |data|)
    ensures NotAllStored(file, start, start + |data|)
  {
    hide RunBytes, ValidRaw;
    var bs, at: nat :| IsRun(data, 0, |data|, bs, at) && NoStoredBlock(data, at, |data|);
    var n := |RunBytes(bs)|;
    assert file[start..start + n] == data[..n];
    if at < |data| {
      assert file[start..start + |data|][at] == data[at];
    }
    assert IsRun(file, start, start + |data|, bs, start + at) && NoStoredBlock(file, start + at, start + |data|);
  }

  lemma {:induction false} ChainMoved(file: seq<byte>, start: nat, data: seq<byte>, n: nat)
    requires HasAt(file, start, data) && DecodesToLength(data, 0, |data|, n)
    ensures DecodesToLength(file, start, start + |data|, n)
  {
    hide ChainBytes, ValidChain, ChainContent;
    var raw :| IsChain(data, 0, |data|, raw) && |ChainContent(raw)| == n;
    assert file[start..start + |ChainBytes(raw)|] == data[..|ChainBytes(raw)|];
    assert IsChain(file, start, start + |data|, raw);
  }

  /**
   The layout of a printed member by its method's number in section 4.4.5 of the APPNOTE: stored data is one
   block; deflated data of stored blocks is read in place, and other deflated data is decoded, with
   checkpoints for Deflate64; every other method is decoded whole.
   */
  lemma {:induction false} NamedLayout<S(!new)>(a: Contents, k: nat, o: Opened, m: D64.Machine<S>, st: D64.Stream<S>)
    requires a.Valid() && |a.Print()| < MAX_FILE && a.Opens() && k < |a.members|
    requires Chosen(o, MemberAt(a, k), a.Print(), m, st)
    ensures
      var member := a.members[k];
      var data, size := member.data, member.uncompressedSize as nat;
      && (member.method_ == 0 ==> o.layout == Blocks([StoredBlock(0, size, MemberAt(a, k).dataStart)]))
      && (member.method_ == 8 || member.method_ == 9 ==>
            && (DecodesToLength(data, 0, |data|, size) ==> o.layout.Blocks?)
            && (NotAllStored(data, 0, |data|) ==>
                  if member.method_ == 8 then o.layout.Fallback? else o.layout.Checkpointed?))
      && (member.method_ != 0 && member.method_ != 8 && member.method_ != 9 ==> o.layout.Fallback?)
  {
    hide Contents.Print, Contents.Opens, Contents.Valid, ValidMember, Entries, MemberAt, IndexOf, IsChain, NotAllStored,
      HasAt, ChainContent, LocalAt, LocalFieldsOf;
    MemberFacts(a, k);
    MemberInside(a, k);
    var d, data, file := MemberAt(a, k), a.members[k].data, a.Print();
    var end: uint64 := d.dataStart + d.compressedSize;
    IndexDecides(file, d.dataStart, end, d.size);
    IndexRefinesChain(file, d.dataStart, end, d.size);
    if NotAllStored(data, 0, |data|) {
      CodecMoved(file, d.dataStart, data);
    }
    if DecodesToLength(data, 0, |data|, d.size) {
      ChainMoved(file, d.dataStart, data, d.size);
    }
  }

  lemma {:induction false} MemberFacts(a: Contents, k: nat)
    requires a.Valid() && k < |a.members| && |a.Print()| < MAX_FILE
    ensures
      var m, d := a.members[k], MemberAt(a, k);
      d.compression == CompressionOf(m.method_) && d.compressedSize as nat == |m.data| && d.size == m.uncompressedSize
  {
    hide Contents.Print, ValidMembers, Entries;
  }

  lemma {:induction false} HeldUnpacks(c: Crates, a: Contents, k: nat, plain: seq<byte>)
    requires a.Valid() && k < |a.members|
    requires
      var offset := Entries(a.members, 0)[k].lfhOffset as nat;
      ValidMember(a.members[k], offset) && Holds(c, a.members[k], offset, Unprotected, [], plain)
    ensures Unpacks(c, a.members[k].method_, a.members[k].uncompressedSize, a.members[k].data, plain)
  {
    hide ValidMember, Entries, ValidMembers, Unpacks, Bit;
  }
}
