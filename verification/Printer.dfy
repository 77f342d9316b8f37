/**
 A printer for archives, laid out per sections 4.3.6 to 4.3.16 and 4.5.3 of the PKWARE APPNOTE, and
 the proof that the parser inverts it: every member, every 64-bit size, both places of a
 directory signature, and any archive comment.
 */
module Printer {
  import opened Wrappers
  import opened Bytes
  import opened Archive
  import opened Container
  import Format

  // ----- extra blocks -------------------------------------------------------------------------

  datatype ExtraRecord = ExtraRecord(id: uint16, data: seq<byte>)

  predicate ValidExtras(rs: seq<ExtraRecord>) {
    forall i :: 0 <= i < |rs| ==> |rs[i].data| < 0x1_0000
  }

  function ExtraBytes(rs: seq<ExtraRecord>): seq<byte> {
    if rs == [] then [] else ExtraRecordBytes(rs[0]) + ExtraBytes(rs[1..])
  }

  function ExtraRecordBytes(r: ExtraRecord): (s: seq<byte>)
    ensures |s| == 4 + |r.data|
  {
    Le(r.id, 2) + Le(|r.data|, 2) + r.data
  }

  /** The data of the first record with a given id. */
  function Lookup(rs: seq<ExtraRecord>, id: uint16): Extra {
    if rs == [] then Missing
    else if rs[0].id == id then Found(rs[0].data)
    else Lookup(rs[1..], id)
  }

  /** Searching a printed extra block is looking the record up. */
  lemma {:induction false} FindPrinted(x: seq<byte>, at: nat, rs: seq<ExtraRecord>, id: uint16)
    requires ValidExtras(rs) && HasAt(x, at, ExtraBytes(rs)) && at + |ExtraBytes(rs)| == |x|
    ensures FindExtra(x, at, id) == Lookup(rs, id)
    decreases |rs|
  {
    if rs != [] {
      var r := rs[0];
      HasAtConcat(x, at, ExtraRecordBytes(r), ExtraBytes(rs[1..]));
      HasAtConcat(x, at, Le(r.id, 2) + Le(|r.data|, 2), r.data);
      HasAtConcat(x, at, Le(r.id, 2), Le(|r.data|, 2));
      Ranges();
      ReadBack(x, at, r.id, 2);
      ReadBack(x, at + 2, |r.data|, 2);
      FindPrinted(x, at + 4 + |r.data|, rs[1..], id);
    }
  }

  /** The block is these records, none with the id, and then goes on at `end`. */
  predicate Leads(x: seq<byte>, at: nat, id: uint16, rs: seq<ExtraRecord>, end: nat) {
    ValidExtras(rs) && Lookup(rs, id).Missing? && HasAt(x, at, ExtraBytes(rs)) && end == at + |ExtraBytes(rs)|
  }

  /** What the search of a block finds, well formed or not. */
  ghost predicate Finds(x: seq<byte>, at: nat, id: uint16, found: Extra) {
    match found
    case Found(d) =>
      exists rs, end: nat ::
        Leads(x, at, id, rs, end) && |d| < 0x1_0000 && HasAt(x, end, ExtraRecordBytes(ExtraRecord(id, d)))
    case Missing => exists rs, end: nat :: Leads(x, at, id, rs, end) && end <= |x| < end + 4
    case Cut =>
      exists rs, end: nat ::
        && Leads(x, at, id, rs, end)
        && end + 4 <= |x| < end + 4 + x[end + 2] as nat + 256 * x[end + 3] as nat
  }

  lemma {:induction false} RecordStands(x: seq<byte>, at: nat)
    requires at + 4 <= |x| && at + 4 + U16At(x, at + 2) <= |x|
    ensures
      var r := ExtraRecord(U16At(x, at), x[at + 4..at + 4 + U16At(x, at + 2)]);
      |r.data| < 0x1_0000 && HasAt(x, at, ExtraRecordBytes(r))
  {
    hide Le, FromLe;
    var r := ExtraRecord(U16At(x, at), x[at + 4..at + 4 + U16At(x, at + 2)]);
    FromLeRoundTrip(x[at..at + 2]);
    FromLeRoundTrip(x[at + 2..at + 4]);
    HasAtConcat(x, at, Le(r.id, 2), Le(|r.data|, 2));
    HasAtConcat(x, at, Le(r.id, 2) + Le(|r.data|, 2), r.data);
  }

  lemma {:induction false} LeadsCons(x: seq<byte>, at: nat, id: uint16, r: ExtraRecord, rs: seq<ExtraRecord>, end: nat)
    requires |r.data| < 0x1_0000 && r.id != id && HasAt(x, at, ExtraRecordBytes(r))
    requires Leads(x, at + 4 + |r.data|, id, rs, end)
    ensures Leads(x, at, id, [r] + rs, end)
  {
    hide ExtraRecordBytes, HasAt;
    assert ([r] + rs)[1..] == rs;
    HasAtConcat(x, at, ExtraRecordBytes(r), ExtraBytes(rs));
  }

  lemma {:induction false} LeadsNothing(x: seq<byte>, at: nat, id: uint16)
    requires at <= |x|
    ensures Leads(x, at, id, [], at)
  {
  }

  /** The search of an extra block, for every block: what it reports is what stands there. */
  lemma {:induction false} FindIs(x: seq<byte>, at: nat, id: uint16)
    requires at <= |x|
    ensures Finds(x, at, id, FindExtra(x, at, id))
    decreases |x| - at
  {
    hide U16At, ExtraRecordBytes, Leads;
    LeadsNothing(x, at, id);
    if at + 4 <= |x| {
      TwoBytes(x, at + 2);
      var next := at + 4 + U16At(x, at + 2);
      if next <= |x| {
        RecordStands(x, at);
        if U16At(x, at) != id {
          FindIs(x, next, id);
          FindsBehind(x, at, id, ExtraRecord(U16At(x, at), x[at + 4..next]), FindExtra(x, next, id));
        }
      }
    }
  }

  lemma {:induction false} FindsBehind(x: seq<byte>, at: nat, id: uint16, r: ExtraRecord, found: Extra)
    requires |r.data| < 0x1_0000 && r.id != id && HasAt(x, at, ExtraRecordBytes(r))
    requires Finds(x, at + 4 + |r.data|, id, found)
    ensures Finds(x, at, id, found)
  {
    hide ExtraRecordBytes, HasAt, Leads;
    var next := at + 4 + |r.data|;
    match found
    case Found(d) =>
      var rs, end: nat :| Leads(x, next, id, rs, end) && HasAt(x, end, ExtraRecordBytes(ExtraRecord(id, d)));
      LeadsCons(x, at, id, r, rs, end);
    case Missing =>
      var rs, end: nat :| Leads(x, next, id, rs, end) && end <= |x| < end + 4;
      LeadsCons(x, at, id, r, rs, end);
    case Cut =>
      var rs, end: nat :|
        && Leads(x, next, id, rs, end)
        && end + 4 <= |x| < end + 4 + x[end + 2] as nat + 256 * x[end + 3] as nat;
      LeadsCons(x, at, id, r, rs, end);
  }

  lemma {:induction false} LookupConcat(before: seq<ExtraRecord>, after: seq<ExtraRecord>, id: uint16)
    ensures Lookup(before + after, id) == if Lookup(before, id).Missing? then Lookup(after, id) else Lookup(before, id)
  {
    if before == [] {
      assert before + after == after;
    } else {
      LookupConcat(before[1..], after, id);
      assert (before + after)[1..] == before[1..] + after;
    }
  }

  /** A size or offset as its 32-bit field records it. */
  function Clip(n: nat): uint32 {
    if n >= Format.FULL_32 then Format.FULL_32 else n
  }

  function Clipped(s: Sizes): Sizes {
    Sizes(Clip(s.uncompressed), Clip(s.compressed), Clip(s.offset))
  }

  function WideField(n: uint64): seq<byte> {
    if n >= Format.FULL_32 then Le(n, 8) else []
  }

  /** The Zip64 extended information: exactly the fields that do not fit, in the order of section 4.5.3. */
  function WideFields(s: Sizes): (r: seq<byte>)
    ensures |r| <= 24
  {
    WideField(s.uncompressed) + WideField(s.compressed) + WideField(s.offset)
  }

  function Zip64Records(s: Sizes): (rs: seq<ExtraRecord>)
    ensures ValidExtras(rs)
  {
    if WideFields(s) == [] then [] else [ExtraRecord(Format.ZIP64_EXTRA, WideFields(s))]
  }

  lemma {:induction false} TakePrinted(z: seq<byte>, at: nat, n: uint64)
    requires HasAt(z, at, WideField(n))
    ensures TakeField(z, at, Clip(n) == U32_SENTINEL, Clip(n)) == Ok((n, at + |WideField(n)|))
  {
    if n >= U32_SENTINEL {
      Ranges();
      ReadBack(z, at, n, 8);
    }
  }

  /**
   Zip64 resolution inverts its encoding: whatever the sizes and offset, and whatever unrelated
   records stand around the Zip64 one, the clipped fields resolve to the original triple.
   */
  lemma {:induction false} Zip64Inverts(before: seq<ExtraRecord>, s: Sizes, after: seq<ExtraRecord>)
    requires ValidExtras(before) && ValidExtras(after)
    requires WideFields(s) != [] ==> Lookup(before, Format.ZIP64_EXTRA).Missing?
    ensures ResolvedSizes(ExtraBytes(before + Zip64Records(s) + after), Clipped(s)) == Ok(s)
  {
    var needs := SentinelsOf(Clipped(s));
    if WideFields(s) != [] {
      var rs := before + Zip64Records(s) + after;
      var x := ExtraBytes(rs);
      FindPrinted(x, 0, rs, ZIP64_EXTRA_ID);
      LookupConcat(before, Zip64Records(s), ZIP64_EXTRA_ID);
      LookupConcat(before + Zip64Records(s), after, ZIP64_EXTRA_ID);
      var z := WideFields(s);
      hide FindExtra, ExtraBytes, U64At, FieldAt;
      assert Lookup(rs, ZIP64_EXTRA_ID) == Found(z);
      var u, c, o := WideField(s.uncompressed), WideField(s.compressed), WideField(s.offset);
      HasAtConcat(z, 0, u + c, o);
      HasAtConcat(z, 0, u, c);
      TakePrinted(z, 0, s.uncompressed);
      TakePrinted(z, |u|, s.compressed);
      TakePrinted(z, |u| + |c|, s.offset);
    }
  }

  /** How many bytes of Zip64 fields the 32-bit ones ask for. */
  function BytesAsked(base: Sizes): nat {
    (if base.uncompressed == 0xFFFF_FFFF then 8 else 0) + (if base.compressed == 0xFFFF_FFFF then 8 else 0)
    + if base.offset == 0xFFFF_FFFF then 8 else 0
  }

  /** Which sizes cannot be resolved, and why: there is no Zip64 record, or the block or the record is too short. */
  lemma {:induction false} SizesRefused(extra: seq<byte>, base: Sizes)
    ensures
      var found := FindExtra(extra, 0, Format.ZIP64_EXTRA);
      && (ResolvedSizes(extra, base) == Err(Zip64Inconsistent) <==> BytesAsked(base) > 0 && found.Missing?)
      && (ResolvedSizes(extra, base) == Err(Truncated) <==>
            BytesAsked(base) > 0 && (found.Cut? || (found.Found? && |found.data| < BytesAsked(base))))
      && (ResolvedSizes(extra, base).Ok? <==>
            BytesAsked(base) == 0 || (found.Found? && |found.data| >= BytesAsked(base)))
  {
    hide FindExtra, U64At;
  }

  // ----- members ------------------------------------------------------------------------------

  datatype Member = Member(
    name: seq<byte>,
    flags: uint16,
    method_: uint16,
    modTime: uint16,
    modDate: uint16,
    crc32: uint32,
    data: seq<byte>,          // the compressed bytes
    uncompressedSize: uint64,
    localExtra: seq<byte>,
    descriptor: seq<byte>,    // whatever stands between the data and the next record
    before: seq<ExtraRecord>, // central extra records around the Zip64 one
    after: seq<ExtraRecord>,
    comment: seq<byte>,
    madeBy: uint16,
    needed: uint16,
    diskStart: uint16,
    internalAttrs: uint16,
    externalAttrs: uint32)

  function SizesOf(m: Member, offset: nat): Sizes
    requires |m.data| < MAX_FILE && offset < MAX_FILE
  {
    Sizes(m.uncompressedSize, |m.data|, offset)
  }

  function Extras(m: Member, offset: nat): seq<ExtraRecord>
    requires |m.data| < MAX_FILE && offset < MAX_FILE
  {
    m.before + Zip64Records(SizesOf(m, offset)) + m.after
  }

  /** What the format lets a member at `offset` hold. */
  predicate ValidMember(m: Member, offset: nat) {
    && |m.data| < MAX_FILE && offset < MAX_FILE
    && |m.name| < 0x1_0000 && |m.localExtra| < 0x1_0000 && |m.comment| < 0x1_0000
    && ValidExtras(m.before) && ValidExtras(m.after)
    && |ExtraBytes(Extras(m, offset))| < 0x1_0000
    && (WideFields(SizesOf(m, offset)) != [] ==> Lookup(m.before, Format.ZIP64_EXTRA).Missing?)
  }

  function LocalFixedBytes(m: Member): (s: seq<byte>)
    ensures |s| == LFH_FIXED
  {
    Le(Format.LOCAL_HEADER, 4) + (Le(m.needed, 2) + (Le(m.flags, 2) + (Le(m.method_, 2) + (Le(m.modTime, 2)
    + (Le(m.modDate, 2) + (Le(m.crc32, 4) + (Le(Clip(|m.data|), 4) + (Le(Clip(m.uncompressedSize), 4)
    + (Le(|m.name|, 2) + Le(|m.localExtra|, 2))))))))))
  }

  /** Local header, data and descriptor (sections 4.3.7 to 4.3.9). */
  function LocalRecord(m: Member): seq<byte> {
    LocalFixedBytes(m) + (m.name + (m.localExtra + (m.data + m.descriptor)))
  }

  function CentralFixedBytes(m: Member, offset: nat): (s: seq<byte>)
    requires ValidMember(m, offset)
    ensures |s| == CD_FIXED
  {
    Le(Format.CENTRAL_HEADER, 4) + (Le(m.madeBy, 2) + (Le(m.needed, 2) + (Le(m.flags, 2) + (Le(m.method_, 2)
    + (Le(m.modTime, 2) + (Le(m.modDate, 2) + (Le(m.crc32, 4) + (Le(Clip(|m.data|), 4)
    + (Le(Clip(m.uncompressedSize), 4) + (Le(|m.name|, 2) + (Le(|ExtraBytes(Extras(m, offset))|, 2)
    + (Le(|m.comment|, 2) + (Le(m.diskStart, 2) + (Le(m.internalAttrs, 2) + (Le(m.externalAttrs, 4)
    + Le(Clip(offset), 4))))))))))))))))
  }

  /** The central header of a member whose local record stands at `offset` (section 4.3.12). */
  function CentralRecord(m: Member, offset: nat): seq<byte>
    requires ValidMember(m, offset)
  {
    CentralFixedBytes(m, offset) + (m.name + (ExtraBytes(Extras(m, offset)) + m.comment))
  }

  /** The entry a member at `offset` must be parsed as. */
  function EntryOf(m: Member, offset: nat): CentralEntry
    requires ValidMember(m, offset)
  {
    CentralEntry(
      m.name, m.method_, m.flags, m.crc32, |m.data|, m.uncompressedSize, offset, m.modTime,
      if m.method_ == 99 then AesRecord(Extras(m, offset)) else None, m.diskStart)
  }

  /** The AE-x record of an entry; only its version, strength and method are read. */
  function AesRecord(rs: seq<ExtraRecord>): Option<AesInfo> {
    match Lookup(rs, Format.AES_EXTRA)
    case Found(d) =>
      if |d| < 7 then None else Some(AesInfo(d[4], d[5] as nat + 256 * d[6] as nat, d[0] == 2 && d[1] == 0))
    case Missing => None
    case Cut => None
  }

  /** The AE-x record a producer writes: version, vendor, strength and method. */
  function AesBytes(info: AesInfo): seq<byte> {
    (if info.isAe2 then [2, 0] else [1, 0]) + [0x41, 0x45] + [info.strength] + Le(info.actualMethod, 2)
  }

  /** A 16-bit field, byte by byte. */
  lemma {:induction false} TwoBytes(d: seq<byte>, at: nat)
    requires at + 2 <= |d|
    ensures U16At(d, at) == d[at] as nat + 256 * d[at + 1] as nat
  {
    var f := d[at..at + 2];
    assert f[1..][1..] == [];
    assert FromLe(f[1..]) == f[1] as int + 256 * FromLe([]);
  }

  /** Parsing a record that was looked up. */
  lemma {:induction false} AesFound(rs: seq<ExtraRecord>)
    requires ValidExtras(rs)
    ensures AesOf(ExtraBytes(rs)) == AesRecord(rs)
  {
    hide FindExtra, U16At, ExtraBytes, Lookup, HasAt;
    WholeInPlace(ExtraBytes(rs));
    FindPrinted(ExtraBytes(rs), 0, rs, AES_EXTRA_ID);
    var r := Lookup(rs, AES_EXTRA_ID);
    if r.Found? && |r.data| >= 7 {
      TwoBytes(r.data, 0);
      TwoBytes(r.data, 5);
    }
  }

  lemma {:induction false} WholeInPlace(x: seq<byte>)
    ensures HasAt(x, 0, x)
  {
  }

  /** A printed AE-x record parses to what was printed, whatever unrelated records stand around it. */
  lemma {:induction false} AesInverts(before: seq<ExtraRecord>, info: AesInfo, after: seq<ExtraRecord>)
    requires ValidExtras(before) && ValidExtras(after) && Lookup(before, Format.AES_EXTRA).Missing?
    ensures AesOf(ExtraBytes(before + [ExtraRecord(Format.AES_EXTRA, AesBytes(info))] + after)) == Some(info)
  {
    hide ExtraBytes, AesBytes;
    var rs := before + [ExtraRecord(Format.AES_EXTRA, AesBytes(info))] + after;
    assert rs == before + ([ExtraRecord(Format.AES_EXTRA, AesBytes(info))] + after);
    LookupConcat(before, [ExtraRecord(Format.AES_EXTRA, AesBytes(info))] + after, Format.AES_EXTRA);
    AesBytesRead(info);
    AesFound(rs);
  }

  lemma {:induction false} AesBytesRead(info: AesInfo)
    ensures
      var d := AesBytes(info);
      && |d| == 7 && d[4] == info.strength && d[5] as nat + 256 * d[6] as nat == info.actualMethod
      && (d[0] == 2 && d[1] == 0 <==> info.isAe2)
  {
    var m := Le(info.actualMethod, 2);
    Ranges();
    LeRoundTrip(info.actualMethod, 2);
    assert m[0..2] == m;
    TwoBytes(m, 0);
  }

  lemma {:induction false} CentralFixedPrinted(cd: seq<byte>, at: nat, m: Member, offset: nat)
    requires ValidMember(m, offset) && HasAt(cd, at, CentralFixedBytes(m, offset))
    ensures at + CD_FIXED <= |cd| && U32At(cd, at) == CD_HEADER_SIG
    ensures FixedAt(cd, at) == CentralFixed(
      m.flags, m.method_, m.modTime, m.crc32, Clip(|m.data|), Clip(m.uncompressedSize), |m.name|,
      |ExtraBytes(Extras(m, offset))|, |m.comment|, m.diskStart, Clip(offset))
  {
    Ranges();
    PartsInPlace(cd);
    FieldsReadBack(cd);
    hide HasAt, FieldAt, FromLe, Le, ExtraBytes, Extras, Clip, Range;
  }

  lemma {:induction false} LocalFixedPrinted(file: seq<byte>, at: nat, m: Member)
    requires HasAt(file, at, LocalFixedBytes(m)) && |m.name| < 0x1_0000 && |m.localExtra| < 0x1_0000
    ensures at + LFH_FIXED <= |file| && U32At(file, at) == LFH_SIG
    ensures LocalFixedAt(file, at) == LocalFixed(
      m.flags, m.method_, m.crc32, Clip(|m.data|), Clip(m.uncompressedSize), |m.name|, |m.localExtra|)
  {
    Ranges();
    PartsInPlace(file);
    FieldsReadBack(file);
    hide HasAt, FieldAt, FromLe, Le, Clip, Range;
  }

  /** Where the variable-length parts of a printed central header stand. */
  lemma {:induction false} TailPlaced(cd: seq<byte>, at: nat, m: Member, offset: nat)
    requires ValidMember(m, offset) && HasAt(cd, at, CentralRecord(m, offset))
    ensures
      var x := ExtraBytes(Extras(m, offset));
      var nameEnd := at + CD_FIXED + |m.name|;
      && nameEnd + |x| + |m.comment| == at + |CentralRecord(m, offset)| <= |cd|
      && cd[at + CD_FIXED..nameEnd] == m.name && cd[nameEnd..nameEnd + |x|] == x
  {
    hide CentralFixedBytes, ExtraBytes, Extras, HasAt, Lookup, WideFields, ValidExtras;
    PartsPlaced(cd, at, CentralFixedBytes(m, offset), m.name, ExtraBytes(Extras(m, offset)), m.comment);
  }

  lemma {:induction false} PartsPlaced(cd: seq<byte>, at: nat, fixed: seq<byte>, name: seq<byte>, x: seq<byte>,
                                       comment: seq<byte>)
    requires HasAt(cd, at, fixed + (name + (x + comment)))
    ensures
      var nameEnd := at + |fixed| + |name|;
      && nameEnd + |x| + |comment| <= |cd|
      && cd[at + |fixed|..nameEnd] == name && cd[nameEnd..nameEnd + |x|] == x
  {
    HasAtConcat(cd, at, fixed, name + (x + comment));
    HasAtConcat(cd, at + |fixed|, name, x + comment);
    HasAtConcat(cd, at + |fixed| + |name|, x, comment);
  }

  /** What the printed extra records resolve to. */
  lemma {:induction false} ExtrasResolved(m: Member, offset: nat)
    requires ValidMember(m, offset)
    ensures
      var x := ExtraBytes(Extras(m, offset));
      && ResolvedSizes(x, Clipped(SizesOf(m, offset))) == Ok(SizesOf(m, offset))
      && AesOf(x) == AesRecord(Extras(m, offset))
  {
    hide ResolvedSizes, Lookup, WideFields, ExtraBytes, HasAt, AesOf, AesRecord;
    Zip64Inverts(m.before, SizesOf(m, offset), m.after);
    ExtrasValid(m, offset);
    AesFound(Extras(m, offset));
  }

  /** The variable-length tail of a printed central header. */
  lemma {:induction false} TailPrinted(cd: seq<byte>, at: nat, m: Member, offset: nat, f: CentralFixed)
    requires ValidMember(m, offset) && HasAt(cd, at, CentralRecord(m, offset))
    requires f == CentralFixed(
      m.flags, m.method_, m.modTime, m.crc32, Clip(|m.data|), Clip(m.uncompressedSize), |m.name|,
      |ExtraBytes(Extras(m, offset))|, |m.comment|, m.diskStart, Clip(offset))
    ensures EntryTail(cd, at, f) == Ok((EntryOf(m, offset), at + |CentralRecord(m, offset)|))
  {
    hide ResolvedSizes, AesOf, AesRecord, ExtraBytes, Extras, CentralRecord, Clip, HasAt, Lookup, WideFields,
      ValidExtras;
    TailPlaced(cd, at, m, offset);
    ExtrasResolved(m, offset);
  }

  /** A printed central header parses to the member's entry, and the parser stops right behind it. */
  lemma {:induction false} EntryPrinted(cd: seq<byte>, at: nat, m: Member, offset: nat)
    requires ValidMember(m, offset) && HasAt(cd, at, CentralRecord(m, offset))
    ensures EntryAt(cd, at) == Ok((EntryOf(m, offset), at + |CentralRecord(m, offset)|))
  {
    var tail := m.name + (ExtraBytes(Extras(m, offset)) + m.comment);
    HasAtConcat(cd, at, CentralFixedBytes(m, offset), tail);
    CentralFixedPrinted(cd, at, m, offset);
    TailPrinted(cd, at, m, offset, FixedAt(cd, at));
    hide EntryTail, FixedAt, U32At, EntryOf, CentralRecord, HasAt;
  }

  lemma {:induction false} ExtrasValid(m: Member, offset: nat)
    requires ValidMember(m, offset)
    ensures ValidExtras(Extras(m, offset)) && HasAt(ExtraBytes(Extras(m, offset)), 0, ExtraBytes(Extras(m, offset)))
  {
  }

  // ----- archives -----------------------------------------------------------------------------

  /** Local records one after another. */
  function Locals(ms: seq<Member>): seq<byte> {
    if ms == [] then [] else LocalRecord(ms[0]) + Locals(ms[1..])
  }

  /** Members whose local records start at `base` are all within the format. */
  predicate ValidMembers(ms: seq<Member>, base: nat) {
    ms == [] || (ValidMember(ms[0], base) && ValidMembers(ms[1..], base + |LocalRecord(ms[0])|))
  }

  function Headers(ms: seq<Member>, base: nat): seq<byte>
    requires ValidMembers(ms, base)
  {
    if ms == [] then []
    else CentralRecord(ms[0], base) + Headers(ms[1..], base + |LocalRecord(ms[0])|)
  }

  function Entries(ms: seq<Member>, base: nat): (es: seq<CentralEntry>)
    requires ValidMembers(ms, base)
    ensures |es| == |ms|
  {
    if ms == [] then []
    else [EntryOf(ms[0], base)] + Entries(ms[1..], base + |LocalRecord(ms[0])|)
  }

  lemma {:induction false} EntriesPrinted(cd: seq<byte>, at: nat, ms: seq<Member>, base: nat)
    requires ValidMembers(ms, base) && HasAt(cd, at, Headers(ms, base))
    ensures EntriesFrom(cd, at, |ms|) == Ok((Entries(ms, base), at + |Headers(ms, base)|))
    decreases |ms|
  {
    hide EntryAt, EntryOf, CentralRecord, LocalRecord, ValidMember;
    if ms != [] {
      var next := base + |LocalRecord(ms[0])|;
      HasAtConcat(cd, at, CentralRecord(ms[0], base), Headers(ms[1..], next));
      EntryPrinted(cd, at, ms[0], base);
      EntriesPrinted(cd, at + |CentralRecord(ms[0], base)|, ms[1..], next);
    }
  }

  /** A directory signature record, and where its producer counts it. */
  datatype Signature = Unsigned | Inside(body: seq<byte>) | Behind(body: seq<byte>)

  datatype Contents = Contents(
    members: seq<Member>, signature: Signature, comment: seq<byte>, disk: uint16, startDisk: uint16)
  {
    predicate Valid() {
      && ValidMembers(members, 0) && |comment| < 0x1_0000
      && (signature.Unsigned? || |signature.body| < 0x1_0000)
    }

    function SignatureBytes(): seq<byte> {
      if signature.Unsigned? then [] else Le(Format.DIRECTORY_SIGNATURE, 4) + (Le(|signature.body|, 2) + signature.body)
    }

    function CdOffset(): nat {
      |Locals(members)|
    }

    /** The directory size as recorded: only an inside signature counts. */
    function CdSize(): nat
      requires Valid()
    {
      |Headers(members, 0)| + if signature.Inside? then |SignatureBytes()| else 0
    }

    predicate NeedsZip64()
      requires Valid()
    {
      CdOffset() >= Format.FULL_32 || CdSize() >= Format.FULL_32 || |members| >= Format.FULL_16
    }

    /** Where the records behind the central directory and its signature start. */
    function EndOffset(): nat
      requires Valid()
    {
      CdOffset() + |Headers(members, 0)| + |SignatureBytes()|
    }

    /** Zip64 end record (section 4.3.14). */
    function Zip64RecordBytes(): (s: seq<byte>)
      requires Valid()
      ensures |s| == 56
    {
      Le(Format.ZIP64_END_RECORD, 4) + (Le(44, 8) + (Le(45, 2) + (Le(45, 2) + (Le(disk, 4) + (Le(startDisk, 4)
      + (Le(|members|, 8) + (Le(|members|, 8) + (Le(CdSize(), 8) + Le(CdOffset(), 8)))))))))
    }

    /** Its locator (section 4.3.15). */
    function LocatorBytes(): (s: seq<byte>)
      requires Valid()
      ensures |s| == ZIP64_LOCATOR_LEN
    {
      Le(Format.ZIP64_END_LOCATOR, 4) + (Le(0, 4) + (Le(EndOffset(), 8) + Le(1, 4)))
    }

    function Zip64Bytes(): seq<byte>
      requires Valid()
    {
      if NeedsZip64() then Zip64RecordBytes() + LocatorBytes() else []
    }

    function ClipCount(): uint16 {
      if |members| >= Format.FULL_16 then Format.FULL_16 else |members|
    }

    /** The end of central directory record (section 4.3.16). */
    function EocdBytes(): (s: seq<byte>)
      requires Valid()
      ensures |s| == EOCD_MIN
    {
      Le(Format.END_RECORD, 4) + (Le(disk, 2) + (Le(startDisk, 2) + (Le(ClipCount(), 2) + (Le(ClipCount(), 2)
      + (Le(Clip(CdSize()), 4) + (Le(Clip(CdOffset()), 4) + Le(|comment|, 2)))))))
    }

    function EocdOffset(): nat
      requires Valid()
    {
      EndOffset() + |Zip64Bytes()|
    }

    function Print(): seq<byte>
      requires Valid()
    {
      Locals(members) + (Headers(members, 0) + (SignatureBytes() + (Zip64Bytes() + (EocdBytes() + comment))))
    }

    /** The comment hides no later end record, counting bytes it shares with the record before it. */
    predicate UnambiguousEnd()
      requires Valid()
    {
      forall i :: 0 < i <= |comment| ==> U32At(EocdBytes() + comment, i) != Format.END_RECORD
    }

    /** What the parser needs of a printed archive. */
    predicate Opens()
      requires Valid()
    {
      && UnambiguousEnd()
      && |members| <= 16_000_000
      && (NeedsZip64() ==> |comment| <= 65515)
    }

    /** What the parser must return. */
    function Parsed(): Archive
      requires Valid()
    {
      Archive(
        Entries(members, 0),
        Summary(
          |Print()|, CdOffset(), CdSize(), |Print()|, |comment|, disk, startDisk,
          if signature.Unsigned? then None else Some(|signature.body|)))
    }
  }
}
