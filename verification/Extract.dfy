/**
 Opening an entry by its index and reading it to the end (core/src/archive.rs): the disk check, the
 choice of decryption, the codec and the checksum. The codecs come from other crates; a stored entry
 passes through.
 */
module Extract {
  import opened Wrappers
  import opened Bytes
  import opened Streams
  import opened Archive
  import opened Container
  import opened Printer
  import opened PrintParse
  import Crc32
  import ZipCrypto
  import AesCtr
  import Format
  import Cbc
  import StrongRoundTrip
  import EntryReader

  /**
   What other crates provide. `codec` says what a decoder of a method other than 0 delivers from what
   the reader beneath it delivers, however either is chunked and however far it reads; or that it
   cannot be made.
   */
  datatype Crates = Crates(
    ctr: AesCtr.CtrPrimitives,
    cbc: Cbc.Primitives,
    codec: (uint16, uint64, Flow) -> Result<Flow>)
  {
    ghost predicate Lawful() {
      ctr.Lawful() && cbc.Lawful()
    }
  }

  const ENCRYPTED: nat := 0x0001
  const STRONG: nat := 0x0040
  const MASKED: nat := 0x2000

  // ----- what an entry reads as -----------------------------------------------------------------

  /** `check_local_disk`. */
  function ForeignDisk(e: CentralEntry, s: Summary): Option<nat> {
    if e.diskStart != 0 then Some(e.diskStart as nat)
    else if s.cdStartDisk != 0 then Some(s.cdStartDisk as nat)
    else if s.diskNumber != 0 then Some(s.diskNumber as nat)
    else None
  }

  /** `zipcrypto_check_byte`. */
  function CheckByte(flags: uint16, crc32: uint32, modTime: uint16): byte {
    if Bit(flags as nat, DESCRIPTOR_FLAG) then (modTime / 0x100) as byte else (crc32 / 0x100_0000) as byte
  }

  /** At most `size` bytes of the file from `start` on. */
  function Taken(file: seq<byte>, start: nat, size: nat): (r: seq<byte>)
    ensures |r| <= size
  {
    Window(file, start, size)
  }

  /** The bytes of a member as they stand in the file. */
  function Plainly(bytes: seq<byte>): Flow {
    Flow(bytes, None)
  }

  /** `Decoder::new` and what it then delivers. */
  function Decoded(c: Crates, method_: uint16, size: uint64, flow: Flow): Result<Flow> {
    if method_ == 0 then Ok(flow) else c.codec(method_, size, flow)
  }

  /** The checksum of the data, as section 4.4.7 of the APPNOTE says. */
  predicate ChecksumIs(data: seq<byte>, crc: uint32) {
    Crc32.ReferenceSum(data) == crc
  }

  /** The checksum at the end of the data. */
  function Checked(flow: Flow, verify: bool, crc: uint32): Result<seq<byte>> {
    EntryReader.Checked(flow, verify, crc)
  }

  /** `open` without a password, read to the end. */
  function ReadOpen(c: Crates, file: seq<byte>, a: Archive, e: CentralEntry): Result<seq<byte>> {
    if ForeignDisk(e, a.summary).Some? then Err(SpannedArchive(ForeignDisk(e, a.summary).value))
    else if Bit(e.flags as nat, ENCRYPTED) then Err(EncryptedNoPassword)
    else
      var local :- LocalAt(file, e.lfhOffset);
      var out :- Decoded(c, e.method_, e.uncompressedSize, Plainly(Taken(file, local.1, e.compressedSize)));
      Checked(out, true, e.crc32)
  }

  /** `open_decrypt`, read to the end. */
  function ReadDecrypted(c: Crates, file: seq<byte>, a: Archive, e: CentralEntry,
                         password: seq<byte>): Result<seq<byte>>
    requires c.ctr.Lawful()
  {
    if ForeignDisk(e, a.summary).Some? then Err(SpannedArchive(ForeignDisk(e, a.summary).value))
    else if !Bit(e.flags as nat, ENCRYPTED) && e.aes.None? then ReadOpen(c, file, a, e)
    else if Bit(e.flags as nat, MASKED) then Err(UnsupportedEncryption(Masked))
    else
      var local :- LocalAt(file, e.lfhOffset);
      var raw := Taken(file, local.1, e.compressedSize);
      if e.aes.Some? then
        var plain :- AesCtr.Decrypted(c.ctr, raw, password, e.aes.value.strength, e.compressedSize as nat);
        var out :- Decoded(c, e.aes.value.actualMethod, e.uncompressedSize, plain);
        Checked(out, !e.aes.value.isAe2, e.crc32)
      else if Bit(e.flags as nat, STRONG) then
        var plain :-
          StrongRoundTrip.Decrypted(
            c.cbc, raw, password, e.crc32, e.uncompressedSize, e.compressedSize as nat, e.method_ == 0);
        var out :- Decoded(c, e.method_, e.uncompressedSize, plain);
        Checked(out, true, e.crc32)
      else
        var plain :- ZipCrypto.Opened(raw, password, CheckByte(e.flags, e.crc32, e.lastModTime));
        var out :- Decoded(c, e.method_, e.uncompressedSize, Plainly(plain));
        Checked(out, true, e.crc32)
  }

  /** `by_index` and `by_index_decrypt`, read to the end. */
  function ReadIndex(c: Crates, file: seq<byte>, a: Archive, i: nat, password: Option<seq<byte>>): Result<seq<byte>>
    requires c.ctr.Lawful()
  {
    if i >= |a.entries| then Err(IndexOutOfBounds(i))
    else if password.None? then ReadOpen(c, file, a, a.entries[i])
    else ReadDecrypted(c, file, a, a.entries[i], password.value)
  }

  // ----- the readers ----------------------------------------------------------------------------

  /** The decoding reader over what its decoder delivers, read to the end. */
  method Verify(flow: Flow, verify: bool, crc: uint32) returns (r: Result<seq<byte>>)
    ensures r == Checked(flow, verify, crc)
  {
    hide Crc32.ReferenceSum;
    var decoder := new EntryReader.Decoder(flow);
    var file := new EntryReader.ZipFile(decoder, crc, verify);
    r := EntryReader.ReadToEnd(file);
  }

  method OpenPlain(c: Crates, f: FileCursor, a: Archive, e: CentralEntry) returns (r: Result<seq<byte>>)
    modifies f
    ensures r == ReadOpen(c, f.data, a, e)
  {
    hide LocalAt, Checked, Taken, Bit;
    var disk := ForeignDisk(e, a.summary);
    if disk.Some? {
      return Err(SpannedArchive(disk.value));
    }
    if Bit(e.flags as nat, ENCRYPTED) {
      return Err(EncryptedNoPassword);
    }
    var local :- ReadLfhFields(f, e.lfhOffset);
    var out :- Decoded(c, e.method_, e.uncompressedSize, Plainly(Taken(f.data, local.1, e.compressedSize)));
    r := Verify(out, true, e.crc32);
  }

  method OpenDecrypt(c: Crates, f: FileCursor, a: Archive, e: CentralEntry, password: seq<byte>)
    returns (r: Result<seq<byte>>)
    requires c.ctr.Lawful()
    modifies f
    ensures r == ReadDecrypted(c, f.data, a, e, password)
  {
    hide LocalAt, Checked, Taken, Bit, AesCtr.Decrypted, StrongRoundTrip.Decrypted, ZipCrypto.Opened, CheckByte;
    var disk := ForeignDisk(e, a.summary);
    if disk.Some? {
      return Err(SpannedArchive(disk.value));
    }
    if !Bit(e.flags as nat, ENCRYPTED) && e.aes.None? {
      r := OpenPlain(c, f, a, e);
      return;
    }
    if Bit(e.flags as nat, MASKED) {
      return Err(UnsupportedEncryption(Masked));
    }
    var local :- ReadLfhFields(f, e.lfhOffset);
    var raw := Taken(f.data, local.1, e.compressedSize);
    if e.aes.Some? {
      var aes := e.aes.value;
      var plain :- AesCtr.DecryptEntry(c.ctr, raw, password, aes.strength, e.compressedSize as nat);
      var out :- Decoded(c, aes.actualMethod, e.uncompressedSize, plain);
      r := Verify(out, !aes.isAe2, e.crc32);
    } else if Bit(e.flags as nat, STRONG) {
      var plain :- StrongRoundTrip.DecryptEntry(
        c.cbc, raw, password, e.crc32, e.uncompressedSize, e.compressedSize as nat, e.method_ == 0);
      var out :- Decoded(c, e.method_, e.uncompressedSize, plain);
      r := Verify(out, true, e.crc32);
    } else {
      var plain :- ZipCrypto.DecryptMember(raw, password, CheckByte(e.flags, e.crc32, e.lastModTime));
      var out :- Decoded(c, e.method_, e.uncompressedSize, Plainly(plain));
      r := Verify(out, true, e.crc32);
    }
  }

  method ByIndex(c: Crates, f: FileCursor, a: Archive, i: nat, password: Option<seq<byte>>)
    returns (r: Result<seq<byte>>)
    requires c.ctr.Lawful()
    modifies f
    ensures r == ReadIndex(c, f.data, a, i, password)
    ensures i >= |a.entries| ==> r == Err(IndexOutOfBounds(i))
    ensures i < |a.entries| && password.None? ==> r == ReadOpen(c, f.data, a, a.entries[i])
    ensures i < |a.entries| && password.Some? ==> r == ReadDecrypted(c, f.data, a, a.entries[i], password.value)
  {
    hide ReadOpen, ReadDecrypted;
    if i >= |a.entries| {
      return Err(IndexOutOfBounds(i));
    }
    if password.None? {
      r := OpenPlain(c, f, a, a.entries[i]);
    } else {
      r := OpenDecrypt(c, f, a, a.entries[i], password.value);
    }
  }

  // ----- what is accepted -----------------------------------------------------------------------

  /** Neither the directory nor the entry's data is on another disk. */
  predicate OnThisDisk(e: CentralEntry, s: Summary) {
    e.diskStart == 0 && s.cdStartDisk == 0 && s.diskNumber == 0
  }

  /** The disk that is named when an entry is refused: its own, the directory's start, or the directory's end. */
  predicate OnDisk(e: CentralEntry, s: Summary, n: nat) {
    && n != 0
    && (n == e.diskStart || (e.diskStart == 0 && (n == s.cdStartDisk || (s.cdStartDisk == 0 && n == s.diskNumber))))
  }

  lemma {:induction false} DiskChecked(e: CentralEntry, s: Summary)
    ensures ForeignDisk(e, s).None? <==> OnThisDisk(e, s)
    ensures forall n: nat :: ForeignDisk(e, s) == Some(n) <==> OnDisk(e, s, n)
  {
  }

  /**
   What is refused before any data is read: entries on other disks, encrypted ones without a password,
   and masked ones with it; and what is not encrypted is read without the password.
   */
  lemma {:induction false} RefusedUnread(c: Crates, file: seq<byte>, a: Archive, e: CentralEntry, password: seq<byte>)
    requires c.ctr.Lawful()
    ensures forall n: nat :: OnDisk(e, a.summary, n) ==>
      ReadOpen(c, file, a, e) == Err(SpannedArchive(n)) == ReadDecrypted(c, file, a, e, password)
    ensures OnThisDisk(e, a.summary) && Format.IsEncrypted(e.flags) ==>
      ReadOpen(c, file, a, e) == Err(EncryptedNoPassword)
    ensures OnThisDisk(e, a.summary) && (Format.IsEncrypted(e.flags) || e.aes.Some?) && Format.IsMasked(e.flags) ==>
      ReadDecrypted(c, file, a, e, password) == Err(UnsupportedEncryption(Masked))
    ensures OnThisDisk(e, a.summary) && !Format.IsEncrypted(e.flags) && e.aes.None? ==>
      ReadDecrypted(c, file, a, e, password) == ReadOpen(c, file, a, e)
  {
    hide Bit, LocalAt, Decoded, Checked, Taken, AesCtr.Decrypted, StrongRoundTrip.Decrypted, ZipCrypto.Opened,
      ForeignDisk;
    DiskChecked(e, a.summary);
    FlagBits(e.flags);
  }

  /**
   A stored entry opens, as what stands in the file, exactly on this disk, unencrypted, with a local header and its
   checksum.
   */
  lemma {:induction false} StoredOpens(c: Crates, file: seq<byte>, a: Archive, e: CentralEntry, plain: seq<byte>)
    requires e.method_ == 0
    ensures
      ReadOpen(c, file, a, e) == Ok(plain)
      <==> OnThisDisk(e, a.summary) && !Format.IsEncrypted(e.flags) && LocalAt(file, e.lfhOffset).Ok?
           && plain == Window(file, LocalAt(file, e.lfhOffset).value.1, e.compressedSize) && ChecksumIs(plain, e.crc32)
  {
    hide Bit, LocalAt, ForeignDisk, Crc32.ReferenceSum;
    DiskChecked(e, a.summary);
    FlagBits(e.flags);
  }

  /**
   With a password and traditional encryption, a stored entry is read exactly when what stands in the file
   is what section 6.1 makes of the plaintext, with the right check byte, and the checksum is right.
   */
  lemma {:induction false} StoredDecrypts(c: Crates, file: seq<byte>, a: Archive, e: CentralEntry,
                                          password: seq<byte>, plain: seq<byte>)
    requires c.ctr.Lawful() && e.method_ == 0 && e.aes.None?
    requires Format.IsEncrypted(e.flags) && !Format.IsStrong(e.flags)
    ensures
      ReadDecrypted(c, file, a, e, password) == Ok(plain)
      <==> OnThisDisk(e, a.summary) && !Format.IsMasked(e.flags) && LocalAt(file, e.lfhOffset).Ok?
           && ChecksumIs(plain, e.crc32)
           && ZipCrypto.Produced(Window(file, LocalAt(file, e.lfhOffset).value.1, e.compressedSize), password,
                LastCheck(e.flags, e.crc32, e.lastModTime), plain)
  {
    hide Bit, LocalAt, ForeignDisk, Crc32.ReferenceSum, ZipCrypto.Opened, ZipCrypto.Produced, CheckByte, LastCheck,
      Window;
    DiskChecked(e, a.summary);
    FlagBits(e.flags);
    CheckIsLast(e.flags, e.crc32, e.lastModTime);
    var local := LocalAt(file, e.lfhOffset);
    if local.Ok? {
      ZipCrypto.OnlyProduced(Taken(file, local.value.1, e.compressedSize), password,
        LastCheck(e.flags, e.crc32, e.lastModTime), plain);
    }
  }

  /** A strongly encrypted entry is read only if some plan for the password encodes its header. */
  lemma {:induction false} StrongOpens(c: Crates, file: seq<byte>, a: Archive, e: CentralEntry, password: seq<byte>)
    requires c.Lawful() && e.aes.None? && Format.IsEncrypted(e.flags) && Format.IsStrong(e.flags)
    requires ReadDecrypted(c, file, a, e, password).Ok?
    ensures OnThisDisk(e, a.summary) && !Format.IsMasked(e.flags) && LocalAt(file, e.lfhOffset).Ok?
    ensures
      var raw := Window(file, LocalAt(file, e.lfhOffset).value.1, e.compressedSize);
      exists plan :: StrongRoundTrip.Encodes(c.cbc, plan, raw, password, e.crc32, e.uncompressedSize)
  {
    hide Bit, LocalAt, ForeignDisk, Crc32.ReferenceSum, Window, StrongRoundTrip.Encodes, Decoded, Checked,
      StrongRoundTrip.Limited, StrongRoundTrip.WholeBlocks, Cbc.CbcDecrypt, StrongRoundTrip.Strong.HeaderOf;
    DiskChecked(e, a.summary);
    FlagBits(e.flags);
    var raw := Taken(file, LocalAt(file, e.lfhOffset).value.1, e.compressedSize);
    StrongRoundTrip.OnlyEncoded(c.cbc, raw, password, e.crc32, e.uncompressedSize);
  }

  /**
   An AES entry stands on this disk, its data is genuine under the
   password, and an AE-1 entry's checksum is right.
   */
  ghost predicate Authentic(c: Crates, file: seq<byte>, a: Archive, e: CentralEntry, password: seq<byte>)
    requires c.ctr.Lawful() && e.aes.Some?
  {
    var local, strength, size := LocalAt(file, e.lfhOffset), e.aes.value.strength, e.compressedSize as nat;
    && OnThisDisk(e, a.summary) && !Format.IsMasked(e.flags) && local.Ok?
    && var raw := Window(file, local.value.1, size);
       && AesCtr.Genuine(c.ctr, raw, password, strength, size)
       && (e.aes.value.isAe2 || ChecksumIs(AesCtr.Plaintext(c.ctr, raw, password, strength, size), e.crc32))
  }

  /**
   A stored AES entry is extracted exactly when the authentication code over its whole ciphertext is
   right, whoever wrote it (an AE-1 entry also needs its checksum), and then as what it holds.
   */
  lemma {:induction false} OnlyAuthentic(c: Crates, file: seq<byte>, a: Archive, e: CentralEntry, password: seq<byte>)
    requires c.ctr.Lawful() && e.aes.Some? && e.aes.value.actualMethod == 0
    ensures ReadDecrypted(c, file, a, e, password).Ok? <==> Authentic(c, file, a, e, password)
    ensures Authentic(c, file, a, e, password) ==>
      var raw := Window(file, LocalAt(file, e.lfhOffset).value.1, e.compressedSize as nat);
      ReadDecrypted(c, file, a, e, password)
        == Ok(AesCtr.Plaintext(c.ctr, raw, password, e.aes.value.strength, e.compressedSize as nat))
  {
    hide LocalAt, Bit, ForeignDisk, AesCtr.Genuine, AesCtr.Plaintext, AesCtr.Decrypted, Crc32.ReferenceSum, Window;
    DiskChecked(e, a.summary);
    FlagBits(e.flags);
    var local := LocalAt(file, e.lfhOffset);
    if local.Ok? {
      var raw := Taken(file, local.value.1, e.compressedSize as nat);
      AesCtr.OnlyGenuine(c.ctr, raw, password, e.aes.value.strength, e.compressedSize as nat);
    }
  }

  // ----- creating and extracting ----------------------------------------------------------------

  /** How a producer protects a member's data. */
  datatype Protection =
    | Unprotected
    | Traditional(header: seq<byte>)
    | WinZipAes(info: AesInfo, salt: seq<byte>)
    | PkwareStrong(plan: StrongRoundTrip.Plan)

  /** Section 6.1.6: the last byte of the header is the high byte of the checksum, or of the time if that follows. */
  function LastCheck(flags: uint16, crc32: uint32, modTime: uint16): byte {
    if Format.DescriptorFollows(flags) then Le(modTime, 2)[1] else Le(crc32, 4)[3]
  }

  lemma {:induction false} CheckIsLast(flags: uint16, crc32: uint32, modTime: uint16)
    ensures CheckByte(flags, crc32, modTime) == LastCheck(flags, crc32, modTime)
  {
    FlagBits(flags);
    assert Le(modTime, 2)[1] == Le(modTime / 256, 1)[0];
    assert Le(crc32, 4)[3] == Le(crc32 / 256, 3)[2] == Le(crc32 / 256 / 256, 2)[1] == Le(crc32 / 256 / 256 / 256, 1)[0];
  }

  /** The program tests the bits that the format names. */
  lemma {:induction false} FlagBits(flags: uint16)
    ensures Bit(flags as nat, ENCRYPTED) <==> Format.IsEncrypted(flags)
    ensures Bit(flags as nat, DESCRIPTOR_FLAG) <==> Format.DescriptorFollows(flags)
    ensures Bit(flags as nat, STRONG) <==> Format.IsStrong(flags)
    ensures Bit(flags as nat, MASKED) <==> Format.IsMasked(flags)
  {
  }

  /** The codec makes `plain` of the compressed bytes `packed`. */
  predicate Unpacks(c: Crates, method_: uint16, size: uint64, packed: seq<byte>, plain: seq<byte>) {
    Decoded(c, method_, size, Plainly(packed)) == Ok(Plainly(plain))
  }

  /** The compressed bytes end by themselves: what follows them does not matter to the codec. */
  ghost predicate EndsItself(c: Crates, method_: uint16, size: uint64, packed: seq<byte>) {
    forall tail :: Decoded(c, method_, size, Plainly(packed + tail)) == Decoded(c, method_, size, Plainly(packed))
  }

  /** The member `m`, whose local record stands at `offset`, holds `plain` so protected under `password`. */
  ghost predicate Holds(c: Crates, m: Member, offset: nat, protection: Protection, password: seq<byte>,
                        plain: seq<byte>)
    requires ValidMember(m, offset)
  {
    && m.diskStart == 0 && !Format.IsMasked(m.flags)
    && match protection {
         case Unprotected =>
           !Format.IsEncrypted(m.flags) && m.method_ != 99 && Unpacks(c, m.method_, m.uncompressedSize, m.data, plain)
         case Traditional(header) =>
           && Format.IsEncrypted(m.flags) && !Format.IsStrong(m.flags) && m.method_ != 99
           && |header| == 12 && header[11] == LastCheck(m.flags, m.crc32, m.modTime)
           && exists packed :: m.data == ZipCrypto.EncryptedMember(password, header, packed)
                              && Unpacks(c, m.method_, m.uncompressedSize, packed, plain)
         case WinZipAes(info, salt) =>
           && m.method_ == 99 && Lookup(Extras(m, offset), Format.AES_EXTRA) == Found(AesBytes(info))
           && c.ctr.Lawful() && |salt| == AesCtr.KeyBytes(info.strength) / 2
           && exists packed :: m.data == AesCtr.Encrypted(c.ctr, password, info.strength, salt, packed)
                              && Unpacks(c, info.actualMethod, m.uncompressedSize, packed, plain)
         case PkwareStrong(plan) =>
           && Format.IsEncrypted(m.flags) && Format.IsStrong(m.flags) && m.method_ != 99
           && plan.Valid() && plan.password == password && plan.crc == m.crc32 && plan.size == m.uncompressedSize
           && m.data == plan.Encode(c.cbc)
           && Unpacks(c, m.method_, m.uncompressedSize, plan.payload, plain)
           && if m.method_ == 0 then plan.size as nat == |plan.payload|
              else EndsItself(c, m.method_, m.uncompressedSize, plan.payload)
       }
  }

  /** Only the AE-2 variant of AES goes without the checksum. */
  predicate Summed(protection: Protection) {
    protection.WinZipAes? ==> !protection.info.isAe2
  }

  /** The entry parsed from a member reads as the member's data decrypted, decoded and checked. */
  lemma {:induction false} HeldIsRead(c: Crates, file: seq<byte>, a: Archive, m: Member, offset: nat, start: nat,
                                      protection: Protection, password: seq<byte>, plain: seq<byte>)
    requires c.Lawful() && ValidMember(m, offset) && Holds(c, m, offset, protection, password, plain)
    requires a.summary.diskNumber == 0 && a.summary.cdStartDisk == 0
    requires LocalAt(file, offset) == Ok((LocalFieldsOf(m), start)) && HasAt(file, start, m.data)
    ensures
      ReadDecrypted(c, file, a, EntryOf(m, offset), password) == Checked(Plainly(plain), Summed(protection), m.crc32)
  {
    hide LocalAt, Bit, Checked, ValidMember, CheckByte, LastCheck, Extras, AesBytes, AesCtr.Decrypted, AesCtr.Encrypted,
      StrongRoundTrip.Decrypted, ZipCrypto.Opened, Decoded, Plainly, ZipCrypto.EncryptedMember,
      StrongRoundTrip.Plan.Valid, StrongRoundTrip.Plan.Encode, AesCtr.KeyBytes;
    var e := EntryOf(m, offset);
    TakenWhole(file, start, m.data);
    FlagBits(m.flags);
    CheckIsLast(m.flags, m.crc32, m.modTime);
    assert Taken(file, start, e.compressedSize as nat) == m.data;
    match protection {
      case Unprotected =>
      case Traditional(header) =>
        var packed :| m.data == ZipCrypto.EncryptedMember(password, header, packed)
                      && Unpacks(c, m.method_, m.uncompressedSize, packed, plain);
        ZipCrypto.RoundTrip(password, header, packed, CheckByte(m.flags, m.crc32, m.modTime));
      case WinZipAes(info, salt) =>
        AesBytesRead(info);
        var packed :| m.data == AesCtr.Encrypted(c.ctr, password, info.strength, salt, packed)
                      && Unpacks(c, info.actualMethod, m.uncompressedSize, packed, plain);
        AesCtr.RoundTrip(c.ctr, password, info.strength, salt, packed);
        PlainlyIs(packed);
      case PkwareStrong(plan) =>
        StrongRoundTrip.EntryRoundTrip(c.cbc, plan, m.method_ == 0);
        PlainlyIs(plan.payload);
        PlainlyIs(plan.payload + plan.padding);
    }
  }

  /** A password does not matter to an unprotected member. */
  lemma {:induction false} HeldOpenly(c: Crates, file: seq<byte>, a: Archive, m: Member, offset: nat, start: nat,
                                      plain: seq<byte>)
    requires c.Lawful() && ValidMember(m, offset) && Holds(c, m, offset, Unprotected, [], plain)
    requires a.summary.diskNumber == 0 && a.summary.cdStartDisk == 0
    requires LocalAt(file, offset) == Ok((LocalFieldsOf(m), start)) && HasAt(file, start, m.data)
    ensures ReadOpen(c, file, a, EntryOf(m, offset)) == Checked(Plainly(plain), true, m.crc32)
  {
    HeldIsRead(c, file, a, m, offset, start, Unprotected, [], plain);
    hide LocalAt, Bit, Checked, ValidMember, HasAt, Extras, AesRecord, Decoded, Plainly, ReadOpen, LocalFieldsOf;
  }

  lemma {:induction false} SummedIsOk(plain: seq<byte>, crc: uint32)
    requires ChecksumIs(plain, crc)
    ensures Checked(Plainly(plain), true, crc) == Ok(plain)
  {
    hide Crc32.ReferenceSum;
  }

  lemma {:induction false} PlainlyIs(bytes: seq<byte>)
    ensures Plainly(bytes) == Flow(bytes, None)
  {
  }

  lemma {:induction false} TakenWhole(file: seq<byte>, start: nat, data: seq<byte>)
    requires HasAt(file, start, data)
    ensures Taken(file, start, |data|) == data
  {
    if data != [] && |file| - start <= |data| {
      assert file[start..] == file[start..start + |data|];
    }
  }

  /**
   Extraction inverts creation, end to end: whatever else the archive holds, a member created with any
   of the four protections, by any method its codec inverts, reads back with its password as its
   plaintext, exactly when the recorded checksum is the plaintext's (AE-2 has none).
   */
  lemma {:induction false} ExtractInvertsCreate(c: Crates, a: Contents, i: nat, protection: Protection,
                                                password: seq<byte>, plain: seq<byte>)
    requires c.Lawful() && a.Valid() && |a.Print()| < MAX_FILE && a.Opens() && a.disk == 0 && a.startDisk == 0
    requires i < |a.members|
    requires
      var offset := Entries(a.members, 0)[i].lfhOffset as nat;
      ValidMember(a.members[i], offset) && Holds(c, a.members[i], offset, protection, password, plain)
    ensures Open(a.Print()) == Ok(a.Parsed()) && i < |a.Parsed().entries|
    ensures
      ReadIndex(c, a.Print(), a.Parsed(), i, Some(password)) == Ok(plain)
      <==> !Summed(protection) || ChecksumIs(plain, a.members[i].crc32)
  {
    hide Open, LocalAt, HasAt, Contents.Print, Locals, Contents.Opens, Holds, Summed, ValidMember, ReadDecrypted,
      LocalFieldsOf;
    RoundTrip(a);
    Placed(a);
    LocalsPrinted(a.Print(), 0, a.members, i);
    EntryIs(a.members, 0, i);
    var m := a.members[i];
    var offset := Entries(a.members, 0)[i].lfhOffset as nat;
    HeldIsRead(c, a.Print(), a.Parsed(), m, offset, DataStart(m, offset), protection, password, plain);
  }

  lemma {:induction false} EntryIs(ms: seq<Member>, base: nat, i: nat)
    requires ValidMembers(ms, base) && i < |ms|
    ensures
      var e := Entries(ms, base)[i]; ValidMember(ms[i], e.lfhOffset as nat) && e == EntryOf(ms[i], e.lfhOffset as nat)
    decreases i
  {
    hide ValidMember, LocalRecord, Extras, AesRecord;
    if i > 0 {
      EntryIs(ms[1..], base + |LocalRecord(ms[0])|, i - 1);
    }
  }
}
