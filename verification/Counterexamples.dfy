/**
 Inputs on which the program does not do what one would expect of it; each is the failing side of an exact
 condition proved elsewhere.
 */
module Counterexamples {
  import opened Wrappers
  import opened Bytes
  import opened Archive
  import opened Container
  import opened Printer
  import opened PrintParse
  import opened Edits
  import opened StoredBlocks
  import Audit
  import Layouts
  import D64 = Deflate64Seek
  import Tree
  import TreeFacts
  import Extract
  import RandomAccess

  const FILE_A: seq<byte> := [0x61]
  const FILE_B: seq<byte> := [0x62]

  // ----- a well-formed Zip64 archive that is refused ----------------------------------------------

  const EMPTY: Member := Member([], 0, 0, 0, 0, 0, [], 0, [], [], [], [], [], 0, 0, 0, 0, 0)

  function Copies(n: nat): (ms: seq<Member>)
    ensures |ms| == n
  {
    if n == 0 then [] else [EMPTY] + Copies(n - 1)
  }

  lemma {:induction false} EmptyRecords(offset: nat)
    requires offset < 0xFFFF_FFFF
    ensures ValidMember(EMPTY, offset) && |LocalRecord(EMPTY)| == LFH_FIXED
    ensures |CentralRecord(EMPTY, offset)| == CD_FIXED
  {
    hide Le;
    var s := SizesOf(EMPTY, offset);
    assert WideFields(s) == [];
    assert Extras(EMPTY, offset) == [];
  }

  lemma {:induction false} CopiesPrinted(n: nat, base: nat)
    requires base + LFH_FIXED * n < 0xFFFF_FFFF
    ensures ValidMembers(Copies(n), base) && |Locals(Copies(n))| == LFH_FIXED * n
    ensures |Headers(Copies(n), base)| == CD_FIXED * n
    decreases n
  {
    hide ValidMember, LocalRecord, CentralRecord;
    if n > 0 {
      EmptyRecords(base);
      CopiesPrinted(n - 1, base + LFH_FIXED);
      assert Copies(n)[1..] == Copies(n - 1);
    }
  }

  /** So many empty members that Zip64 records are needed, and a comment free of one byte. */
  predicate Crowd(a: Contents, n: nat) {
    && 0xFFFF <= n <= MAX_ENTRIES && a.members == Copies(n) && a.signature.Unsigned? && a.disk == 0 && a.startDisk == 0
    && 65515 < |a.comment| < 0x1_0000 && Unmarked(a.comment)
  }

  lemma {:induction false} CrowdIs(a: Contents, n: nat)
    requires Crowd(a, n)
    ensures a.Valid() && a.NeedsZip64() && |a.members| == n
    ensures a.CdOffset() == LFH_FIXED * n && |Headers(a.members, 0)| == CD_FIXED * n
  {
    hide Locals, Headers, ValidMembers, Copies, Unmarked;
    CopiesPrinted(n, 0);
  }

  lemma {:induction false} CrowdSize(a: Contents, n: nat)
    requires Crowd(a, n)
    ensures a.Valid() && |a.Print()| < MAX_FILE && a.CdSize() == CD_FIXED * n
  {
    CrowdIs(a, n);
    hide Locals, Headers, Contents.Valid, Copies, Contents.Print, Contents.EocdBytes, Contents.Zip64RecordBytes,
      Contents.LocatorBytes, Unmarked, Contents.NeedsZip64, HasAt, Contents.CdOffset;
    Placed(a);
  }

  const MARK: byte := 0x50

  predicate Unmarked(s: seq<byte>) {
    MARK !in s
  }

  lemma {:induction false} TwoUnmarked(n: nat)
    requires n % 256 != 0x50 && n / 256 % 256 != 0x50
    ensures Unmarked(Le(n, 2))
  {
    assert Le(n, 2) == [(n % 256) as byte] + Le(n / 256, 1);
    assert Le(n / 256, 1) == [(n / 256 % 256) as byte] + Le(n / 256 / 256, 0);
  }

  lemma {:induction false} FourUnmarked(n: nat)
    requires n % 256 != 0x50 && n / 256 % 256 != 0x50 && n / 65536 % 256 != 0x50 && n / 65536 / 256 % 256 != 0x50
    ensures Unmarked(Le(n, 4))
  {
    assert Le(n, 4) == [(n % 256) as byte] + Le(n / 256, 3);
    assert Le(n / 256, 3) == [(n / 256 % 256) as byte] + Le(n / 256 / 256, 2);
    assert n / 256 / 256 == n / 65536;
    TwoUnmarked(n / 65536);
  }

  lemma {:induction false} SignatureTail()
    ensures Unmarked(Le(EOCD_SIG, 4)[1..])
  {
    assert Le(EOCD_SIG, 4) == [0x50] + Le(EOCD_SIG / 256, 3);
    assert Le(EOCD_SIG / 256, 3) == [0x4B] + Le(EOCD_SIG / 65536, 2);
    TwoUnmarked(EOCD_SIG / 65536);
  }

  lemma {:induction false} CountsUnmarked(size: nat, offset: nat, comment: nat)
    requires size == 3014610 && offset == 1966050 && comment == 65516
    ensures Unmarked(Le(size, 4)) && Unmarked(Le(offset, 4)) && Unmarked(Le(comment, 2))
    ensures Unmarked(Le(0xFFFF, 2)) && Unmarked(Le(0, 2))
  {
    hide Le, Unmarked;
    TwoUnmarked(0);
    TwoUnmarked(0xFFFF);
    FourUnmarked(size);
    FourUnmarked(offset);
    TwoUnmarked(comment);
  }

  lemma {:induction false} AllUnmarked(a: seq<byte>, b: seq<byte>, c: seq<byte>, d: seq<byte>, e: seq<byte>,
                                       f: seq<byte>)
    requires Unmarked(a) && Unmarked(b) && Unmarked(c) && Unmarked(d) && Unmarked(e) && Unmarked(f)
    ensures Unmarked(f + (a + (a + (b + (b + (c + (d + e)))))))
  {
    assert MARK !in d + e;
    assert MARK !in b + (b + (c + (d + e)));
    assert MARK !in a + (a + (b + (b + (c + (d + e)))));
  }

  /** No byte of the end record but its first is the signature's first. */
  lemma {:induction false} CrowdEnd(a: Contents, size: nat, offset: nat, comment: nat)
    requires a.Valid() && a.disk == 0 && a.startDisk == 0 && a.ClipCount() == 0xFFFF
    requires a.CdSize() == size == 3014610 && a.CdOffset() == offset == 1966050 && |a.comment| == comment == 65516
    ensures Unmarked(a.EocdBytes()[1..])
  {
    hide Contents.CdSize, Contents.CdOffset, Contents.Valid, Contents.ClipCount, Le, Unmarked;
    SignatureTail();
    CountsUnmarked(size, offset, comment);
    AllUnmarked(Le(0, 2), Le(0xFFFF, 2), Le(size, 4), Le(offset, 4), Le(comment, 2), Le(EOCD_SIG, 4)[1..]);
    var counts :=
      Le(0, 2) + (Le(0, 2) + (Le(0xFFFF, 2) + (Le(0xFFFF, 2) + (Le(size, 4) + (Le(offset, 4) + Le(comment, 2))))));
    assert a.EocdBytes() == Le(EOCD_SIG, 4) + counts;
    assert a.EocdBytes()[1..] == Le(EOCD_SIG, 4)[1..] + counts;
  }

  lemma {:induction false} LowByte(s: seq<byte>, at: nat)
    requires at + 4 <= |s|
    ensures U32At(s, at) as nat % 256 == s[at] as nat
  {
    var x := s[at..at + 4];
    assert FromLe(x) == x[0] as int + 256 * FromLe(x[1..]);
  }

  lemma {:induction false} CrowdUnambiguous(a: Contents)
    requires a.Valid() && Unmarked(a.EocdBytes()[1..]) && Unmarked(a.comment)
    ensures a.UnambiguousEnd()
  {
    hide Contents.EocdBytes, Contents.Valid, U32At;
    var end := a.EocdBytes();
    var tail := end + a.comment;
    forall i | 0 < i <= |a.comment|
      ensures U32At(tail, i) != EOCD_SIG
    {
      LowByte(tail, i);
      assert i < EOCD_MIN ==> tail[i] == end[1..][i - 1];
      assert i >= EOCD_MIN ==> tail[i] == a.comment[i - EOCD_MIN];
    }
  }

  lemma {:induction false} CrowdRefused(a: Contents, n: nat)
    requires Crowd(a, n) && a.Valid() && |a.Print()| < MAX_FILE && a.UnambiguousEnd()
    ensures |a.members| <= MAX_ENTRIES && Open(a.Print()) == Err(Zip64Unsupported)
  {
    CrowdIs(a, n);
    hide Contents.Print, Contents.EocdBytes, Contents.NeedsZip64, Contents.CdSize, Contents.CdOffset, Contents.Valid,
      Contents.UnambiguousEnd, Contents.EocdOffset, Contents.Parsed, Copies, OpenAt, EocdPos, ScanStart, Unmarked;
    EndFound(a);
    OpenedAtEnd(a);
  }

  lemma {:induction false} CrowdClear(a: Contents, n: nat)
    requires Crowd(a, n) && n == 0xFFFF && |a.comment| == 65516
    ensures a.Valid() && a.UnambiguousEnd()
  {
    CrowdIs(a, n);
    CrowdSize(a, n);
    hide Contents.Print, Contents.EocdBytes, Contents.NeedsZip64, Contents.CdSize, Contents.CdOffset, Contents.Valid,
      Contents.UnambiguousEnd, Copies, Unmarked;
    CrowdEnd(a, a.CdSize(), a.CdOffset(), |a.comment|);
    CrowdUnambiguous(a);
  }

  /** With a comment of 65516 bytes the archive of 65535 members is well formed and unambiguous, and refused. */
  lemma {:induction false} LongCommentRefused(a: Contents, n: nat)
    requires Crowd(a, n) && n == 0xFFFF && |a.comment| == 65516
    ensures a.Valid() && |a.Print()| < MAX_FILE && a.UnambiguousEnd() && |a.members| <= MAX_ENTRIES
    ensures Open(a.Print()) == Err(Zip64Unsupported)
  {
    hide Crowd, Open, Contents.Print, Contents.Valid, Contents.UnambiguousEnd;
    CrowdClear(a, n);
    CrowdSize(a, n);
    CrowdRefused(a, n);
  }

  // ----- a prefix that goes unnoticed -----------------------------------------------------------

  /** Every archive has a prefix that hides itself: a central-header signature at the recorded offset. */
  lemma {:induction false} PrefixUnnoticed(f: File)
    requires Open(f).Ok? && Open(f).value.entries != [] && EocdPos(f).Some?
    requires EocdPos(f).value + EOCD_MIN <= |f| && EocdFields(f, EocdPos(f).value).offset as nat + 4 + |f| < MAX_FILE
    ensures
      var p := seq(EocdFields(f, EocdPos(f).value).offset as nat, _ => 0 as byte) + Le(CD_HEADER_SIG, 4);
      p != [] && Open(p + f) != Ok(Moved(Open(f).value, |p|))
  {
    hide Open, EocdPos, EocdFields, Le, U32At, FieldAt;
    var at := EocdFields(f, EocdPos(f).value).offset as nat;
    var p := seq(at, _ => 0 as byte) + Le(CD_HEADER_SIG, 4);
    assert (p + f)[at..at + 4] == Le(CD_HEADER_SIG, 4);
    Ranges();
    ReadBack(p + f, at, CD_HEADER_SIG, 4);
    HeaderThere(p + f, at);
    Prepending(p, f);
  }

  lemma {:induction false} HeaderThere(s: seq<byte>, at: nat)
    requires at + 4 <= |s| && FieldAt(s, at, 4) == CD_HEADER_SIG
    ensures CdHeaderAt(s, at)
  {
  }

  // ----- an archive of one member whose sizes disagree ------------------------------------------

  /** An archive of one member "a" with the recorded method, size and checksum, and the data `packed`. */
  function Lone(method_: uint16, size: uint64, crc: uint32, packed: seq<byte>): Contents {
    var m := Member(FILE_A, 0, method_, 0, 0, crc, packed, size, [], [], [], [], [], 0, 0, 0, 0, 0);
    Contents([m], Unsigned, [], 0, 0)
  }

  lemma {:induction false} LoneMember(m: Member)
    requires |m.data| < 0x1_0000 && m.name == FILE_A && m.localExtra == [] && m.descriptor == [] && m.comment == []
    requires m.before == [] && m.after == []
    ensures
      && ValidMember(m, 0) && |LocalRecord(m)| == LFH_FIXED + 1 + |m.data|
      && |CentralRecord(m, 0)| <= CD_FIXED + 1 + 28
  {
    hide Le;
    var s := SizesOf(m, 0);
    assert Extras(m, 0) == Zip64Records(s);
    OneRecord(WideFields(s));
  }

  lemma {:induction false} OneRecord(data: seq<byte>)
    requires |data| <= 24
    ensures |ExtraBytes([])| == 0 && |ExtraBytes([ExtraRecord(ZIP64_EXTRA_ID, data)])| <= 28
  {
    assert [ExtraRecord(ZIP64_EXTRA_ID, data)][1..] == [];
  }

  lemma {:induction false} LoneIs(method_: uint16, size: uint64, crc: uint32, packed: seq<byte>)
    requires |packed| < 0x1_0000
    ensures
      var a := Lone(method_, size, crc, packed);
      && a.Valid() && a.Opens() && a.CdOffset() == 31 + |packed| && |Headers(a.members, 0)| < 0x100
      && Entries(a.members, 0)[0].lfhOffset == 0
  {
    hide ValidMember, LocalRecord, CentralRecord, AesRecord, Extras, U32At;
    var m := Lone(method_, size, crc, packed).members[0];
    LoneMember(m);
    assert Locals([m]) == LocalRecord(m) + Locals([]);
    assert Headers([m], 0) == CentralRecord(m, 0) + Headers([], |LocalRecord(m)|);
  }

  lemma {:induction false} LoneFits(method_: uint16, size: uint64, crc: uint32, packed: seq<byte>)
    requires |packed| < 0x1_0000
    ensures var a := Lone(method_, size, crc, packed); a.Valid() && 31 + |packed| + EOCD_MIN <= |a.Print()| < MAX_FILE
  {
    LoneIs(method_, size, crc, packed);
    var a := Lone(method_, size, crc, packed);
    hide Locals, Headers, Contents.Valid, Contents.Print, Contents.EocdBytes, Contents.Zip64RecordBytes,
      Contents.LocatorBytes, HasAt, Contents.CdOffset, Contents.NeedsZip64, Lone;
    Placed(a);
  }

  lemma {:induction false} HeaderByte(file: seq<byte>, at: nat)
    requires CdHeaderAt(file, at)
    ensures at < |file| && file[at] == 0x50
  {
    hide U32At;
    LowByte(file, at);
  }

  lemma {:induction false} LoneAt(method_: uint16, size: uint64, crc: uint32, packed: seq<byte>)
    requires |packed| < 0x1_0000
    ensures
      var a := Lone(method_, size, crc, packed);
      && a.Valid() && |a.Print()| < MAX_FILE
      && RandomAccess.MemberAt(a, 0) == Layouts.Described(RandomAccess.CompressionOf(method_), 31, |packed|, size)
  {
    LoneIs(method_, size, crc, packed);
    LoneFits(method_, size, crc, packed);
    hide Contents.Print, ValidMember, Entries;
  }

  /** The member's data, and the first byte of the central directory behind it. */
  lemma {:induction false} LoneBytes(method_: uint16, size: uint64, crc: uint32, packed: seq<byte>)
    requires |packed| < 0x1_0000
    ensures
      var a := Lone(method_, size, crc, packed);
      var end := 31 + |packed|;
      && a.Valid() && a.Opens() && end + EOCD_MIN <= |a.Print()| < MAX_FILE
      && a.Print()[31..end] == packed && a.Print()[end] == 0x50
      && Layouts.InRange(RandomAccess.MemberAt(a, 0), a.Print())
  {
    LoneIs(method_, size, crc, packed);
    LoneFits(method_, size, crc, packed);
    LoneAt(method_, size, crc, packed);
    var a := Lone(method_, size, crc, packed);
    assert a.members != [] && a.members[0].data == packed;
    hide Headers, Contents.Print, Contents.Opens, Contents.Valid, Locals, Lone, LocalFieldsOf, LocalAt,
      RandomAccess.MemberAt, Entries, CdHeaderAt, HasAt;
    RandomAccess.MemberInside(a, 0);
    HeaderAtStart(a);
    HeaderByte(a.Print(), 31 + |packed|);
  }

  lemma {:induction false} ChosenStored(d: Layouts.Described, file: seq<byte>, m: D64.Machine<nat>, st: D64.Stream<nat>)
    requires d.compression.Stored?
    ensures
      Layouts.Chosen(Layouts.Opened(d.size, Layouts.Blocks([StoredBlock(0, d.size, d.dataStart)])), d, file, m, st)
  {
    hide Layouts.Indexed;
  }

  /**
   One stored byte declared as two: random access opens the member, and a read past its data returns
   the first byte of the central directory.
   */
  lemma {:induction false} StoredPastEnd(m: D64.Machine<nat>, st: D64.Stream<nat>, crc: uint32)
    ensures
      var a := Lone(0, 2, crc, [7]);
      && a.Valid() && |a.Print()| < MAX_FILE && a.Opens() && Layouts.InRange(RandomAccess.MemberAt(a, 0), a.Print())
      && var o := Layouts.Opened(2, Layouts.Blocks([StoredBlock(0, 2, 31)]));
         && Layouts.Chosen(o, RandomAccess.MemberAt(a, 0), a.Print(), m, st) && Layouts.Serviceable(o)
         && Layouts.Answer(o, a.Print(), st, Ok([7]), 0, 2) == Layouts.Done([7, 0x50])
  {
    LoneBytes(0, 2, crc, [7]);
    LoneAt(0, 2, crc, [7]);
    var a := Lone(0, 2, crc, [7]);
    hide Contents.Print, Contents.Opens, Contents.Valid, Lone, RandomAccess.MemberAt, Layouts.Chosen, Layouts.InRange;
    ChosenStored(RandomAccess.MemberAt(a, 0), a.Print(), m, st);
    assert a.Print()[31] == a.Print()[31..32][0];
    GatheredPast(a.Print(), st);
  }

  lemma {:induction false} GatheredPast(file: seq<byte>, st: D64.Stream<nat>)
    requires |file| > 32 && file[31] == 7 && file[32] == 0x50
    ensures
      var o := Layouts.Opened(2, Layouts.Blocks([StoredBlock(0, 2, 31)]));
      Layouts.Serviceable(o) && Layouts.Answer(o, file, st, Ok([7]), 0, 2) == Layouts.Done([7, 0x50])
  {
    var bs := [StoredBlock(0, 2, 31)];
    assert PlaceOf(bs, 0, 0) == 31 && PlaceOf(bs, 0, 1) == 32;
    assert Readable(file, bs, 2, 0, 2);
    assert Layouts.Gathered(file, bs, 2, 0, 2) == [7, 0x50];
  }

  const U64_MAX: uint64 := 0xFFFF_FFFF_FFFF_FFFF

  /**
   One stored byte declared as 2^64 - 1: a read of ten bytes near that size is looked for at a place that
   wraps, and returns bytes of the local header.
   */
  lemma {:induction false} PlaceWraps(m: D64.Machine<nat>, st: D64.Stream<nat>, crc: uint32)
    ensures
      var a := Lone(0, U64_MAX, crc, [7]);
      && a.Valid() && 20 <= |a.Print()| < MAX_FILE && a.Opens()
      && Layouts.InRange(RandomAccess.MemberAt(a, 0), a.Print())
      && var o := Layouts.Opened(U64_MAX, Layouts.Blocks([StoredBlock(0, U64_MAX, 31)]));
         && Layouts.Chosen(o, RandomAccess.MemberAt(a, 0), a.Print(), m, st) && Layouts.Serviceable(o)
         && Layouts.Answer(o, a.Print(), st, Ok([7]), U64_MAX - 20, 10) == Layouts.Done(a.Print()[10..20])
  {
    LoneBytes(0, U64_MAX, crc, [7]);
    LoneAt(0, U64_MAX, crc, [7]);
    var a := Lone(0, U64_MAX, crc, [7]);
    hide Contents.Print, Contents.Opens, Contents.Valid, Lone, RandomAccess.MemberAt, Layouts.Chosen, Layouts.InRange;
    ChosenStored(RandomAccess.MemberAt(a, 0), a.Print(), m, st);
    GatheredWrapped(a.Print(), st);
  }

  lemma {:induction false} GatheredWrapped(file: seq<byte>, st: D64.Stream<nat>)
    requires |file| >= 20
    ensures
      var o := Layouts.Opened(U64_MAX, Layouts.Blocks([StoredBlock(0, U64_MAX, 31)]));
      Layouts.Serviceable(o) && Layouts.Answer(o, file, st, Ok([7]), U64_MAX - 20, 10) == Layouts.Done(file[10..20])
  {
    var bs, at := [StoredBlock(0, U64_MAX, 31)], U64_MAX - 20;
    forall p | at <= p < at + 10
      ensures PlaceOf(bs, at, p) == p - at + 10
    {
    }
    assert Readable(file, bs, U64_MAX, at, 10);
    assert Layouts.Gathered(file, bs, U64_MAX, at, 10) == file[10..20];
  }

  // ----- a member that is only decoded whole ------------------------------------------------------

  lemma {:induction false} FallbackOpened(m: D64.Machine<nat>, st: D64.Stream<nat>, crc: uint32, packed: seq<byte>)
    requires |packed| < 0x1_0000
    ensures
      var a := Lone(93, 10, crc, packed);
      && a.Valid() && |a.Print()| < MAX_FILE && a.Opens() && Layouts.InRange(RandomAccess.MemberAt(a, 0), a.Print())
      && Layouts.Chosen(Layouts.Opened(10, Layouts.Fallback), RandomAccess.MemberAt(a, 0), a.Print(), m, st)
  {
    LoneBytes(93, 10, crc, packed);
    LoneAt(93, 10, crc, packed);
    var a := Lone(93, 10, crc, packed);
    hide Contents.Print, Contents.Opens, Contents.Valid, Lone, RandomAccess.MemberAt, Layouts.Chosen, Layouts.InRange;
    ChosenFallback(RandomAccess.MemberAt(a, 0), a.Print(), m, st);
  }

  /**
   Data that its codec, one that random access only uses on the whole, unpacks to the byte 7, declared as
   ten bytes: a read at offset 2 panics.
   */
  lemma {:induction false} FallbackPanics(c: Extract.Crates, m: D64.Machine<nat>, st: D64.Stream<nat>, crc: uint32,
                                          packed: seq<byte>)
    requires c.Lawful() && |packed| < 0x1_0000
    requires Extract.Unpacks(c, 93, 10, packed, [7]) && Extract.ChecksumIs([7], crc)
    ensures
      var a := Lone(93, 10, crc, packed);
      && a.Valid() && |a.Print()| < MAX_FILE && a.Opens() && Layouts.InRange(RandomAccess.MemberAt(a, 0), a.Print())
      && var o := Layouts.Opened(10, Layouts.Fallback);
         && Layouts.Chosen(o, RandomAccess.MemberAt(a, 0), a.Print(), m, st)
         && Layouts.Answer(o, a.Print(), st, RandomAccess.ReadNamed(c, a.Print(), FILE_A), 2, 1) == Layouts.Panics
  {
    FallbackOpened(m, st, crc, packed);
    LoneHolds(c, crc, packed);
    hide Contents.Print, Contents.Opens, Contents.Valid, Lone, RandomAccess.MemberAt, RandomAccess.ReadNamed,
      Extract.Unpacks, Extract.ChecksumIs, Extract.Crates.Lawful, Layouts.Answer, Layouts.Chosen, Layouts.InRange;
    PanicsPast(Lone(93, 10, crc, packed).Print(), st);
  }

  lemma {:induction false} ChosenFallback(d: Layouts.Described, file: seq<byte>, m: D64.Machine<nat>,
                                          st: D64.Stream<nat>)
    requires d.compression.Other?
    ensures Layouts.Chosen(Layouts.Opened(d.size, Layouts.Fallback), d, file, m, st)
  {
    hide Layouts.Indexed;
  }

  lemma {:induction false} PanicsPast(file: seq<byte>, st: D64.Stream<nat>)
    ensures Layouts.Answer(Layouts.Opened(10, Layouts.Fallback), file, st, Ok([7]), 2, 1) == Layouts.Panics
  {
  }

  lemma {:induction false} LoneHolds(c: Extract.Crates, crc: uint32, packed: seq<byte>)
    requires c.Lawful() && |packed| < 0x1_0000
    requires Extract.Unpacks(c, 93, 10, packed, [7]) && Extract.ChecksumIs([7], crc)
    ensures
      var a := Lone(93, 10, crc, packed);
      a.Valid() && |a.Print()| < MAX_FILE && RandomAccess.ReadNamed(c, a.Print(), FILE_A) == Ok([7])
  {
    LoneIs(93, 10, crc, packed);
    LoneFits(93, 10, crc, packed);
    var a := Lone(93, 10, crc, packed);
    LoneHas(crc, packed);
    Extract.EntryIs(a.members, 0, 0);
    hide Contents.Print, Contents.Opens, Contents.Valid, Entries, Extract.Unpacks, Extract.ChecksumIs,
      RandomAccess.ReadNamed, Extract.Holds, ValidMember;
    LoneHeld(c, a, 0);
    RandomAccess.NamedMember(c, a, 0, [7]);
  }

  lemma {:induction false} LoneHas(crc: uint32, packed: seq<byte>)
    ensures
      var m := Lone(93, 10, crc, packed).members[0];
      && m.name == FILE_A && m.diskStart == 0 && m.flags == 0 && m.method_ == 93 && m.uncompressedSize == 10
      && m.data == packed && m.crc32 == crc
  {
  }

  lemma {:induction false} LoneHeld(c: Extract.Crates, a: Contents, offset: nat)
    requires |a.members| == 1 && ValidMember(a.members[0], offset)
    requires
      var m := a.members[0];
      && m.diskStart == 0 && m.flags == 0 && m.method_ == 93 && m.uncompressedSize == 10
      && Extract.Unpacks(c, 93, 10, m.data, [7])
    ensures Extract.Holds(c, a.members[0], offset, Extract.Unprotected, [], [7])
  {
    hide ValidMember, Extract.Unpacks;
  }

  // ----- a signature record completed by appended bytes -------------------------------------------

  /** An end record of one entry whose directory block, of 68 bytes from offset 0, it is itself part of. */
  function InnerEnd(): (s: seq<byte>)
    ensures |s| == EOCD_MIN
  {
    Le(EOCD_SIG, 4) + (Le(0, 2) + (Le(0, 2) + (Le(1, 2) + (Le(1, 2) + (Le(68, 4) + (Le(0, 4) + Le(0, 2)))))))
  }

  /** A central header whose comment is the end record. */
  function Swallower(): Member {
    Member([], 0, 0, 0, 0, 0, [], 0, [], [], [], [], InnerEnd(), 0, 0, 0, 0, 0)
  }

  /** A signature record of seven bytes, up to its length. */
  function RecordHead(): seq<byte> {
    Le(ARCHIVE_SIG_SIG, 4) + Le(7, 2)
  }

  /** A file that is nothing but that header, and bytes to append to it. */
  predicate Swallowed(f: seq<byte>, s: seq<byte>) {
    ValidMember(Swallower(), 0) && f == CentralRecord(Swallower(), 0) && s == RecordHead()
  }

  lemma {:induction false} SwallowedIs(f: seq<byte>, s: seq<byte>)
    requires Swallowed(f, s)
    ensures |f| == 68 && f[46..] == InnerEnd() && |s| == 6
    ensures EntriesFrom(f, 0, 1) == Ok(([EntryOf(Swallower(), 0)], 68))
  {
    hide InnerEnd, Le, EntriesFrom, EntryOf;
    var m := Swallower();
    assert WideFields(SizesOf(m, 0)) == [];
    assert Extras(m, 0) == [];
    assert f == CentralFixedBytes(m, 0) + ([] + (ExtraBytes([]) + InnerEnd()));
    SwallowedEntries(f);
  }

  /** There is such a file. */
  lemma {:induction false} SwallowerValid()
    ensures Swallowed(CentralRecord(Swallower(), 0), RecordHead())
  {
    hide InnerEnd, Le, CentralFixedBytes, RecordHead;
    assert WideFields(SizesOf(Swallower(), 0)) == [];
    assert Extras(Swallower(), 0) == [];
  }

  lemma {:induction false} InnerEndRead(file: seq<byte>)
    requires HasAt(file, 46, InnerEnd())
    ensures EocdAt(file, 46) && EocdFields(file, 46) == Eocd(0, 0, 1, 68, 0, 0)
  {
    Ranges();
    PartsInPlace(file);
    FieldsReadBack(file);
    hide HasAt, FieldAt, FromLe, Le, Range;
  }

  lemma {:induction false} InnerEndUnmarked()
    ensures Unmarked(InnerEnd()[1..])
  {
    TwoUnmarked(0);
    TwoUnmarked(1);
    FourUnmarked(68);
    FourUnmarked(0);
    SignatureTail();
    hide Le, Unmarked;
    AllUnmarked(Le(0, 2), Le(1, 2), Le(68, 4), Le(0, 4), Le(0, 2), Le(EOCD_SIG, 4)[1..]);
    DropFirst(Le(EOCD_SIG, 4), Le(0, 2) + (Le(0, 2) + (Le(1, 2) + (Le(1, 2) + (Le(68, 4) + (Le(0, 4) + Le(0, 2)))))));
  }

  lemma {:induction false} DropFirst(a: seq<byte>, b: seq<byte>)
    requires a != []
    ensures (a + b)[1..] == a[1..] + b
  {
  }

  /** With at most six bytes behind it, the end record is the last of the file. */
  lemma {:induction false} InnerEndLast(file: seq<byte>)
    requires 68 <= |file| <= 74 && file[46..68] == InnerEnd()
    ensures EocdPos(file) == Some(46) && EocdFields(file, 46) == Eocd(0, 0, 1, 68, 0, 0)
    ensures ScanStart(|file|) == 0 && forall i :: 46 < i ==> !EocdAt(file, i)
  {
    hide InnerEnd, U32At, EocdPos, EocdFields;
    InnerEndRead(file);
    InnerEndUnmarked();
    forall i | 46 < i
      ensures !EocdAt(file, i)
    {
      if i + EOCD_MIN <= |file| {
        assert file[i] == InnerEnd()[1..][i - 47];
        LowByte(file, i);
      }
    }
    EocdPosIsLast(file, 46);
  }

  lemma {:induction false} SwallowedEntries(cd: seq<byte>)
    requires ValidMember(Swallower(), 0) && |cd| == 68 && cd == CentralRecord(Swallower(), 0)
    ensures EntriesFrom(cd, 0, 1) == Ok(([EntryOf(Swallower(), 0)], 68))
  {
    hide CentralRecord, EntryOf, EntryAt, ValidMember, Swallower;
    assert HasAt(cd, 0, CentralRecord(Swallower(), 0));
    EntryPrinted(cd, 0, Swallower(), 0);
    OneEntry(cd, EntryOf(Swallower(), 0));
  }

  lemma {:induction false} OneEntry(cd: seq<byte>, e: CentralEntry)
    requires EntryAt(cd, 0) == Ok((e, |cd|))
    ensures EntriesFrom(cd, 0, 1) == Ok(([e], |cd|))
  {
    hide EntryAt;
    assert EntriesFrom(cd, |cd|, 0) == Ok(([], |cd|));
    assert [e] + [] == [e];
  }

  /** A file with one header of 68 bytes and an end record inside it. */
  predicate OneHeader(file: seq<byte>, e: CentralEntry) {
    && 68 <= |file| <= 74 && EocdPos(file) == Some(46) && EocdFields(file, 46) == Eocd(0, 0, 1, 68, 0, 0)
    && EntriesFrom(file[..68], 0, 1) == Ok(([e], 68))
  }

  /** Such a file opens, with the header as its one entry. */
  lemma {:induction false} OneHeaderOpens(file: File, e: CentralEntry)
    requires OneHeader(file, e)
    ensures Open(file) == Ok(Archive([e], Summary(|file|, 0, 68, 68, 0, 0, 0, SignatureLen(file, 0, 68, 68))))
  {
    hide EocdPos, EocdFields, SignatureLen, EntriesFrom, ScanStart, Shifted;
    EocdPosInside(file);
    ShiftByZero([e]);
    assert file[0..68] == file[..68];
    assert Locate(file, 46) == Ok(Directory(0, 68, 1, 0, 0, false));
  }

  lemma {:induction false} Completed(f: File, s: seq<byte>, e: CentralEntry)
    requires |f| == 68 && |s| == 6 && OneHeader(f, e) && OneHeader(f + s, e)
    requires ScanStart(|f + s|) == 0 && forall i :: 46 < i ==> !EocdAt(f + s, i)
    requires U32At(f + s, 68) == ARCHIVE_SIG_SIG && U16At(f + s, 72) == 7
    ensures Open(f).Ok? && Open(f + s).Ok? && KeepsEnd(f, s, 46) && !KeepsSignature(f, s, Open(f).value)
    ensures Open(f).value.summary.signatureLen == None && Open(f + s).value.summary.signatureLen == Some(7)
  {
    hide Open, EocdPos, EocdFields, EocdAt, EntriesFrom, ScanStart, U32At, U16At;
    OneHeaderOpens(f, e);
    OneHeaderOpens(f + s, e);
    assert f[0..68] == f[..68];
    assert EocdFields(f, 46) == Eocd(0, 0, 1, 68, 0, 0);
  }

  /**
   Six bytes behind a directory block that ends with the file complete a signature record: the archive
   opens before and after, its end record stays where it was, and the summary changes.
   */
  lemma {:induction false} SignatureCompleted(f: File, s: seq<byte>)
    requires Swallowed(f, s)
    ensures |f| == 68 && |s| == 6 && Open(f).Ok? && Open(f + s).Ok?
    ensures Open(f).value.summary.centralDirOffset + Open(f).value.summary.centralDirSize <= |f|
    ensures KeepsEnd(f, s, 46) && !KeepsSignature(f, s, Open(f).value)
    ensures Open(f).value.summary.signatureLen == None && Open(f + s).value.summary.signatureLen == Some(7)
  {
    SwallowedIs(f, s);
    var e := EntryOf(Swallower(), 0);
    RecordGiven(f, s);
    hide Swallowed, InnerEnd, EocdPos, EocdFields, EntriesFrom, EocdAt, U32At, U16At, Open, ScanStart, RecordHead,
      Swallower, EntryOf, CentralRecord, ValidMember, KeepsEnd, KeepsSignature;
    assert (f + s)[68..] == s && (f + s)[..68] == f && f[..68] == f;
    assert (f + s)[46..68] == f[46..] && f[46..68] == f[46..];
    RecordHeadRead(f + s);
    InnerEndLast(f);
    InnerEndLast(f + s);
    Completed(f, s, e);
  }

  lemma {:induction false} RecordGiven(f: seq<byte>, s: seq<byte>)
    requires Swallowed(f, s)
    ensures s == RecordHead()
  {
  }

  lemma {:induction false} RecordHeadRead(file: seq<byte>)
    requires |file| >= 68 && file[68..] == RecordHead()
    ensures |file| == 74 && U32At(file, 68) == ARCHIVE_SIG_SIG && U16At(file, 72) == 7
  {
    Ranges();
    assert file[68..] == file[68..|file|];
    assert HasAt(file, 68, Le(ARCHIVE_SIG_SIG, 4) + Le(7, 2));
    HasAtConcat(file, 68, Le(ARCHIVE_SIG_SIG, 4), Le(7, 2));
    ReadBack(file, 68, ARCHIVE_SIG_SIG, 4);
    ReadBack(file, 72, 7, 2);
  }

  // ----- overlapping members that are not reported as a pair --------------------------------------

  function Covered(index: nat, lfh: uint64, length: uint64): EntryLayout {
    var fields := HeaderFields(FILE_A, 0, 0, 0, length, length);
    EntryLayout(index, lfh, lfh + LFH_FIXED + 1, fields, fields)
  }

  /** The first member's data covers both others, and is reported with its neighbour only. */
  lemma {:induction false} PairUnreported(u: Audit.UnicodeChecks)
    requires !u.bidi(FILE_A) && !u.control(FILE_A)
    ensures
      var layout := [Covered(0, 0, 200), Covered(1, 40, 1), Covered(2, 80, 1)];
      Audit.SharedByte(layout, 0, 2, 111) && Audit.LayoutFindings(layout, u) == [Audit.Overlap(0, 1, 71)]
  {
    var layout := [Covered(0, 0, 200), Covered(1, 40, 1), Covered(2, 80, 1)];
    var spans := Audit.SpansOf(layout);
    assert spans == [Audit.Span(0, 31, 231), Audit.Span(1, 71, 72), Audit.Span(2, 111, 112)];
    assert Audit.SharedByte(layout, 0, 2, 111);
    ThreeSwept(spans);
    NothingInside(layout, u);
    assert Audit.Prepended(layout) == [] by {
      assert layout[0].lfhOffset == 0;
    }
    hide Audit.Findings, Audit.Sorted, Audit.InsideEntries, Audit.Prepended;
  }

  lemma {:induction false} ThreeSwept(spans: seq<Audit.Span>)
    requires spans == [Audit.Span(0, 31, 231), Audit.Span(1, 71, 72), Audit.Span(2, 111, 112)]
    ensures Audit.Findings(Audit.Sorted(spans), 3) == [Audit.Overlap(0, 1, 71)]
  {
    Audit.OrderIsUnique(spans, [0, 1, 2], 3);
    Audit.SortedAt(spans, 0);
    Audit.SortedAt(spans, 1);
    Audit.SortedAt(spans, 2);
    hide Audit.Order;
    assert Audit.Sorted(spans) == spans;
    assert Audit.Findings(spans, 1) == [];
    assert Audit.Findings(spans, 2) == [Audit.Overlap(0, 1, 71)];
  }

  /** The name "a" is in order. */
  lemma {:induction false} PlainName(e: EntryLayout, u: Audit.UnicodeChecks)
    requires e.central.name == FILE_A && !u.bidi(FILE_A) && !u.control(FILE_A)
    ensures Audit.NameFindings(e, u) == []
  {
    Tree.SplitFree(FILE_A);
  }

  lemma {:induction false} NothingInside(layout: seq<EntryLayout>, u: Audit.UnicodeChecks)
    requires !u.bidi(FILE_A) && !u.control(FILE_A)
    requires forall i :: 0 <= i < |layout| ==> layout[i].central == layout[i].local && layout[i].central.name == FILE_A
    ensures Audit.InsideEntries(layout, u) == []
    decreases |layout|
  {
    hide Bit, Audit.EntryFindings, Audit.NameFindings;
    if layout != [] {
      NothingInside(layout[..|layout| - 1], u);
      PlainName(layout[|layout| - 1], u);
      Audit.AgreeingCopies(layout[|layout| - 1], u);
    }
  }

  // ----- a file above a file --------------------------------------------------------------------

  /** Of "a" and "a/b" the second is in the tree, and cannot be reached. */
  lemma {:induction false} FileAboveFile(nodes: seq<Tree.Node>)
    requires
      var es := [Tree.Entry(FILE_A, 1), Tree.Entry(FILE_A + [Tree.SLASH] + FILE_B, 1)];
      TreeFacts.TreeOf(nodes, Tree.AllMentions(es))
    ensures
      var es := [Tree.Entry(FILE_A, 1), Tree.Entry(FILE_A + [Tree.SLASH] + FILE_B, 1)];
      && [FILE_A, FILE_B] in Tree.PathsOf(Tree.AllMentions(es))
      && forall c: nat :: !TreeFacts.ResolvesTo(nodes, es, [FILE_A, FILE_B], c)
  {
    var es := [Tree.Entry(FILE_A, 1), Tree.Entry(FILE_A + [Tree.SLASH] + FILE_B, 1)];
    NamesSplit();
    hide Tree.Components, Tree.AllMentions, Tree.PathsOf, TreeFacts.TreeOf, TreeFacts.ResolvesTo, Tree.EndsInSeparator;
    TreeFacts.AnyIsValid(nodes, Tree.AllMentions(es));
    TreeFacts.UnderItself(es, 1);
    TreeFacts.PathsAre(es, [FILE_A, FILE_B]);
    TopIsFile(es);
    assert [FILE_A, FILE_B][..1] == [FILE_A];
    assert TreeFacts.FileAbove(es, [FILE_A, FILE_B]);
    TreeFacts.EntryResolves(es, nodes, 1);
  }

  lemma {:induction false} TopIsFile(es: seq<Tree.Entry>)
    requires |es| > 0 && Tree.Components(es[0].name) == [FILE_A] && es[0].name == FILE_A
    ensures TreeFacts.FileAt(es, [FILE_A])
  {
    hide Tree.Components;
    TreeFacts.UnderItself(es, 0);
    assert TreeFacts.Under(es[0], [FILE_A]);
  }

  lemma {:induction false} NamesSplit()
    ensures Tree.Components(FILE_A) == [FILE_A] && Tree.Components(FILE_A + [Tree.SLASH] + FILE_B) == [FILE_A, FILE_B]
  {
    Tree.SplitFree(FILE_A);
    Tree.SplitFree(FILE_B);
    Tree.SplitAt(FILE_A, Tree.SLASH, FILE_B);
    Tree.FilterOne(FILE_A);
    Tree.FilterOne(FILE_B);
    Tree.FilterConcat([FILE_A], [FILE_B]);
  }
}
