/** An encoder for strong-encrypted entry data, the chaining of the file data, and the round trip. */
module StrongRoundTrip {
  import opened Wrappers
  import opened Bytes
  import opened Streams
  import opened Cbc
  import opened Strong

  // ----- the encoder --------------------------------------------------------------------------

  datatype IvMode = Derived | Given(iv: Block)

  /** The 64 bytes that a digest fills up to: mixed with the byte `c` where it reaches, the byte itself behind. */
  function Padded(digest: Digest, c: byte): seq<byte> {
    seq(64, i requires 0 <= i < 64 => if i < 20 then MixedByte(digest[i], c) else c)
  }

  /** Section 7.2 of the APPNOTE: the first bytes of two digests of a padded digest. */
  function DerivedKey(p: Primitives, seed: seq<byte>, keySize: nat): (key: seq<byte>)
    requires keySize <= 40
    ensures |key| == keySize
  {
    var digest := p.sha1(seed);
    (p.sha1(Padded(digest, 0x36)) + p.sha1(Padded(digest, 0x5C)))[..keySize]
  }

  /** What an encrypting producer chooses. */
  datatype Plan = Plan(
    password: seq<byte>,
    keySize: nat,
    flags: uint16,
    mode: IvMode,
    random: seq<byte>,    // the random data behind the file key
    check: seq<byte>,     // the validation data before its checksum
    payload: seq<byte>,   // the entry's compressed bytes
    padding: seq<byte>,   // up to whole blocks
    crc: uint32,
    size: uint64)
  {
    predicate Valid() {
      && (keySize == 16 || keySize == 24 || keySize == 32)
      && flags % 2 == 1 && flags / 2 % 2 == 0 && flags / 0x4000 % 2 == 0
      && |random| % 16 == 0 && |random| + 16 < 0x1_0000
      && (|check| + 4) % 16 == 0 && |check| + 4 < 0x1_0000
      && (|payload| + |padding|) % 16 == 0
    }

    function Iv(): Block {
      if mode.Derived? then Le(crc, 4) + Le(size, 8) + [0, 0, 0, 0] else mode.iv
    }

    function IvUsed(): nat {
      if mode.Derived? then 12 else 16
    }

    function IvBytes(): seq<byte> {
      if mode.Derived? then Le(0, 2) else Le(16, 2) + mode.iv
    }

    function Master(p: Primitives): (key: seq<byte>)
      requires Valid()
      ensures |key| == keySize
    {
      DerivedKey(p, password, keySize)
    }

    function FileKey(p: Primitives): (key: seq<byte>)
      requires Valid()
      ensures |key| == keySize
    {
      DerivedKey(p, Iv()[..IvUsed()] + random, keySize)
    }

    /** The random data and a full block of padding, encrypted under the master key. */
    function Erd(p: Primitives): (c: seq<byte>)
      requires Valid()
      ensures |c| == |random| + 16
    {
      CbcEncrypt(p, Master(p), Iv(), random + seq(16, _ => 16 as byte))
    }

    /** The validation data and its checksum, encrypted under the file key. */
    function VData(p: Primitives): (c: seq<byte>)
      requires Valid()
      ensures |c| == |check| + 4
    {
      CbcEncrypt(p, FileKey(p), Iv(), check + Le(p.crc32(check), 4))
    }

    /** The identifiers of AES with 128, 192 and 256 bits. */
    function Algorithm(): uint16 {
      if keySize == 16 then 0x660E else if keySize == 24 then 0x660F else 0x6610
    }

    /** Its last block, from which the file data is chained on. */
    function Chain(p: Primitives): Block
      requires Valid()
    {
      VData(p)[|check| + 4 - 16..]
    }

    function FixedBytes(): (s: seq<byte>)
      requires Valid()
      ensures |s| == 10
    {
      Le(3, 2) + (Le(Algorithm(), 2) + (Le(keySize * 8, 2) + (Le(flags, 2) + Le(|random| + 16, 2))))
    }

    function Remainder(p: Primitives): (s: seq<byte>)
      requires Valid()
      ensures |s| == 10 + |Erd(p)| + 6 + |VData(p)|
    {
      FixedBytes() + (Erd(p) + (Le(0, 4) + (Le(|check| + 4, 2) + VData(p))))
    }

    /** The decryption header. */
    function HeaderBytes(p: Primitives): seq<byte>
      requires Valid()
    {
      IvBytes() + (Le(|Remainder(p)|, 4) + Remainder(p))
    }

    /** File data continues the chain of the validation data. */
    function FileBytes(p: Primitives): seq<byte>
      requires Valid()
    {
      CbcEncrypt(p, FileKey(p), Chain(p), payload + padding)
    }

    function Encode(p: Primitives): seq<byte>
      requires Valid()
    {
      HeaderBytes(p) + FileBytes(p)
    }
  }

  // ----- reading it back ----------------------------------------------------------------------

  lemma {:induction false} XorBitsSwap(a: nat, b: nat, bits: nat)
    ensures XorBits(a, b, bits) == XorBits(b, a, bits)
    decreases bits
  {
    hide Odd, Half;
    if bits > 0 {
      XorBitsSwap(Half(a), Half(b), bits - 1);
    }
  }

  lemma {:induction false} PaddedIs(digest: Digest, c: byte)
    ensures Padded(digest, c) == seq(64, i requires 0 <= i < 64 => if i < 20 then Xor(c, digest[i]) else c)
  {
    hide XorBits;
    forall i | 0 <= i < 20
      ensures MixedByte(digest[i], c) == Xor(c, digest[i])
    {
      XorBitsSwap(digest[i] as nat, c as nat, 8);
    }
  }

  /** The reader derives the keys of the format. */
  lemma {:induction false} DerivesKey(p: Primitives, seed: seq<byte>, keySize: nat)
    requires keySize <= 40
    ensures KeyFor(p, seed, keySize) == DerivedKey(p, seed, keySize)
  {
    hide Xor, Padded;
    PaddedIs(p.sha1(seed), 0x36);
    PaddedIs(p.sha1(seed), 0x5C);
  }

  lemma {:induction false} IvRead(s: seq<byte>, e: Plan)
    requires e.Valid() && HasAt(s, 0, e.IvBytes())
    ensures ReadIv(s, e.crc, e.size) == Ok(IvField(e.Iv(), e.IvUsed(), |e.IvBytes()|))
  {
    Ranges();
    if e.mode.Derived? {
      ReadBack(s, 0, 0, 2);
    } else {
      HasAtConcat(s, 0, Le(16, 2), e.mode.iv);
      ReadBack(s, 0, 16, 2);
    }
    hide Le, FromLe;
  }

  lemma {:induction false} FixedRead(r: seq<byte>, e: Plan)
    requires e.Valid() && HasAt(r, 0, e.FixedBytes())
    ensures |r| >= 10
    ensures U16At(r, 0) == 3 && U16At(r, 2) == e.Algorithm() && U16At(r, 4) == e.keySize * 8
    ensures U16At(r, 6) == e.flags && U16At(r, 8) == |e.random| + 16
  {
    Ranges();
    PartsInPlace(r);
    FieldsReadBack(r);
    hide HasAt, FieldAt, FromLe, Le, Range;
  }

  lemma {:induction false} TailRead(r: seq<byte>, at: nat, n: nat)
    requires HasAt(r, at, Le(0, 4) + Le(n, 2)) && n < 0x1_0000
    ensures at + 6 <= |r| && U32At(r, at) == 0 && U16At(r, at + 4) == n
  {
    Ranges();
    HasAtConcat(r, at, Le(0, 4), Le(n, 2));
    ReadBack(r, at, 0, 4);
    ReadBack(r, at + 4, n, 2);
  }

  function PlannedLayout(e: Plan): StrongLayout {
    StrongLayout(e.keySize, |e.random| + AES_BLOCK, 10 + |e.random| + AES_BLOCK + 6, |e.check| + 4)
  }

  lemma {:induction false} RemainderParts(p: Primitives, e: Plan)
    requires e.Valid()
    ensures
      var r, l := e.Remainder(p), PlannedLayout(e);
      && HasAt(r, 0, e.FixedBytes()) && HasAt(r, 10 + l.rdSize, Le(0, 4) + Le(|e.check| + 4, 2))
      && r[10..10 + l.rdSize] == e.Erd(p) && r[l.validOff..] == e.VData(p)
  {
    hide Le, Plan.Erd, Plan.VData, Plan.FixedBytes;
    var r := e.Remainder(p);
    var tail := Le(0, 4) + (Le(|e.check| + 4, 2) + e.VData(p));
    assert HasAt(r, 0, r);
    HasAtConcat(r, 0, e.FixedBytes(), e.Erd(p) + tail);
    HasAtConcat(r, 10, e.Erd(p), tail);
    assert tail == (Le(0, 4) + Le(|e.check| + 4, 2)) + e.VData(p);
    HasAtConcat(r, 10 + |e.Erd(p)|, Le(0, 4) + Le(|e.check| + 4, 2), e.VData(p));
  }

  /** The layout parser inverts the encoder's layout. */
  lemma {:induction false} LayoutRead(p: Primitives, e: Plan)
    requires e.Valid()
    ensures ParseLayout(e.Remainder(p)) == Ok(PlannedLayout(e))
  {
    hide U16At, U32At, Le, Plan.Remainder, Plan.FixedBytes, Plan.Erd, Plan.VData, HasAt;
    RemainderParts(p, e);
    FixedRead(e.Remainder(p), e);
    TailRead(e.Remainder(p), 10 + |e.random| + AES_BLOCK, |e.check| + 4);
  }

  /** The right password opens both gates. */
  lemma {:induction false} Unlocked(p: Primitives, e: Plan, f: IvField)
    requires e.Valid() && p.Lawful() && f.iv == e.Iv() && f.used == e.IvUsed()
    ensures ParseLayout(e.Remainder(p)) == Ok(PlannedLayout(e))
    ensures Unlock(p, e.password, f, e.Remainder(p), PlannedLayout(e)) == Ok(e.FileKey(p))
  {
    hide U16At, U32At, Plan.Remainder, Plan.FixedBytes, Plan.Iv, CbcEncrypt, CbcDecrypt, KeyFor, DerivedKey,
      ParseLayout;
    LayoutRead(p, e);
    RemainderParts(p, e);
    DerivesKey(p, e.password, e.keySize);
    DerivesKey(p, e.Iv()[..e.IvUsed()] + e.random, e.keySize);
    var l := PlannedLayout(e);
    var r := e.Remainder(p);
    var pad := seq(AES_BLOCK, _ => 16 as byte);
    CbcInverts(p, e.Master(p), e.Iv(), e.random + pad);
    var plain := CbcDecrypt(p, e.Master(p), f.iv, r[10..10 + l.rdSize]);
    assert plain == e.random + pad && plain[..|e.random|] == e.random;
    var checked := e.check + Le(p.crc32(e.check), 4);
    CbcInverts(p, e.FileKey(p), e.Iv(), checked);
    assert r[l.validOff..l.validOff + l.validSize] == e.VData(p);
    assert checked[..|e.check|] == e.check && checked[|e.check|..] == Le(p.crc32(e.check), 4);
    Ranges();
    LeRoundTrip(p.crc32(e.check), 4);
  }

  /** Whatever follows it, an encoded header is read, and the reader stops right behind it. */
  lemma {:induction false} HeaderRead(p: Primitives, e: Plan, s: seq<byte>)
    requires e.Valid() && p.Lawful() && HasAt(s, 0, e.HeaderBytes(p))
    ensures HeaderOf(p, s, e.password, e.crc, e.size) ==
      Ok(StrongHeader(e.Chain(p), e.FileKey(p), |e.HeaderBytes(p)|))
  {
    hide U16At, FieldAt, Le, HasAt, ReadIv, ReadRemainder, ParseLayout, Unlock, Plan.HeaderBytes, Plan.Remainder,
      Plan.IvBytes, Plan.Iv, Plan.VData, Plan.FileKey, Plan.Chain;
    HeaderParts(p, e, s);
    Unlocked(p, e, IvField(e.Iv(), e.IvUsed(), |e.IvBytes()|));
    LastOfRemainder(p, e);
  }

  /** The header reader inverts the encoder and stops exactly where the file data starts. */
  lemma {:induction false} HeaderRoundTrip(p: Primitives, e: Plan)
    requires e.Valid() && p.Lawful()
    ensures HeaderOf(p, e.Encode(p), e.password, e.crc, e.size) ==
      Ok(StrongHeader(e.Chain(p), e.FileKey(p), |e.HeaderBytes(p)|))
  {
    hide HeaderOf, Plan.HeaderBytes, Plan.FileBytes, Plan.FileKey, Plan.Chain;
    HeaderRead(p, e, e.Encode(p));
  }

  /** The parts of the header as the reader takes them. */
  lemma {:induction false} HeaderParts(p: Primitives, e: Plan, s: seq<byte>)
    requires e.Valid() && HasAt(s, 0, e.HeaderBytes(p))
    ensures
      var n := |e.IvBytes()|;
      && ReadIv(s, e.crc, e.size) == Ok(IvField(e.Iv(), e.IvUsed(), n))
      && n <= |s| && ReadRemainder(s, n) == Ok(e.Remainder(p))
      && n + 4 + |e.Remainder(p)| == |e.HeaderBytes(p)|
  {
    hide FieldAt, Le, Plan.Remainder, Plan.FixedBytes, Plan.IvBytes, Plan.Iv, Plan.Erd, Plan.VData, Plan.FileKey,
      Plan.FileBytes, ReadIv;
    var n := |e.IvBytes()|;
    HasAtConcat(s, 0, e.IvBytes(), Le(|e.Remainder(p)|, 4) + e.Remainder(p));
    HasAtConcat(s, n, Le(|e.Remainder(p)|, 4), e.Remainder(p));
    IvRead(s, e);
    Ranges();
    ReadBack(s, n, |e.Remainder(p)|, 4);
  }

  /** The remainder ends with the last block of the validation data. */
  lemma {:induction false} LastOfRemainder(p: Primitives, e: Plan)
    requires e.Valid()
    ensures e.Remainder(p)[|e.Remainder(p)| - AES_BLOCK..] == e.Chain(p)
  {
    hide Plan.FixedBytes, Plan.Iv, Plan.Erd, Plan.VData, Plan.FileKey, Plan.Remainder, Le, HasAt;
    RemainderParts(p, e);
    TailOfTail(e.Remainder(p), PlannedLayout(e).validOff, |e.VData(p)| - AES_BLOCK);
  }

  lemma {:induction false} TailOfTail(s: seq<byte>, at: nat, k: nat)
    requires at + k <= |s|
    ensures s[at..][k..] == s[at + k..]
  {
  }

  // ----- and nothing else ---------------------------------------------------------------------

  /** The parts of a header that the password opens. */
  datatype Parts = Parts(password: seq<byte>, crc: uint32, size: uint64, f: IvField, r: seq<byte>, l: StrongLayout)
  {
    predicate Open(p: Primitives) {
      && |r| >= 16 && ParseLayout(r) == Ok(l) && f.used <= 16 && Unlock(p, password, f, r, l).Ok?
    }

    function Rd(p: Primitives): seq<byte>
      requires Open(p)
    {
      hide U16At, U32At, KeyFor, CbcDecrypt, Validates;
      RecoverRd(p, KeyFor(p, password, l.keySize), f.iv, r[10..10 + l.rdSize]).value
    }

    function VPlain(p: Primitives): seq<byte>
      requires Open(p)
    {
      hide Unlock;
      CbcDecrypt(p, Unlock(p, password, f, r, l).value, f.iv, r[l.validOff..l.validOff + l.validSize])
    }
  }

  /** The plan behind them. */
  function PlanOf(p: Primitives, h: Parts): Plan
    requires h.Open(p)
  {
    Plan(h.password, h.l.keySize, U16At(h.r, 6), if h.f.used == 12 then Derived else Given(h.f.iv), h.Rd(p),
         h.VPlain(p)[..h.l.validSize - 4], [], [], h.crc, h.size)
  }

  lemma {:induction false} PlanIv(p: Primitives, s: seq<byte>, h: Parts)
    requires h.Open(p) && ReadIv(s, h.crc, h.size) == Ok(h.f)
    ensures
      var e := PlanOf(p, h);
      && e.Iv() == h.f.iv && e.IvUsed() == h.f.used && |e.IvBytes()| == h.f.next && HasAt(s, 0, e.IvBytes())
  {
    hide ParseLayout, Unlock, RecoverRd, KeyFor, CbcDecrypt, Le, FromLe;
    FromLeRoundTrip(s[0..2]);
    if U16At(s, 0) != 0 {
      HasAtConcat(s, 0, Le(16, 2), h.f.iv);
    }
  }

  lemma {:induction false} PlanValid(p: Primitives, h: Parts)
    requires h.Open(p)
    ensures
      var e := PlanOf(p, h);
      && e.Valid() && e.keySize == h.l.keySize && |e.random| + 16 == h.l.rdSize && |e.check| + 4 == h.l.validSize
  {
    hide KeyFor, CbcDecrypt, FieldAt, FromLe, Validates;
  }

  /** A field that was read is the one printed. */
  lemma {:induction false} FieldPrinted(r: seq<byte>, at: nat)
    requires at + 2 <= |r|
    ensures HasAt(r, at, Le(U16At(r, at), 2))
  {
    FromLeRoundTrip(r[at..at + 2]);
  }

  lemma {:induction false} WideFieldPrinted(r: seq<byte>, at: nat)
    requires at + 4 <= |r|
    ensures HasAt(r, at, Le(U32At(r, at), 4))
  {
    FromLeRoundTrip(r[at..at + 4]);
  }

  lemma {:induction false} PlanFixed(r: seq<byte>, e: Plan)
    requires |r| >= 16 && ParseLayout(r).Ok? && e.Valid()
    requires e.keySize == ParseLayout(r).value.keySize && |e.random| + 16 == ParseLayout(r).value.rdSize
    requires e.flags == U16At(r, 6)
    ensures HasAt(r, 0, e.FixedBytes())
  {
    hide FieldAt, Le;
    FieldPrinted(r, 0);
    FieldPrinted(r, 2);
    FieldPrinted(r, 4);
    FieldPrinted(r, 6);
    FieldPrinted(r, 8);
    HasAtConcat(r, 6, Le(e.flags, 2), Le(|e.random| + 16, 2));
    HasAtConcat(r, 4, Le(e.keySize * 8, 2), Le(e.flags, 2) + Le(|e.random| + 16, 2));
    HasAtConcat(r, 2, Le(e.Algorithm(), 2), Le(e.keySize * 8, 2) + (Le(e.flags, 2) + Le(|e.random| + 16, 2)));
    HasAtConcat(r, 0, Le(3, 2),
      Le(e.Algorithm(), 2) + (Le(e.keySize * 8, 2) + (Le(e.flags, 2) + Le(|e.random| + 16, 2))));
  }

  lemma {:induction false} PlanTail(r: seq<byte>, l: StrongLayout)
    requires |r| >= 16 && ParseLayout(r) == Ok(l)
    ensures HasAt(r, 10 + l.rdSize, Le(0, 4) + Le(l.validSize, 2))
  {
    hide FieldAt, Le;
    var at := 10 + l.rdSize;
    WideFieldPrinted(r, at);
    FieldPrinted(r, at + 4);
    HasAtConcat(r, at, Le(0, 4), Le(l.validSize, 2));
  }

  /** What was decrypted is what was encrypted. */
  lemma {:induction false} PlanErd(p: Primitives, h: Parts)
    requires h.Open(p) && p.Lawful()
    ensures PlanOf(p, h).Valid()
    ensures PlanOf(p, h).Iv() == h.f.iv ==> PlanOf(p, h).Erd(p) == h.r[10..10 + h.l.rdSize]
  {
    PlanValid(p, h);
    hide CbcDecrypt, CbcEncrypt, KeyFor, DerivedKey, U16At, Plan.Iv, Le, FromLe, Plan.Valid, ParseLayout, Validates;
    var cipher := h.r[10..10 + h.l.rdSize];
    var master := KeyFor(p, h.password, h.l.keySize);
    DerivesKey(p, h.password, h.l.keySize);
    assert CbcDecrypt(p, master, h.f.iv, cipher) == h.Rd(p) + seq(16, _ => 16 as byte);
    CbcReencrypts(p, master, h.f.iv, cipher);
  }

  /** What the gates say of the validation data. */
  lemma {:induction false} GatesPassed(p: Primitives, h: Parts)
    requires h.Open(p)
    ensures
      var key := Unlock(p, h.password, h.f, h.r, h.l).value;
      && key == KeyFor(p, h.f.iv[..h.f.used] + h.Rd(p), h.l.keySize)
      && |h.VPlain(p)| == h.l.validSize >= 16
      && FromLe(h.VPlain(p)[h.l.validSize - 4..]) == p.crc32(h.VPlain(p)[..h.l.validSize - 4])
  {
    hide CbcDecrypt, KeyFor, RecoverRd, FromLe, U16At, U32At;
  }

  lemma {:induction false} ChecksumBack(p: Primitives, v: seq<byte>)
    requires |v| >= 4 && FromLe(v[|v| - 4..]) == p.crc32(v[..|v| - 4])
    ensures v == v[..|v| - 4] + Le(p.crc32(v[..|v| - 4]), 4)
  {
    FromLeRoundTrip(v[|v| - 4..]);
    hide FromLe, Le;
  }

  lemma {:induction false} PlanVData(p: Primitives, h: Parts)
    requires h.Open(p) && p.Lawful()
    ensures PlanOf(p, h).Valid()
    ensures
      var e := PlanOf(p, h);
      e.Iv() == h.f.iv && e.IvUsed() == h.f.used ==> e.VData(p) == h.r[h.l.validOff..h.l.validOff + h.l.validSize]
  {
    PlanValid(p, h);
    GatesPassed(p, h);
    hide CbcDecrypt, CbcEncrypt, KeyFor, DerivedKey, U16At, Plan.Iv, Plan.IvUsed, Le, FromLe, Plan.Valid, ParseLayout,
      Parts.Open, Parts.Rd, Unlock;
    DerivesKey(p, h.f.iv[..h.f.used] + h.Rd(p), h.l.keySize);
    ChecksumBack(p, h.VPlain(p));
    CbcReencrypts(p, Unlock(p, h.password, h.f, h.r, h.l).value, h.f.iv,
      h.r[h.l.validOff..h.l.validOff + h.l.validSize]);
  }

  lemma {:induction false} PlanRemainder(p: Primitives, h: Parts)
    requires h.Open(p) && p.Lawful()
    ensures
      var e := PlanOf(p, h);
      e.Valid() && (e.Iv() == h.f.iv && e.IvUsed() == h.f.used ==> e.Remainder(p) == h.r)
  {
    PlanValid(p, h);
    PlanErd(p, h);
    PlanVData(p, h);
    var e, r, l := PlanOf(p, h), h.r, h.l;
    if e.Iv() == h.f.iv && e.IvUsed() == h.f.used {
      PlanFixed(r, e);
      PlanTail(r, l);
      Assembled(r, e.FixedBytes(), e.Erd(p), Le(0, 4), Le(|e.check| + 4, 2), e.VData(p));
    }
    hide ParseLayout, Plan.FixedBytes, Plan.Erd, Plan.VData, Plan.Iv, Plan.IvUsed, PlanOf, Le, Parts.Open, Plan.Valid;
  }

  lemma {:induction false} Assembled(r: seq<byte>, a: seq<byte>, b: seq<byte>, c: seq<byte>, d: seq<byte>, v: seq<byte>)
    requires HasAt(r, 0, a) && HasAt(r, |a|, b) && HasAt(r, |a| + |b|, c + d) && HasAt(r, |a| + |b| + |c| + |d|, v)
    requires |r| == |a| + |b| + |c| + |d| + |v|
    ensures r == a + (b + (c + (d + v)))
  {
    HasAtConcat(r, |a| + |b|, c, d);
    HasAtConcat(r, |a| + |b| + |c|, d, v);
    HasAtConcat(r, |a| + |b|, c, d + v);
    HasAtConcat(r, |a|, b, c + (d + v));
    HasAtConcat(r, 0, a, b + (c + (d + v)));
  }

  /** The bytes start with the header that the plan `e` encodes under the password. */
  ghost predicate Encodes(p: Primitives, e: Plan, s: seq<byte>, password: seq<byte>, crc: uint32, size: uint64) {
    e.Valid() && e.password == password && e.crc == crc && e.size == size && HasAt(s, 0, e.HeaderBytes(p))
  }

  /**
   The header reader accepts what the encoder writes and nothing else: a password opens a header exactly
   when some plan for it encodes those bytes.
   */
  lemma {:induction false} OnlyEncoded(p: Primitives, s: seq<byte>, password: seq<byte>, crc: uint32, size: uint64)
    requires p.Lawful()
    ensures HeaderOf(p, s, password, crc, size).Ok? <==> exists e :: Encodes(p, e, s, password, crc, size)
  {
    hide ReadIv, ReadRemainder, ParseLayout, Unlock, Plan.HeaderBytes, Plan.Valid, HeaderOf, PlanOf, HasAt;
    if HeaderOf(p, s, password, crc, size).Ok? {
      var h := PartsOf(p, s, password, crc, size);
      ReadHeaderEncoded(p, s, h);
      assert Encodes(p, PlanOf(p, h), s, password, crc, size);
    }
    forall e | Encodes(p, e, s, password, crc, size)
      ensures HeaderOf(p, s, password, crc, size).Ok?
    {
      HeaderRead(p, e, s);
    }
  }

  /** A header that is well formed, but that no plan for the password encodes, is a wrong password. */
  lemma {:induction false} WrongPasswords(p: Primitives, s: seq<byte>, password: seq<byte>, crc: uint32, size: uint64)
    requires p.Lawful()
    ensures
      HeaderOf(p, s, password, crc, size) == Err(WrongPassword)
      <==> WellFormed(s, crc, size) && !exists e :: Encodes(p, e, s, password, crc, size)
  {
    OnlyEncoded(p, s, password, crc, size);
    hide CbcDecrypt, KeyFor, Encodes, U16At, U32At;
  }

  /** The header's fields can be read and are consistent. */
  predicate WellFormed(s: seq<byte>, crc: uint32, size: uint64) {
    var f := ReadIv(s, crc, size);
    f.Ok? && ReadRemainder(s, f.value.next).Ok? && ParseLayout(ReadRemainder(s, f.value.next).value).Ok?
  }

  /** Which lengths of the remainder are refused. */
  lemma {:induction false} RemainderRefused(s: seq<byte>, at: nat)
    requires at <= |s|
    ensures |s| < at + 4 ==> ReadRemainder(s, at) == Err(Io)
    ensures |s| >= at + 4 ==>
      && (ReadRemainder(s, at) == Err(UnsupportedEncryption(RemainderSize)) <==> !(16 <= U32At(s, at) <= 262144))
      && (ReadRemainder(s, at) == Err(Io) <==> 16 <= U32At(s, at) <= 262144 && at + 4 + U32At(s, at) > |s|)
  {
    hide U32At;
  }

  /** The parts of the header that was read. */
  function PartsOf(p: Primitives, s: seq<byte>, password: seq<byte>, crc: uint32, size: uint64): (h: Parts)
    requires HeaderOf(p, s, password, crc, size).Ok?
    ensures h.Open(p) && h.password == password && h.crc == crc && h.size == size
    ensures ReadIv(s, crc, size) == Ok(h.f) && h.f.next <= |s| && ReadRemainder(s, h.f.next) == Ok(h.r)
  {
    hide ReadIv, ReadRemainder, ParseLayout, Unlock;
    var f := ReadIv(s, crc, size).value;
    var r := ReadRemainder(s, f.next).value;
    Parts(password, crc, size, f, r, ParseLayout(r).value)
  }

  lemma {:induction false} ReadHeaderEncoded(p: Primitives, s: seq<byte>, h: Parts)
    requires h.Open(p) && p.Lawful() && ReadIv(s, h.crc, h.size) == Ok(h.f) && h.f.next <= |s|
    requires ReadRemainder(s, h.f.next) == Ok(h.r)
    ensures Encodes(p, PlanOf(p, h), s, h.password, h.crc, h.size)
  {
    hide ReadIv, ReadRemainder, ParseLayout, Unlock, Plan.Iv, Plan.IvUsed, Plan.IvBytes, Plan.Valid, Plan.Remainder, Le,
      PlanOf, Parts.Open, HasAt;
    PlanIv(p, s, h);
    PlanRemainder(p, h);
    RemainderPrinted(s, h.f.next);
    var e := PlanOf(p, h);
    HasAtConcat(s, 0, e.IvBytes(), Le(|h.r|, 4) + h.r);
    PlanNames(p, h);
  }

  lemma {:induction false} PlanNames(p: Primitives, h: Parts)
    requires h.Open(p)
    ensures var e := PlanOf(p, h); e.password == h.password && e.crc == h.crc && e.size == h.size
  {
    hide Parts.Open;
  }

  /** The remainder stands behind its length. */
  lemma {:induction false} RemainderPrinted(s: seq<byte>, at: nat)
    requires at <= |s| && ReadRemainder(s, at).Ok?
    ensures var r := ReadRemainder(s, at).value; HasAt(s, at, Le(|r|, 4) + r)
  {
    hide Le, FromLe;
    FromLeRoundTrip(s[at..at + 4]);
    var r := ReadRemainder(s, at).value;
    HasAtConcat(s, at, Le(|r|, 4), r);
  }

  // ----- the file data ------------------------------------------------------------------------

  /**
   CBC hand-off: for every header the reader accepts, decrypting the file data from the last 16 bytes
   of the header remainder gives what one continuous decryption of validation and file data gives.
   */
  lemma {:induction false} HandOff(p: Primitives, s: seq<byte>, password: seq<byte>, crc: uint32, size: uint64,
                                   data: seq<byte>)
    requires HeaderOf(p, s, password, crc, size).Ok?
    ensures
      var h := HeaderOf(p, s, password, crc, size).value;
      var f := ReadIv(s, crc, size).value;
      var r := ReadRemainder(s, f.next).value;
      var v := r[ParseLayout(r).value.validOff..];
      && |v| > 0 && |v| % AES_BLOCK == 0 && h.headerLen == f.next + 4 + |r|
      && CbcDecrypt(p, h.fileKey, f.iv, v + data) ==
           CbcDecrypt(p, h.fileKey, f.iv, v) + CbcDecrypt(p, h.fileKey, h.iv, data)
  {
    hide U16At, U32At, CbcDecrypt, Unlock;
    var h := HeaderOf(p, s, password, crc, size).value;
    var f := ReadIv(s, crc, size).value;
    var r := ReadRemainder(s, f.next).value;
    var l := ParseLayout(r).value;
    var v := r[l.validOff..];
    assert v[|v| - AES_BLOCK..] == r[|r| - AES_BLOCK..];
    CbcConcat(p, h.fileKey, f.iv, v, data);
  }

  /** How many bytes of `present` are read for `wanted` ones, block by block. */
  function Stretch(wanted: nat, present: nat): (n: nat)
    ensures n <= present
  {
    AES_BLOCK * if (wanted + AES_BLOCK - 1) / AES_BLOCK > present / AES_BLOCK then present / AES_BLOCK
                else (wanted + AES_BLOCK - 1) / AES_BLOCK
  }

  /** Taking a block off what is wanted and what is there. */
  lemma {:induction false} OneBlockLess(wanted: nat, present: nat)
    requires wanted > 0 && present >= AES_BLOCK
    ensures (SaturatingSub(wanted, AES_BLOCK) + AES_BLOCK - 1) / AES_BLOCK == (wanted + AES_BLOCK - 1) / AES_BLOCK - 1
    ensures (present - AES_BLOCK) / AES_BLOCK == present / AES_BLOCK - 1 && present / AES_BLOCK > 0
    ensures Stretch(SaturatingSub(wanted, AES_BLOCK), present - AES_BLOCK) + AES_BLOCK == Stretch(wanted, present)
  {
  }

  lemma {:induction false} NoBlock(present: nat)
    ensures present < AES_BLOCK <==> present / AES_BLOCK == 0
  {
  }

  /** The plaintext of a stretch of the file is that of its first block and then of the rest. */
  lemma {:induction false} HeadPlain(p: Primitives, key: seq<byte>, iv: Block, data: seq<byte>, at: nat, end: nat)
    requires at + AES_BLOCK <= end <= |data|
    ensures CbcDecrypt(p, key, iv, data[at..end]) ==
      XorBlock(p.decrypt(key, data[at..at + AES_BLOCK]), iv)
      + CbcDecrypt(p, key, data[at..at + AES_BLOCK], data[at + AES_BLOCK..end])
  {
    hide XorBlock, CbcDecrypt;
    var all := data[at..end];
    assert all[..AES_BLOCK] == data[at..at + AES_BLOCK] && all[AES_BLOCK..] == data[at + AES_BLOCK..end];
    CbcHead(p, key, iv, all);
  }

  /** `StrongAesReader`: CBC decryption of `remaining` bytes, one staged block at a time. */
  class StrongAesReader {
    const inner: Source
    const cipher: CbcDec
    const block: array<byte>
    var blockPos: nat
    var blockLen: nat
    var remaining: nat

    ghost predicate Valid()
      reads this, inner, block
    {
      && inner.Valid() && block.Length == AES_BLOCK
      && blockPos <= blockLen && (blockLen == 0 || blockLen == AES_BLOCK)
    }

    /** Blocks the reader still wants, and blocks there still are. */
    ghost function Wanted(): nat
      reads this
    {
      (remaining + AES_BLOCK - 1) / AES_BLOCK
    }

    ghost function Present(): nat
      requires Valid()
      reads this, inner, block
    {
      (|inner.data| - inner.pos) / AES_BLOCK
    }

    /** The ciphertext ends before the length promised. */
    ghost predicate Broken()
      requires Valid()
      reads this, inner, block
    {
      Wanted() > Present()
    }

    ghost function Ciphertext(): (s: seq<byte>)
      requires Valid()
      reads this, inner, block
      ensures |s| == AES_BLOCK * if Broken() then Present() else Wanted()
    {
      inner.data[inner.pos..inner.pos + Stretch(remaining, |inner.data| - inner.pos)]
    }

    /** The plaintext still to come: the rest of the staged block, then that of the unread ciphertext. */
    ghost function Rest(): seq<byte>
      requires Valid()
      reads this, inner, cipher, block
    {
      block[blockPos..blockLen] + CbcDecrypt(cipher.p, cipher.key, cipher.prev, Ciphertext())
    }

    constructor (inner: Source, cipher: CbcDec, encLen: nat)
      requires inner.Valid()
      ensures Valid() && fresh(block) && this.inner == inner && this.cipher == cipher && remaining == encLen
      ensures Rest() == CbcDecrypt(cipher.p, cipher.key, cipher.prev, Ciphertext())
    {
      this.inner, this.cipher := inner, cipher;
      block := new byte[AES_BLOCK];
      blockPos, blockLen, remaining := 0, 0, encLen;
      new;
      assert block[0..0] == [];
    }

    /** Read the next ciphertext block into the buffer. */
    method Load() returns (r: Result<()>)
      requires inner.Valid() && block.Length == AES_BLOCK
      modifies inner, block
      ensures inner.Valid()
      ensures r == if old(inner.pos) + AES_BLOCK > |inner.data| then Err(Io) else Ok(())
      ensures r.Ok? ==> inner.pos == old(inner.pos) + AES_BLOCK && block[..] == inner.data[old(inner.pos)..inner.pos]
    {
      var bytes :- inner.ReadExact(AES_BLOCK);
      forall i | 0 <= i < AES_BLOCK {
        block[i] := bytes[i];
      }
      r := Ok(());
    }

    /** Stage the next block, if it is there. */
    method Stage() returns (r: Result<()>)
      requires Valid() && blockPos == blockLen && remaining > 0
      modifies this, inner, cipher, block
      ensures r == if old(Present()) == 0 then Err(Io) else Ok(())
      ensures r.Ok? ==> Valid() && blockPos == 0 && blockLen == AES_BLOCK
      ensures r.Ok? ==> Rest() == old(Rest()) && Broken() == old(Broken()) && inner.pos > old(inner.pos)
    {
      hide XorBlock, CbcDecrypt, Stretch;
      ghost var at, left := inner.pos, |inner.data| - inner.pos;
      NoBlock(left);
      if left >= AES_BLOCK {
        OneBlockLess(remaining, left);
        HeadPlain(cipher.p, cipher.key, cipher.prev, inner.data, at, at + Stretch(remaining, left));
      }
      var _ :- Load();
      Decipher();
      r := Ok(());
    }

    /** Decrypt the block that was read. */
    method Decipher()
      requires inner.Valid() && block.Length == AES_BLOCK
      modifies this`blockPos, this`blockLen, this`remaining, cipher, block
      ensures Valid() && blockPos == 0 && blockLen == AES_BLOCK
      ensures remaining == SaturatingSub(old(remaining), AES_BLOCK)
      ensures cipher.prev == old(block[..])
      ensures block[0..AES_BLOCK] == XorBlock(cipher.p.decrypt(cipher.key, old(block[..])), old(cipher.prev))
    {
      hide XorBlock;
      cipher.DecryptBlock(block);
      blockPos, blockLen := 0, AES_BLOCK;
      remaining := SaturatingSub(remaining, AES_BLOCK);
      assert block[0..AES_BLOCK] == block[..];
    }

    /** A read fails exactly when the staged plaintext is used up and the ciphertext has ended too early. */
    method Read(room: nat) returns (r: Result<seq<byte>>)
      requires Valid()
      modifies this, inner, cipher, block
      ensures r.Err? <==> old(Rest()) == [] && old(Broken())
      ensures r.Err? ==> r == Err(Io)
      ensures r.Ok? ==> Valid() && r.value + Rest() == old(Rest()) && |r.value| <= room && Broken() == old(Broken())
      ensures r.Ok? ==> (r.value == [] <==> room == 0 || old(Rest()) == [])
    {
      hide StrongAesReader.Rest, StrongAesReader.Broken, StrongAesReader.Ciphertext, StrongAesReader.Present;
      Situation();
      if blockPos >= blockLen {
        if remaining == 0 {
          return Ok([]);
        }
        var _ :- Stage();
      }
      var out := Serve(room);
      r := Ok(out);
    }

    /** What is still to come, by where the reader stands. */
    lemma {:induction false} Situation()
      requires Valid()
      ensures blockPos < blockLen ==> Rest() != []
      ensures blockPos >= blockLen && remaining == 0 ==> Rest() == [] && !Broken()
      ensures
        blockPos >= blockLen && remaining > 0 ==> if Present() == 0 then Rest() == [] && Broken() else Rest() != []
    {
      hide XorBlock;
    }

    /** Copy out of the staged block. */
    method Serve(room: nat) returns (out: seq<byte>)
      requires Valid() && blockPos < blockLen
      modifies this`blockPos
      ensures Valid() && out + Rest() == old(Rest()) && |out| <= room && (out == [] <==> room == 0)
      ensures Broken() == old(Broken())
    {
      hide CbcDecrypt, XorBlock;
      var n := if blockLen - blockPos < room then blockLen - blockPos else room;
      out := block[blockPos..blockPos + n];
      assert block[blockPos..blockLen] == out + block[blockPos + n..blockLen];
      blockPos := blockPos + n;
    }
  }

  lemma {:induction false} CbcHead(p: Primitives, key: seq<byte>, iv: Block, data: seq<byte>)
    requires |data| >= AES_BLOCK
    ensures CbcDecrypt(p, key, iv, data) ==
      XorBlock(p.decrypt(key, data[..AES_BLOCK]), iv) + CbcDecrypt(p, key, data[..AES_BLOCK], data[AES_BLOCK..])
  {
  }

  /** What a reader with the plaintext `plain` to come delivers, through `take` if there is a limit. */
  function Limited(plain: seq<byte>, broken: bool, limit: Option<nat>): Flow {
    if limit.Some? && limit.value <= |plain| then Flow(plain[..limit.value], None)
    else Flow(plain, if broken then Some(Io) else None)
  }

  /** Read to the first terminal result, with whatever buffer sizes. */
  method ReadLimited(reader: StrongAesReader, limit: Option<nat>) returns (r: Flow)
    requires reader.Valid()
    modifies reader, reader.inner, reader.cipher, reader.block
    ensures r == Limited(old(reader.Rest()), old(reader.Broken()), limit)
  {
    hide CbcDecrypt, StrongAesReader.Broken, StrongAesReader.Ciphertext, StrongAesReader.Rest;
    var out: seq<byte> := [];
    ghost var all := reader.Rest();
    while limit.None? || |out| < limit.value
      invariant reader.Valid() && out + reader.Rest() == all && (limit.Some? ==> |out| <= limit.value)
      invariant reader.Broken() == old(reader.Broken())
      decreases |all| - |out|
    {
      var room: nat :| room > 0;
      var want := if limit.None? || room < limit.value - |out| then room else limit.value - |out|;
      ghost var rest := reader.Rest();
      assert all == out + rest;
      var read := reader.Read(want);
      if read.Err? {
        assert out + [] == out;
        return Flow(out, Some(read.error));
      }
      var chunk := read.value;
      if chunk == [] {
        assert out + [] == out;
        return Flow(out, None);
      }
      assert out + rest == out + chunk + reader.Rest();
      out := out + chunk;
    }
    assert out == all[..limit.value];
    r := Flow(out, None);
  }

  /** The whole blocks at the front. */
  function WholeBlocks(s: seq<byte>): seq<byte> {
    s[..|s| / AES_BLOCK * AES_BLOCK]
  }

  /**
   An entry of `span` compressed bytes, of which the file holds `data`, opened with a password and read
   to its first terminal result: what follows the header, decrypted; for a stored entry cut at its
   uncompressed size. Ciphertext that ends before its last block is complete is an error.
   */
  function Decrypted(p: Primitives, data: seq<byte>, password: seq<byte>, crc: uint32, size: uint64, span: nat,
                     stored: bool): Result<Flow> {
    var h :- HeaderOf(p, data, password, crc, size);
    var cipher := data[h.headerLen..];
    var broken := (SaturatingSub(span, h.headerLen) + AES_BLOCK - 1) / AES_BLOCK > |cipher| / AES_BLOCK;
    Ok(Limited(CbcDecrypt(p, h.fileKey, h.iv, WholeBlocks(cipher)), broken, if stored then Some(size as nat) else None))
  }

  /** An entry that is not cut at its size fails exactly when its whole blocks fall short of its length. */
  lemma {:induction false} CutShort(p: Primitives, data: seq<byte>, password: seq<byte>, crc: uint32, size: uint64,
                                    span: nat)
    requires HeaderOf(p, data, password, crc, size).Ok?
    ensures
      var r, h := Decrypted(p, data, password, crc, size, span, false), HeaderOf(p, data, password, crc, size).value;
      r.Ok? && (r.value.failure.Some? <==> |data| - h.headerLen - (|data| - h.headerLen) % 16 < span - h.headerLen)
  {
    hide CbcDecrypt, HeaderOf;
  }

  /** `open_strong_decrypt`, and a caller that reads to the first terminal result. */
  method DecryptEntry(p: Primitives, data: seq<byte>, password: seq<byte>, crc: uint32, size: uint64, span: nat,
                      stored: bool)
    returns (r: Result<Flow>)
    requires |data| <= span
    ensures r == Decrypted(p, data, password, crc, size, span, stored)
  {
    hide CbcDecrypt, HeaderOf, WholeBlocks;
    var inner := new Source(data);
    assert data[0..] == data;
    var h :- ReadStrongHeader(p, inner, password, crc, size);
    KeyOpened(p, data, password, crc, size);
    var flow := Deliver(p, inner, h, SaturatingSub(span, h.headerLen), if stored then Some(size as nat) else None);
    r := Ok(flow);
  }

  /** Decrypt `encLen` bytes from where the header ended. */
  method Deliver(p: Primitives, inner: Source, h: StrongHeader, encLen: nat, limit: Option<nat>) returns (flow: Flow)
    requires inner.Valid() && inner.pos == h.headerLen && |inner.data| <= inner.pos + encLen && KeyLength(|h.fileKey|)
    modifies inner
    ensures
      var cipher := inner.data[h.headerLen..];
      flow == Limited(
        CbcDecrypt(p, h.fileKey, h.iv, WholeBlocks(cipher)),
          (encLen + AES_BLOCK - 1) / AES_BLOCK > |cipher| / AES_BLOCK, limit)
  {
    hide CbcDecrypt, WholeBlocks, Limited;
    var cipher :- assert NewCbcDec(p, h.fileKey, h.iv);
    var reader := new StrongAesReader(inner, cipher, encLen);
    WholeIs(inner.data, h.headerLen, encLen);
    flow := ReadLimited(reader, limit);
  }

  /** When no less is wanted, what is read is the whole blocks. */
  lemma {:induction false} WholeIs(data: seq<byte>, at: nat, wanted: nat)
    requires at <= |data| <= at + wanted
    ensures (wanted + AES_BLOCK - 1) / AES_BLOCK >= (|data| - at) / AES_BLOCK
    ensures data[at..at + AES_BLOCK * ((|data| - at) / AES_BLOCK)] == WholeBlocks(data[at..])
  {
    BlocksOf(wanted, |data| - at);
  }

  /** A length of `n` takes at least the whole blocks of a shorter one. */
  lemma {:induction false} BlocksOf(n: nat, m: nat)
    requires m <= n
    ensures (n + AES_BLOCK - 1) / AES_BLOCK >= m / AES_BLOCK
    ensures n % AES_BLOCK == 0 ==> (n + AES_BLOCK - 1) / AES_BLOCK == n / AES_BLOCK
  {
  }

  lemma {:induction false} KeyOpened(p: Primitives, data: seq<byte>, password: seq<byte>, crc: uint32, size: uint64)
    ensures var h := HeaderOf(p, data, password, crc, size); h.Ok? ==>
      KeyLength(|h.value.fileKey|) && h.value.headerLen <= |data|
  {
  }

  /**
   Strong-encryption round trip: for every password, key size, IV mode, random data and payload, the
   encoded data reads back to the payload, which for a Stored entry is cut at its size.
   */
  lemma {:induction false} RoundTrip(p: Primitives, e: Plan)
    requires e.Valid() && p.Lawful()
    ensures
      var h := HeaderOf(p, e.Encode(p), e.password, e.crc, e.size);
      && h.Ok? && h.value.headerLen == |e.HeaderBytes(p)|
      && (|e.Encode(p)| - h.value.headerLen) % AES_BLOCK == 0
      && var plain := CbcDecrypt(p, h.value.fileKey, h.value.iv, e.Encode(p)[h.value.headerLen..]);
         plain == e.payload + e.padding && plain[..|e.payload|] == e.payload
  {
    hide CbcDecrypt, CbcEncrypt, HeaderOf, Plan.HeaderBytes, Plan.Chain, Plan.FileKey;
    HeaderRoundTrip(p, e);
    assert e.Encode(p)[|e.HeaderBytes(p)|..] == e.FileBytes(p);
    CbcInverts(p, e.FileKey(p), e.Chain(p), e.payload + e.padding);
    assert (e.payload + e.padding)[..|e.payload|] == e.payload;
  }

  /**
   An encoded entry reads back: a stored one as its payload, its size cutting the padding off, any
   other as payload and padding, which is for its codec to end.
   */
  lemma {:induction false} EntryRoundTrip(p: Primitives, e: Plan, stored: bool)
    requires e.Valid() && p.Lawful() && (stored ==> e.size == |e.payload|)
    ensures Decrypted(p, e.Encode(p), e.password, e.crc, e.size, |e.Encode(p)|, stored) ==
      Ok(Flow(if stored then e.payload else e.payload + e.padding, None))
  {
    hide CbcDecrypt, HeaderOf, Plan.HeaderBytes, Plan.Encode;
    RoundTrip(p, e);
    var h := HeaderOf(p, e.Encode(p), e.password, e.crc, e.size).value;
    var cipher := e.Encode(p)[h.headerLen..];
    BlocksOf(|cipher|, |cipher|);
    assert WholeBlocks(cipher) == cipher;
  }
}
