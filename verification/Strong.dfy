/**
 PKWARE strong encryption (section 7.2 of the APPNOTE) as core/src/crypto.rs reads it: the
 decryption header, the password check, and the chained file data.
 */
module Strong {
  import opened Wrappers
  import opened Bytes
  import opened Streams
  import opened Cbc

  const ALG_AES128: uint16 := 0x660E
  const MAX_STRONG_REM: nat := 0x4_0000

  // ----- keys ---------------------------------------------------------------------------------

  /** One half of the Windows key derivation: the digest of a padded buffer. */
  function DeriveKeyHalf(p: Primitives, digest: Digest, c: byte): Digest {
    p.sha1(seq(64, i requires 0 <= i < 64 => if i < 20 then Xor(c, digest[i]) else c))
  }

  function CryptDeriveKey(p: Primitives, digest: Digest, keySize: nat): (key: seq<byte>)
    requires keySize <= 40
    ensures |key| == keySize
  {
    (DeriveKeyHalf(p, digest, 0x36) + DeriveKeyHalf(p, digest, 0x5C))[..keySize]
  }

  // ----- the layout of the header remainder ---------------------------------------------------

  datatype StrongLayout = StrongLayout(keySize: nat, rdSize: nat, validOff: nat, validSize: nat)

  function Refuse<T>(why: Refusal): Result<T> {
    Err(UnsupportedEncryption(why))
  }

  /**
   `parse_strong_layout`. Every offset it reads, and both ciphertexts it delimits, lie inside the
   remainder; the validation data is a non-empty run of blocks that ends exactly with the remainder.
   */
  function ParseLayout(p: seq<byte>): (r: Result<StrongLayout>)
    requires |p| >= 16
    ensures r.Ok? ==> KeyLength(r.value.keySize)
    ensures r.Ok? ==>
      r.value.rdSize >= AES_BLOCK && r.value.rdSize % AES_BLOCK == 0 && 10 + r.value.rdSize + 6 == r.value.validOff
    ensures r.Ok? ==> r.value.validSize >= AES_BLOCK && r.value.validSize % AES_BLOCK == 0
    ensures r.Ok? ==> r.value.validOff + r.value.validSize == |p|
    ensures r.Err? ==> r.error.UnsupportedEncryption?
  {
    var alg, bitLen, flags := U16At(p, 2), U16At(p, 4), U16At(p, 6);
    if U16At(p, 0) != 3 then Refuse(Format)
    else if !(ALG_AES128 <= alg <= ALG_AES128 + 2) then Refuse(Algorithm)
    else
      var keySize := 16 + (alg - ALG_AES128) * 8;
      if keySize * 8 != bitLen then Refuse(BitLength)
      else if Bit(flags, 0x4000) then Refuse(TripleDes)
      else if Bit(flags, 0x0002) then Refuse(Certificate)
      else if !Bit(flags, 0x0001) then Refuse(NoPasswordFlag)
      else
        var rdSize := U16At(p, 8);
        if rdSize + 16 > |p| then Refuse(ErdOverflow)
        else if rdSize < AES_BLOCK || rdSize % AES_BLOCK != 0 then Refuse(ErdSize)
        else
          var reservedOff := 10 + rdSize;
          if U32At(p, reservedOff) != 0 then Refuse(Reserved)
          else
            var validSize, validOff := U16At(p, reservedOff + 4), reservedOff + 6;
            if validSize < 4 || validSize % AES_BLOCK != 0 || validOff + validSize != |p| then Refuse(ValidationSize)
            else Ok(StrongLayout(keySize, rdSize, validOff, validSize))
  }

  // ----- the header ---------------------------------------------------------------------------

  /** The initialization vector, how much of it is hashed, and where the field behind it starts. */
  datatype IvField = IvField(iv: Block, used: nat, next: nat)

  function ReadIv(s: seq<byte>, crc: uint32, size: uint64): (r: Result<IvField>)
    ensures r.Ok? ==> r.value.used <= AES_BLOCK && r.value.next <= |s|
  {
    if |s| < 2 then Err(Io)
    else if U16At(s, 0) == 0 then Ok(IvField(Le(crc, 4) + Le(size, 8) + [0, 0, 0, 0], 12, 2))
    else if U16At(s, 0) == 16 then
      if |s| < 18 then Err(Io) else Ok(IvField(s[2..18], 16, 18))
    else Refuse(IvSize)
  }

  /** The header remainder, between its 32-bit length and the file data. */
  function ReadRemainder(s: seq<byte>, at: nat): (r: Result<seq<byte>>)
    requires at <= |s|
    ensures r.Ok? ==> 16 <= |r.value| <= MAX_STRONG_REM && HasAt(s, at + 4, r.value)
  {
    if at + 4 > |s| then Err(Io)
    else
      var size := U32At(s, at);
      if !(16 <= size <= MAX_STRONG_REM) then Refuse(RemainderSize)
      else if at + 4 + size > |s| then Err(Io)
      else Ok(s[at + 4..at + 4 + size])
  }

  /** Recover the random data from its ciphertext; its last block must be padding. */
  function RecoverRd(prims: Primitives, master: seq<byte>, iv: Block, erd: seq<byte>): Result<seq<byte>>
    requires |erd| >= AES_BLOCK
  {
    var plain := CbcDecrypt(prims, master, iv, erd);
    var rdLen := |plain| - AES_BLOCK;
    if exists i :: rdLen <= i < |plain| && plain[i] != 16 then Err(WrongPassword) else Ok(plain[..rdLen])
  }

  /** The validation data ends in the checksum of the rest. */
  predicate Validates(prims: Primitives, fileKey: seq<byte>, iv: Block, vdata: seq<byte>)
    requires |vdata| >= 4
  {
    var plain := CbcDecrypt(prims, fileKey, iv, vdata);
    var split := |plain| - 4;
    FromLe(plain[split..]) == prims.crc32(plain[..split])
  }

  function KeyFor(prims: Primitives, seed: seq<byte>, keySize: nat): (key: seq<byte>)
    requires keySize <= 40
    ensures |key| == keySize
  {
    CryptDeriveKey(prims, prims.sha1(seed), keySize)
  }

  /** The file key, when the password passes both integrity gates. */
  function Unlock(prims: Primitives, password: seq<byte>, f: IvField, p: seq<byte>,
                  l: StrongLayout): (r: Result<seq<byte>>)
    requires |p| >= 16 && ParseLayout(p) == Ok(l) && f.used <= AES_BLOCK
    ensures r.Ok? ==> |r.value| == l.keySize
  {
    var rd :- RecoverRd(prims, KeyFor(prims, password, l.keySize), f.iv, p[10..10 + l.rdSize]);
    var fileKey := KeyFor(prims, f.iv[..f.used] + rd, l.keySize);
    if Validates(prims, fileKey, f.iv, p[l.validOff..l.validOff + l.validSize]) then Ok(fileKey) else Err(WrongPassword)
  }

  datatype StrongHeader = StrongHeader(iv: Block, fileKey: seq<byte>, headerLen: nat)

  /** `read_strong_header` on the bytes left in its reader. */
  function HeaderOf(prims: Primitives, s: seq<byte>, password: seq<byte>, crc: uint32,
                    size: uint64): (r: Result<StrongHeader>)
    ensures r.Ok? ==> KeyLength(|r.value.fileKey|) && r.value.headerLen <= |s|
  {
    var f :- ReadIv(s, crc, size);
    var p :- ReadRemainder(s, f.next);
    var l :- ParseLayout(p);
    var fileKey :- Unlock(prims, password, f, p, l);
    Ok(StrongHeader(p[|p| - AES_BLOCK..], fileKey, f.next + 4 + |p|))
  }

  // ----- the program --------------------------------------------------------------------------

  method ReadIvField(r: Source, crc: uint32, size: uint64) returns (f: Result<IvField>)
    requires r.Valid()
    modifies r
    ensures r.Valid() && f == ReadIv(old(r.data[r.pos..]), crc, size)
    ensures f.Ok? ==> r.pos == old(r.pos) + f.value.next
  {
    ghost var s := r.data[r.pos..];
    var buf :- r.ReadExact(2);
    assert buf[0..2] == buf && s[0..2] == buf;
    var ivSize := U16At(buf, 0);
    if ivSize == 0 {
      f := Ok(IvField(Le(crc, 4) + Le(size, 8) + [0, 0, 0, 0], 12, 2));
    } else if ivSize == 16 {
      var iv :- r.ReadExact(16);
      assert iv == s[2..18];
      f := Ok(IvField(iv, 16, 18));
    } else {
      f := Refuse(IvSize);
    }
  }

  method ReadRemainderBuffer(r: Source) returns (p: Result<seq<byte>>)
    requires r.Valid()
    modifies r
    ensures r.Valid() && p == ReadRemainder(old(r.data[r.pos..]), 0)
    ensures p.Ok? ==> r.pos == old(r.pos) + 4 + |p.value|
  {
    ghost var s := r.data[r.pos..];
    var buf :- r.ReadExact(4);
    assert buf[0..4] == buf && s[0..4] == buf;
    var size := U32At(buf, 0);
    if !(16 <= size <= MAX_STRONG_REM) {
      return Refuse(RemainderSize);
    }
    var bytes :- r.ReadExact(size);
    assert bytes == s[4..4 + size];
    p := Ok(bytes);
  }

  method DecryptCopy(prims: Primitives, key: seq<byte>, iv: Block, cipher: seq<byte>) returns (r: Result<seq<byte>>)
    requires KeyLength(|key|)
    ensures r == Ok(CbcDecrypt(prims, key, iv, cipher))
  {
    var buf := new byte[|cipher|](i requires 0 <= i < |cipher| => cipher[i]);
    assert buf[..] == cipher;
    var _ :- assert CbcDecryptBuffer(prims, key, iv, buf);
    r := Ok(buf[..]);
  }

  method ReadStrongHeader(prims: Primitives, r: Source, password: seq<byte>, crc: uint32, size: uint64)
    returns (h: Result<StrongHeader>)
    requires r.Valid()
    modifies r
    ensures r.Valid() && h == HeaderOf(prims, old(r.data[r.pos..]), password, crc, size)
    ensures h.Ok? ==> r.pos == old(r.pos) + h.value.headerLen
  {
    hide U16At, U32At, ReadIv, ReadRemainder, ParseLayout, Unlock;
    ghost var s := r.data[r.pos..];
    var f :- ReadIvField(r, crc, size);
    RemainderShift(s, f.next);
    assert r.data[r.pos..] == s[f.next..];
    var p :- ReadRemainderBuffer(r);
    var l :- ParseLayout(p);
    var fileKey :- RecoverKey(prims, password, f, p, l);
    h := Ok(StrongHeader(p[|p| - AES_BLOCK..], fileKey, f.next + 4 + |p|));
  }

  /** The keys and the two gates the password must pass. */
  method RecoverKey(prims: Primitives, password: seq<byte>, f: IvField, p: seq<byte>, l: StrongLayout)
    returns (key: Result<seq<byte>>)
    requires |p| >= 16 && ParseLayout(p) == Ok(l) && f.used <= AES_BLOCK
    ensures key == Unlock(prims, password, f, p, l)
  {
    hide U16At, U32At, CbcDecrypt, CryptDeriveKey, Le, FromLe;
    var masterKey := KeyFor(prims, password, l.keySize);
    var erd :- assert DecryptCopy(prims, masterKey, f.iv, p[10..10 + l.rdSize]);
    var rdLen := l.rdSize - AES_BLOCK;
    if exists i :: rdLen <= i < |erd| && erd[i] != 16 {
      return Err(WrongPassword);
    }
    var fileKey := KeyFor(prims, f.iv[..f.used] + erd[..rdLen], l.keySize);
    var vdata :- assert DecryptCopy(prims, fileKey, f.iv, p[l.validOff..l.validOff + l.validSize]);
    var split := l.validSize - 4;
    if FromLe(vdata[split..]) != prims.crc32(vdata[..split]) {
      return Err(WrongPassword);
    }
    key := Ok(fileKey);
  }

  lemma {:induction false} RemainderShift(s: seq<byte>, at: nat)
    requires at <= |s|
    ensures ReadRemainder(s[at..], 0) == ReadRemainder(s, at)
  {
    var t := s[at..];
    assert t == s[at..|s|];
    if at + 4 <= |s| {
      FieldShift(s, at, |s|, 0, 4);
      var size: nat := U32At(s, at);
      if at + 4 + size <= |s| {
        SubSlice(s, at, |s|, 4, 4 + size);
      }
    }
  }
}
