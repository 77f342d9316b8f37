/**
 AES in cipher block chaining mode as core/src/crypto.rs uses it. The block cipher, the digest and
 the checksum come from other crates and are parameters, bound only by `Lawful`.
 */
module Cbc {
  import opened Wrappers
  import opened Bytes

  const AES_BLOCK: nat := 16

  type Block = b: seq<byte> | |b| == AES_BLOCK witness seq(AES_BLOCK, _ => 0)

  /** A SHA-1 digest. */
  type Digest = d: seq<byte> | |d| == 20 witness seq(20, _ => 0)

  datatype Primitives = Primitives(
    sha1: seq<byte> -> Digest,
    crc32: seq<byte> -> uint32,
    encrypt: (seq<byte>, Block) -> Block,
    decrypt: (seq<byte>, Block) -> Block)
  {
    /** Decryption and encryption undo each other under each key. */
    ghost predicate Lawful() {
      && (forall key, b :: decrypt(key, encrypt(key, b)) == b)
      && (forall key, b :: encrypt(key, decrypt(key, b)) == b)
    }
  }

  function XorBlock(a: Block, b: Block): Block {
    seq(AES_BLOCK, i requires 0 <= i < AES_BLOCK => Xor(a[i], b[i]))
  }

  lemma {:induction false} XorBlockTwice(a: Block, b: Block)
    ensures XorBlock(XorBlock(a, b), b) == a
  {
    hide Xor;
    forall i | 0 <= i < AES_BLOCK
      ensures XorBlock(XorBlock(a, b), b)[i] == a[i]
    {
      XorTwice(a[i], b[i]);
    }
  }

  /** CBC decryption of the whole blocks of `data`; a shorter tail stays as it is. */
  function CbcDecrypt(p: Primitives, key: seq<byte>, iv: Block, data: seq<byte>): (r: seq<byte>)
    ensures |r| == |data|
    decreases |data|
  {
    if |data| < AES_BLOCK then data
    else
      XorBlock(p.decrypt(key, data[..AES_BLOCK]), iv) + CbcDecrypt(p, key, data[..AES_BLOCK], data[AES_BLOCK..])
  }

  /** How a producer chains: the exclusive or with the ciphertext before, bit by bit. */
  function Mixed(a: Block, b: Block): Block {
    seq(16, i requires 0 <= i < 16 => MixedByte(a[i], b[i]))
  }

  function MixedByte(a: byte, b: byte): byte {
    assert Power2(8) == 256;
    XorBits(a as nat, b as nat, 8) as byte
  }

  lemma {:induction false} MixedIs(a: Block, b: Block)
    ensures Mixed(a, b) == XorBlock(a, b)
  {
    hide XorBits;
  }

  function CbcEncrypt(p: Primitives, key: seq<byte>, iv: Block, data: seq<byte>): (r: seq<byte>)
    ensures |r| == |data|
    decreases |data|
  {
    if |data| < 16 then data
    else
      var c := p.encrypt(key, Mixed(data[..16], iv));
      c + CbcEncrypt(p, key, c, data[16..])
  }

  lemma {:induction false} CbcInverts(p: Primitives, key: seq<byte>, iv: Block, data: seq<byte>)
    requires p.Lawful()
    ensures CbcDecrypt(p, key, iv, CbcEncrypt(p, key, iv, data)) == data
    decreases |data|
  {
    hide XorBlock, Mixed;
    if |data| >= AES_BLOCK {
      var first, rest := data[..AES_BLOCK], data[AES_BLOCK..];
      MixedIs(first, iv);
      var c := p.encrypt(key, XorBlock(first, iv));
      var whole := c + CbcEncrypt(p, key, c, rest);
      assert whole[..AES_BLOCK] == c && whole[AES_BLOCK..] == CbcEncrypt(p, key, c, rest);
      CbcInverts(p, key, c, rest);
      XorBlockTwice(first, iv);
      assert data == first + rest;
    }
  }

  /** Encrypting what was decrypted gives it back, so whatever decrypts to something was encrypted from it. */
  lemma {:induction false} CbcReencrypts(p: Primitives, key: seq<byte>, iv: Block, data: seq<byte>)
    requires p.Lawful()
    ensures CbcEncrypt(p, key, iv, CbcDecrypt(p, key, iv, data)) == data
    decreases |data|
  {
    hide XorBlock, Mixed;
    if |data| >= AES_BLOCK {
      var first, rest := data[..AES_BLOCK], data[AES_BLOCK..];
      var plain := XorBlock(p.decrypt(key, first), iv);
      var whole := plain + CbcDecrypt(p, key, first, rest);
      assert whole[..AES_BLOCK] == plain && whole[AES_BLOCK..] == CbcDecrypt(p, key, first, rest);
      MixedIs(plain, iv);
      XorBlockTwice(p.decrypt(key, first), iv);
      CbcReencrypts(p, key, first, rest);
      assert data == first + rest;
    }
  }

  /** The chaining value after `data`: its last block. */
  function LastBlock(iv: Block, data: seq<byte>): Block
    requires |data| % AES_BLOCK == 0
  {
    if data == [] then iv else data[|data| - AES_BLOCK..]
  }

  /** Decryption continues from the last ciphertext block. */
  lemma {:induction false} CbcConcat(p: Primitives, key: seq<byte>, iv: Block, a: seq<byte>, b: seq<byte>)
    requires |a| % AES_BLOCK == 0
    ensures CbcDecrypt(p, key, iv, a + b) == CbcDecrypt(p, key, iv, a) + CbcDecrypt(p, key, LastBlock(iv, a), b)
    decreases |a|
  {
    hide XorBlock;
    if a == [] {
      assert a + b == b;
    } else {
      var first, rest := a[..AES_BLOCK], a[AES_BLOCK..];
      assert (a + b)[..AES_BLOCK] == first && (a + b)[AES_BLOCK..] == rest + b;
      CbcConcat(p, key, first, rest, b);
      assert LastBlock(first, rest) == LastBlock(iv, a);
    }
  }

  predicate KeyLength(n: nat) {
    n == 16 || n == 24 || n == 32
  }

  /** `CbcDec`: a decryptor over one message, holding the chaining value. */
  class CbcDec {
    const p: Primitives
    const key: seq<byte>
    var prev: Block

    constructor (p: Primitives, key: seq<byte>, iv: Block)
      ensures this.p == p && this.key == key && prev == iv
    {
      this.p, this.key, this.prev := p, key, iv;
    }

    method DecryptBlock(block: array<byte>)
      requires block.Length == AES_BLOCK
      modifies this, block
      ensures block[..] == XorBlock(p.decrypt(key, old(block[..])), old(prev))
      ensures prev == old(block[..])
    {
      hide XorBlock;
      var cipher: Block := block[..];
      var plain := XorBlock(p.decrypt(key, cipher), prev);
      prev := cipher;
      forall i | 0 <= i < AES_BLOCK {
        block[i] := plain[i];
      }
    }
  }

  method NewCbcDec(p: Primitives, key: seq<byte>, iv: Block) returns (r: Result<CbcDec>)
    ensures r.Ok? <==> KeyLength(|key|)
    ensures r.Ok? ==> fresh(r.value) && r.value.p == p && r.value.key == key && r.value.prev == iv
    ensures r.Err? ==> r == Err(UnsupportedEncryption(KeySize))
  {
    if !KeyLength(|key|) {
      return Err(UnsupportedEncryption(KeySize));
    }
    var dec := new CbcDec(p, key, iv);
    r := Ok(dec);
  }

  /** One chunk of the buffer, in place. */
  method DecryptChunk(dec: CbcDec, data: array<byte>, at: nat)
    requires at + AES_BLOCK <= data.Length
    modifies dec, data
    ensures dec.prev == old(data[at..at + AES_BLOCK])
    ensures data[at..at + AES_BLOCK] == XorBlock(dec.p.decrypt(dec.key, old(data[at..at + AES_BLOCK])), old(dec.prev))
    ensures data[..at] == old(data[..at]) && data[at + AES_BLOCK..] == old(data[at + AES_BLOCK..])
  {
    hide XorBlock;
    var block := new byte[AES_BLOCK];
    forall i | 0 <= i < AES_BLOCK {
      block[i] := data[at + i];
    }
    assert block[..] == data[at..at + AES_BLOCK];
    dec.DecryptBlock(block);
    forall i | 0 <= i < AES_BLOCK {
      data[at + i] := block[i];
    }
    assert data[at..at + AES_BLOCK] == block[..];
  }

  /** `cbc_decrypt_buffer`: decrypt a buffer in place, block by block. */
  method CbcDecryptBuffer(p: Primitives, key: seq<byte>, iv: Block, data: array<byte>) returns (r: Result<()>)
    modifies data
    ensures r.Ok? <==> KeyLength(|key|)
    ensures r.Ok? ==> data[..] == CbcDecrypt(p, key, iv, old(data[..]))
    ensures r.Err? ==> r == Err(UnsupportedEncryption(KeySize)) && data[..] == old(data[..])
  {
    hide XorBlock, CbcDecrypt;
    var dec :- NewCbcDec(p, key, iv);
    var at := 0;
    ghost var all := data[..];
    CbcShort(p, key, iv, []);
    while at + AES_BLOCK <= data.Length
      invariant at <= data.Length && at % AES_BLOCK == 0
      invariant dec.p == p && dec.key == key && dec.prev == LastBlock(iv, all[..at])
      invariant data[at..] == all[at..]
      invariant data[..at] == CbcDecrypt(p, key, iv, all[..at])
    {
      ghost var done, cipher := data[..at], all[at..at + AES_BLOCK];
      SameSlice(data[..], all, at);
      DecryptChunk(dec, data, at);
      CbcSnoc(p, key, iv, all[..at], cipher);
      assert all[..at + AES_BLOCK] == all[..at] + cipher;
      assert data[..at + AES_BLOCK] == done + data[at..at + AES_BLOCK];
      at := at + AES_BLOCK;
    }
    CbcConcat(p, key, iv, all[..at], all[at..]);
    CbcShort(p, key, LastBlock(iv, all[..at]), all[at..]);
    assert all == all[..at] + all[at..];
    assert data[..] == data[..at] + data[at..];
    r := Ok(());
  }

  lemma {:induction false} SameSlice(a: seq<byte>, b: seq<byte>, at: nat)
    requires at + AES_BLOCK <= |a| == |b| && a[at..] == b[at..]
    ensures a[at..at + AES_BLOCK] == b[at..at + AES_BLOCK] && a[at + AES_BLOCK..] == b[at + AES_BLOCK..]
  {
    assert a[at..at + AES_BLOCK] == a[at..][..AES_BLOCK] && b[at..at + AES_BLOCK] == b[at..][..AES_BLOCK];
    assert a[at + AES_BLOCK..] == a[at..][AES_BLOCK..] && b[at + AES_BLOCK..] == b[at..][AES_BLOCK..];
  }

  lemma {:induction false} CbcShort(p: Primitives, key: seq<byte>, iv: Block, data: seq<byte>)
    requires |data| < AES_BLOCK
    ensures CbcDecrypt(p, key, iv, data) == data
  {
  }

  /** One block more. */
  lemma {:induction false} CbcSnoc(p: Primitives, key: seq<byte>, iv: Block, a: seq<byte>, c: Block)
    requires |a| % AES_BLOCK == 0
    ensures CbcDecrypt(p, key, iv, a + c) == CbcDecrypt(p, key, iv, a) + XorBlock(p.decrypt(key, c), LastBlock(iv, a))
    ensures LastBlock(iv, a + c) == c
  {
    hide XorBlock;
    CbcConcat(p, key, iv, a, c);
    assert c[..AES_BLOCK] == c && c[AES_BLOCK..] == [];
  }
}
