/**
 The WinZip AES reader of core/src/crypto.rs: counter-mode decryption with an authentication code
 over the ciphertext, checked when the ciphertext has been read. The keystream, the code and the
 key derivation come from other crates and are parameters.
 */
module AesCtr {
  import opened Wrappers
  import opened Bytes
  import opened Streams
  import opened Cbc

  datatype CtrPrimitives = CtrPrimitives(
    keystream: (seq<byte>, nat) -> byte,
    hmac: (seq<byte>, seq<byte>) -> Digest,
    pbkdf2: (seq<byte>, seq<byte>, nat) -> seq<byte>)
  {
    /** Key derivation gives as many bytes as asked for. */
    ghost predicate Lawful() {
      forall password, salt, n :: |pbkdf2(password, salt, n)| == n
    }
  }

  const VERIFIER_LEN: nat := 2
  const AUTH_LEN: nat := 10

  function SaltLen(strength: byte): nat {
    if strength == 1 then 8 else if strength == 2 then 12 else 16
  }

  function KeyLen(strength: byte): nat {
    if strength == 1 then 16 else if strength == 2 then 24 else 32
  }

  /** Counter mode from keystream position `from`; encryption and decryption are the same. */
  function Ctr(p: CtrPrimitives, key: seq<byte>, from: nat, s: seq<byte>): (r: seq<byte>)
    ensures |r| == |s|
  {
    seq(|s|, i requires 0 <= i < |s| => Xor(s[i], p.keystream(key, from + i)))
  }

  lemma {:induction false} CtrTwice(p: CtrPrimitives, key: seq<byte>, from: nat, s: seq<byte>)
    ensures Ctr(p, key, from, Ctr(p, key, from, s)) == s
  {
    hide Xor;
    forall i | 0 <= i < |s|
      ensures Ctr(p, key, from, Ctr(p, key, from, s))[i] == s[i]
    {
      XorTwice(s[i], p.keystream(key, from + i));
    }
  }

  lemma {:induction false} CtrConcat(p: CtrPrimitives, key: seq<byte>, from: nat, a: seq<byte>, b: seq<byte>)
    ensures Ctr(p, key, from, a + b) == Ctr(p, key, from, a) + Ctr(p, key, from + |a|, b)
  {
    hide Xor;
  }

  /** Keys and verifier derived from the password. */
  datatype Derived = Derived(encKey: seq<byte>, macKey: seq<byte>, verifier: seq<byte>)

  function Derive(p: CtrPrimitives, password: seq<byte>, salt: seq<byte>, keyLen: nat): Derived
    requires |p.pbkdf2(password, salt, 2 * keyLen + 2)| == 2 * keyLen + 2
  {
    var d := p.pbkdf2(password, salt, 2 * keyLen + 2);
    Derived(d[..keyLen], d[keyLen..2 * keyLen], d[2 * keyLen..2 * keyLen + 2])
  }

  // ----- the reader ---------------------------------------------------------------------------

  class AesReader {
    const p: CtrPrimitives
    const inner: Source
    const encKey: seq<byte>
    const macKey: seq<byte>
    var keystreamPos: nat
    var absorbed: seq<byte>     // what the authentication code has been fed
    var remaining: nat
    var done: bool
    ghost const start: nat      // where the ciphertext starts
    ghost const total: nat      // and its length

    ghost predicate Valid()
      reads this, inner
    {
      && inner.Valid() && start <= |inner.data|
      && keystreamPos + remaining == total
      && (!done ==> inner.pos == start + keystreamPos && absorbed == inner.data[start..inner.pos])
      && (done ==> remaining == 0)
    }

    constructor (p: CtrPrimitives, inner: Source, encKey: seq<byte>, macKey: seq<byte>, remaining: nat)
      requires inner.Valid()
      ensures Valid() && this.p == p && this.inner == inner && this.encKey == encKey && this.macKey == macKey
      ensures !done && start == inner.pos && total == remaining == this.remaining && keystreamPos == 0
    {
      this.p, this.inner, this.encKey, this.macKey := p, inner, encKey, macKey;
      this.keystreamPos, this.absorbed, this.remaining, this.done := 0, [], remaining, false;
      this.start, this.total := inner.pos, remaining;
    }

    /** The stream's first terminal result, once its ciphertext is used up. */
    ghost function Verdict(): Result<()>
      reads this, inner
      requires start + total <= |inner.data|
    {
      if start + total + AUTH_LEN > |inner.data| then Err(Io)
      else
        var ciphertext, code := inner.data[start..start + total], inner.data[start + total..start + total + AUTH_LEN];
        if p.hmac(macKey, ciphertext)[..AUTH_LEN] != code then Err(WrongPassword) else Ok(())
    }

    method Finish() returns (r: Result<()>)
      requires Valid() && remaining == 0 && !done
      modifies this, inner
      ensures Valid() && done && r == old(Verdict()) && remaining == 0 && keystreamPos == old(keystreamPos)
    {
      done := true;
      var code :- inner.ReadExact(AUTH_LEN);
      if p.hmac(macKey, absorbed)[..AUTH_LEN] != code {
        return Err(WrongPassword);
      }
      r := Ok(());
    }

    /**
     `read`. While ciphertext remains, a call with room returns at least a byte of plaintext, or fails
     because the stream is cut short; a call without room fails too. Then one call decides.
     */
    method Read(room: nat) returns (r: Result<seq<byte>>)
      requires Valid()
      modifies this, inner
      ensures Valid()
      ensures old(remaining) > 0 ==>
        && (r.Err? <==> room == 0 || start + old(keystreamPos) == |inner.data|) && (r.Err? ==> r == Err(WrongPassword))
        && (r.Ok? ==>
             && 0 < |r.value| <= room && !done && keystreamPos == old(keystreamPos) + |r.value|
             && start + keystreamPos <= |inner.data|
             && r.value ==
               Ctr(p, encKey, old(keystreamPos), inner.data[start + old(keystreamPos)..start + keystreamPos]))
      ensures old(remaining) == 0 ==>
        && done && remaining == 0
        && r == if old(done) then Ok([]) else match old(Verdict()) case Ok(_) => Ok([]) case Err(e) => Err(e)
    {
      if remaining == 0 {
        if !done {
          var _ :- Finish();
        }
        return Ok([]);
      }
      var want := if room < remaining then room else remaining;
      var chunk := inner.Read(want);
      if |chunk| == 0 {
        return Err(WrongPassword);
      }
      absorbed := absorbed + chunk;
      var out := Ctr(p, encKey, keystreamPos, chunk);
      keystreamPos := keystreamPos + |chunk|;
      remaining := remaining - |chunk|;
      r := Ok(out);
    }
  }

  /**
   A stream read to its first terminal result: what is there
   decrypted, and success if it is whole and its code matches.
   */
  function Authenticated(p: CtrPrimitives, encKey: seq<byte>, macKey: seq<byte>, s: seq<byte>, length: nat): Flow {
    if length > |s| then Flow(Ctr(p, encKey, 0, s), Some(WrongPassword))
    else
      Flow(Ctr(p, encKey, 0, s[..length]),
           if length + AUTH_LEN > |s| then Some(Io)
           else if p.hmac(macKey, s[..length])[..AUTH_LEN] != s[length..length + AUTH_LEN] then Some(WrongPassword)
           else None)
  }

  /** Read to the first terminal result, with whatever non-empty buffers and short inner reads. */
  method ReadToEnd(reader: AesReader) returns (r: Flow)
    requires reader.Valid() && reader.keystreamPos == 0 && !reader.done
    modifies reader, reader.inner
    ensures reader.Valid()
    ensures r == Authenticated(reader.p, reader.encKey, reader.macKey, reader.inner.data[reader.start..], reader.total)
  {
    hide Ctr;
    var out: seq<byte> := [];
    ghost var s := reader.inner.data[reader.start..];
    CtrNothing(reader.p, reader.encKey);
    while reader.remaining > 0
      invariant reader.Valid() && !reader.done && reader.keystreamPos <= |s|
      invariant out == Ctr(reader.p, reader.encKey, 0, s[..reader.keystreamPos])
      decreases reader.remaining
    {
      var room: nat :| room > 0;
      ghost var at := reader.keystreamPos;
      var read := reader.Read(room);
      if read.Err? {
        assert s[..at] == s;
        return Flow(out, Some(read.error));
      }
      var chunk := read.value;
      ghost var piece := reader.inner.data[reader.start + at..reader.start + reader.keystreamPos];
      assert s[..reader.keystreamPos] == s[..at] + piece;
      CtrConcat(reader.p, reader.encKey, 0, s[..at], piece);
      out := out + chunk;
    }
    var room: nat :| room > 0;
    assert reader.inner.data[reader.start..reader.start + reader.total] == s[..reader.total];
    assert reader.total + AUTH_LEN <= |s| ==>
      reader.inner.data[reader.start + reader.total..reader.start + reader.total + AUTH_LEN] ==
        s[reader.total..reader.total + AUTH_LEN];
    var last := reader.Read(room);
    r := Flow(out, if last.Err? then Some(last.error) else None);
  }

  lemma {:induction false} CtrNothing(p: CtrPrimitives, key: seq<byte>)
    ensures Ctr(p, key, 0, []) == []
  {
  }

  // ----- whole entries ------------------------------------------------------------------------

  /** An entry of `size` compressed bytes, opened with a password and read to its end. */
  function Decrypted(p: CtrPrimitives, data: seq<byte>, password: seq<byte>, strength: byte, size: nat): Result<Flow>
    requires p.Lawful()
  {
    var salt, head := SaltLen(strength), SaltLen(strength) + VERIFIER_LEN;
    if size < head + AUTH_LEN then Err(UnsupportedEncryption(TooSmall))
    else if |data| < head then Err(Io)
    else
      var d := Derive(p, password, data[..salt], KeyLen(strength));
      if d.verifier != data[salt..head] then Err(WrongPassword)
      else Ok(Authenticated(p, d.encKey, d.macKey, data[head..], size - head - AUTH_LEN))
  }

  /** `AesReader::new`, and a caller that reads to the end. */
  method DecryptEntry(p: CtrPrimitives, data: seq<byte>, password: seq<byte>, strength: byte, size: nat)
    returns (r: Result<Flow>)
    requires p.Lawful()
    ensures r == Decrypted(p, data, password, strength, size)
  {
    hide Ctr;
    var overhead := SaltLen(strength) + VERIFIER_LEN + AUTH_LEN;
    if size < overhead {
      return Err(UnsupportedEncryption(TooSmall));
    }
    var inner := new Source(data);
    var salt :- inner.ReadExact(SaltLen(strength));
    var verifier :- inner.ReadExact(VERIFIER_LEN);
    assert salt == data[..SaltLen(strength)];
    var d := Derive(p, password, salt, KeyLen(strength));
    if d.verifier != verifier {
      return Err(WrongPassword);
    }
    var reader := new AesReader(p, inner, d.encKey, d.macKey, size - overhead);
    var flow := ReadToEnd(reader);
    r := Ok(flow);
  }

  // ----- the format ------------------------------------------------------------------------------

  /** The AE-x specification: keys of 128, 192 and 256 bits, and a salt of half the length. */
  function KeyBytes(strength: byte): nat {
    if strength == 1 then 16 else if strength == 2 then 24 else 32
  }

  /** What the password and the salt give: two keys, one after the other, and two bytes to verify. */
  function Material(p: CtrPrimitives, password: seq<byte>, strength: byte, salt: seq<byte>): (d: seq<byte>)
    requires p.Lawful()
    ensures |d| == 2 * KeyBytes(strength) + 2
  {
    assert |p.pbkdf2(password, salt, 2 * KeyBytes(strength) + 2)| == 2 * KeyBytes(strength) + 2;
    p.pbkdf2(password, salt, 2 * KeyBytes(strength) + 2)
  }

  /** Each byte mixed with its keystream byte. */
  function Streamed(p: CtrPrimitives, key: seq<byte>, s: seq<byte>): (r: seq<byte>)
    ensures |r| == |s|
  {
    seq(|s|, i requires 0 <= i < |s| => MixedByte(s[i], p.keystream(key, i)))
  }

  lemma {:induction false} StreamedIsCtr(p: CtrPrimitives, key: seq<byte>, s: seq<byte>)
    ensures Streamed(p, key, s) == Ctr(p, key, 0, s)
  {
    hide XorBits;
  }

  /** The reader splits the material as the format does. */
  lemma {:induction false} DerivedFrom(p: CtrPrimitives, password: seq<byte>, strength: byte, salt: seq<byte>)
    requires p.Lawful()
    ensures KeyLen(strength) == KeyBytes(strength) && SaltLen(strength) == KeyBytes(strength) / 2
    ensures
      var d, k := Material(p, password, strength, salt), KeyBytes(strength);
      |p.pbkdf2(password, salt, 2 * k + 2)| == 2 * k + 2
      && Derive(p, password, salt, k) == Derived(d[..k], d[k..2 * k], d[2 * k..])
  {
  }

  /** An entry of `size` bytes is whole, its verifier is the password's, and its code that of its ciphertext. */
  predicate Genuine(p: CtrPrimitives, data: seq<byte>, password: seq<byte>, strength: byte, size: nat)
    requires p.Lawful()
  {
    var k := KeyBytes(strength);
    var head := k / 2 + 2;
    && head + 10 <= size <= |data|
    && var d := Material(p, password, strength, data[..k / 2]);
       && d[2 * k..] == data[k / 2..head]
       && p.hmac(d[k..2 * k], data[head..size - 10])[..10] == data[size - 10..size]
  }

  /** What it then holds. */
  function Plaintext(p: CtrPrimitives, data: seq<byte>, password: seq<byte>, strength: byte, size: nat): seq<byte>
    requires p.Lawful() && Genuine(p, data, password, strength, size)
  {
    var k := KeyBytes(strength);
    Streamed(p, Material(p, password, strength, data[..k / 2])[..k], data[k / 2 + 2..size - 10])
  }

  /** An entry is read without an error exactly when it is genuine, whoever wrote it. */
  lemma {:induction false} OnlyGenuine(p: CtrPrimitives, data: seq<byte>, password: seq<byte>, strength: byte,
                                       size: nat)
    requires p.Lawful()
    ensures
      var r := Decrypted(p, data, password, strength, size);
      if Genuine(p, data, password, strength, size) then
        r == Ok(Flow(Plaintext(p, data, password, strength, size), None))
      else r.Ok? ==> r.value.failure.Some?
  {
    hide Ctr, Streamed, Derive, Material;
    var k := KeyBytes(strength);
    var head := k / 2 + 2;
    DerivedFrom(p, password, strength, []);
    if head + 10 <= size && head <= |data| {
      DerivedFrom(p, password, strength, data[..k / 2]);
      var s, length := data[head..], size - head - 10;
      if size <= |data| {
        assert s == data[head..|data|];
        SubSlice(data, head, |data|, 0, length);
        SubSlice(data, head, |data|, length, length + 10);
        assert s[..length] == s[0..length];
        StreamedIsCtr(p, Material(p, password, strength, data[..k / 2])[..k], s[..length]);
      }
    }
  }

  /**
   How an entry that is not genuine fails: it is too small for its salt, verifier and code; it ends before the
   ciphertext; the verifier is not the password's; the ciphertext or the code is cut; or the code is wrong.
   */
  lemma {:induction false} FailsAs(p: CtrPrimitives, data: seq<byte>, password: seq<byte>, strength: byte, size: nat)
    requires p.Lawful()
    ensures
      var r, k := Decrypted(p, data, password, strength, size), KeyBytes(strength);
      var head := k / 2 + 2;
      if size < head + 10 then r == Err(UnsupportedEncryption(TooSmall))
      else if |data| < head then r == Err(Io)
      else if Material(p, password, strength, data[..k / 2])[2 * k..] != data[k / 2..head] then r == Err(WrongPassword)
      else if |data| < size - 10 then r.Ok? && r.value.failure == Some(WrongPassword)
      else if |data| < size then r.Ok? && r.value.failure == Some(Io)
      else r.Ok? && (r.value.failure == Some(WrongPassword) <==> !Genuine(p, data, password, strength, size))
  {
    hide Ctr, Streamed, Derive, Material;
    DerivedFrom(p, password, strength, []);
    var k := KeyBytes(strength);
    if |data| >= k / 2 + 2 {
      DerivedFrom(p, password, strength, data[..k / 2]);
      OnlyGenuine(p, data, password, strength, size);
    }
  }

  /** What a producer writes: salt, verifier, ciphertext, authentication code. */
  function Encrypted(p: CtrPrimitives, password: seq<byte>, strength: byte, salt: seq<byte>,
                     plain: seq<byte>): seq<byte>
    requires p.Lawful()
  {
    var d, k := Material(p, password, strength, salt), KeyBytes(strength);
    var cipher := Streamed(p, d[..k], plain);
    salt + (d[2 * k..] + (cipher + p.hmac(d[k..2 * k], cipher)[..10]))
  }

  /** WinZip AES round trip, for every strength, salt, password and plaintext. */
  lemma {:induction false} RoundTrip(p: CtrPrimitives, password: seq<byte>, strength: byte, salt: seq<byte>,
                                     plain: seq<byte>)
    requires p.Lawful() && |salt| == KeyBytes(strength) / 2
    ensures
      var data := Encrypted(p, password, strength, salt, plain);
      Decrypted(p, data, password, strength, |data|) == Ok(Flow(plain, None))
  {
    hide Ctr, Streamed, Derive, Material;
    var data := Encrypted(p, password, strength, salt, plain);
    var k := KeyBytes(strength);
    var d := Material(p, password, strength, salt);
    var cipher := Streamed(p, d[..k], plain);
    var code := p.hmac(d[k..2 * k], cipher)[..10];
    var head := |salt| + 2;
    DerivedFrom(p, password, strength, salt);
    StreamedIsCtr(p, d[..k], plain);
    var rest := d[2 * k..] + (cipher + code);
    assert data[..|salt|] == salt && data[|salt|..] == rest;
    assert rest[..2] == d[2 * k..] && rest[2..] == cipher + code;
    assert data[|salt|..head] == rest[..2] && data[head..] == rest[2..];
    assert (cipher + code)[..|cipher|] == cipher && (cipher + code)[|cipher|..|cipher| + 10] == code;
    CtrTwice(p, d[..k], 0, plain);
  }
}
