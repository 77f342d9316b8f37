/**
 Traditional PKWARE encryption (section 6.1 of the APPNOTE): the three-key machine of
 core/src/crypto.rs, its decrypting reader, and the round trip with the encryption of the format.
 */
module ZipCrypto {
  import opened Wrappers
  import opened Bytes
  import opened Streams
  import opened Registers
  import Crc32

  datatype Keys = Keys(key0: bv32, key1: uint32, key2: bv32)

  const INITIAL: Keys := Keys(0x1234_5678, 0x2345_6789, 0x3456_7890)

  // 32-bit sums and products, which wrap.

  function Plus(x: uint32, y: uint32): uint32 {
    (x + y) % 0x1_0000_0000
  }

  function Multiply(x: uint32): uint32 {
    (x * 134_775_813) % 0x1_0000_0000
  }

  function NextKey1(key1: uint32, key0: bv32): uint32 {
    Plus(Multiply(Plus(key1, Num(And(key0, 0xFF)))), 1)
  }

  function HighByte(key1: uint32): byte {
    (key1 / 0x100_0000) as byte
  }

  /** `update`: the keys after plaintext byte `b`. */
  function Next(k: Keys, b: byte): Keys {
    var key0 := Crc32.Update(k.key0, b);
    var key1 := NextKey1(k.key1, key0);
    Keys(key0, key1, Crc32.Update(k.key2, HighByte(key1)))
  }

  /** The 16-bit value of `decrypt_byte`. */
  function Temp(k: Keys): bv32 {
    And(WithTwo(k.key2), 0xFFFF)
  }

  /** The second byte of a product of registers. */
  function SecondByte(t: nat, u: nat): byte {
    (t * u % 0x1_0000_0000 / 0x100 % 0x100) as byte
  }

  /** The keystream byte of `decrypt_byte`. */
  function Pad(k: Keys): byte {
    SecondByte(Num(Temp(k)), Num(Xor32(Temp(k), 1)))
  }

  // ----- the cipher on byte strings -----------------------------------------------------------

  /** The keys after a run of plaintext, as a password is fed. */
  function After(k: Keys, plain: seq<byte>): Keys
    decreases |plain|
  {
    if plain == [] then k else After(Next(k, plain[0]), plain[1..])
  }

  /** Encryption per section 6.1.5: each byte is padded, and then moves the keys. */
  function Encrypt(k: Keys, plain: seq<byte>): (c: seq<byte>)
    ensures |c| == |plain|
    decreases |plain|
  {
    if plain == [] then [] else [Xor(plain[0], Pad(k))] + Encrypt(Next(k, plain[0]), plain[1..])
  }

  function Decrypt(k: Keys, cipher: seq<byte>): (p: seq<byte>)
    ensures |p| == |cipher|
    decreases |cipher|
  {
    if cipher == [] then []
    else
      var plain := Xor(cipher[0], Pad(k));
      [plain] + Decrypt(Next(k, plain), cipher[1..])
  }

  lemma {:induction false} DecryptInverts(k: Keys, plain: seq<byte>)
    ensures Decrypt(k, Encrypt(k, plain)) == plain
    decreases |plain|
  {
    hide Pad, Next, Xor;
    if plain != [] {
      XorTwice(plain[0], Pad(k));
      DecryptInverts(Next(k, plain[0]), plain[1..]);
      assert Encrypt(k, plain)[1..] == Encrypt(Next(k, plain[0]), plain[1..]);
    }
  }

  /** Encryption inverts decryption too, so a key state is a permutation of the strings of each length. */
  lemma {:induction false} EncryptInverts(k: Keys, cipher: seq<byte>)
    ensures Encrypt(k, Decrypt(k, cipher)) == cipher
    decreases |cipher|
  {
    hide Pad, Next, Xor;
    if cipher != [] {
      var plain := Xor(cipher[0], Pad(k));
      XorTwice(cipher[0], Pad(k));
      EncryptInverts(Next(k, plain), cipher[1..]);
      assert Decrypt(k, cipher)[1..] == Decrypt(Next(k, plain), cipher[1..]);
    }
  }

  /** Decrypting in two parts: the keys carry over. */
  lemma {:induction false} DecryptConcat(k: Keys, a: seq<byte>, b: seq<byte>)
    ensures Decrypt(k, a + b) == Decrypt(k, a) + Decrypt(After(k, Decrypt(k, a)), b)
    decreases |a|
  {
    hide Pad, Next, Xor;
    if a == [] {
      assert a + b == b;
    } else {
      var plain := Xor(a[0], Pad(k));
      DecryptConcat(Next(k, plain), a[1..], b);
      assert (a + b)[1..] == a[1..] + b;
      assert Decrypt(k, a)[1..] == Decrypt(Next(k, plain), a[1..]);
    }
  }

  lemma {:induction false} EncryptConcat(k: Keys, a: seq<byte>, b: seq<byte>)
    ensures Encrypt(k, a + b) == Encrypt(k, a) + Encrypt(After(k, a), b)
    decreases |a|
  {
    hide Pad, Next, Xor;
    if a == [] {
      assert a + b == b;
    } else {
      EncryptConcat(Next(k, a[0]), a[1..], b);
      assert (a + b)[1..] == a[1..] + b;
    }
  }

  lemma {:induction false} AfterConcat(k: Keys, a: seq<byte>, b: seq<byte>)
    ensures After(k, a + b) == After(After(k, a), b)
    decreases |a|
  {
    hide Next;
    if a == [] {
      assert a + b == b;
    } else {
      AfterConcat(Next(k, a[0]), a[1..], b);
      assert (a + b)[1..] == a[1..] + b;
    }
  }

  lemma {:induction false} DecryptNothing(k: Keys)
    ensures Decrypt(k, []) == [] && After(k, []) == k
  {
  }

  /** One byte more. */
  lemma {:induction false} DecryptSnoc(k: Keys, a: seq<byte>, c: byte)
    ensures
      var before := After(k, Decrypt(k, a));
      var plain := Xor(c, Pad(before));
      Decrypt(k, a + [c]) == Decrypt(k, a) + [plain] && After(k, Decrypt(k, a) + [plain]) == Next(before, plain)
  {
    hide Pad, Next, Xor;
    var before := After(k, Decrypt(k, a));
    DecryptConcat(k, a, [c]);
    assert Decrypt(before, [c]) == [Xor(c, Pad(before))] by { assert [c][1..] == []; }
    AfterSnoc(k, Decrypt(k, a), Xor(c, Pad(before)));
  }

  lemma {:induction false} AfterSnoc(k: Keys, a: seq<byte>, b: byte)
    ensures After(k, a + [b]) == Next(After(k, a), b)
  {
    hide Next;
    AfterConcat(k, a, [b]);
    assert [b][1..] == [];
  }

  // ----- the key machine is a permutation -----------------------------------------------------

  function Minus(x: uint32, y: uint32): uint32 {
    (x - y) % 0x1_0000_0000
  }

  /** 0xD94FA8CD is the inverse of the multiplier modulo 2^32. */
  function Divide(x: uint32): uint32 {
    (x * 0xD94F_A8CD) % 0x1_0000_0000
  }

  function PreviousKey1(key1: uint32, key0: bv32): uint32 {
    Minus(Divide(Minus(key1, 1)), Num(And(key0, 0xFF)))
  }

  /** The two factors undo each other modulo 2^32. */
  lemma {:induction false} FactorsUndo(x: uint32, a: nat, b: nat, k: nat)
    requires a * b == 1 + k * 0x1_0000_0000
    ensures x * a % 0x1_0000_0000 * b % 0x1_0000_0000 == x
  {
    var q, r := x * a / 0x1_0000_0000, x * a % 0x1_0000_0000;
    assert x * a == q * 0x1_0000_0000 + r;
    ProductOf(x, a, b, k, q, r);
    WrapsAway(x, x * k - q * b);
  }

  lemma {:induction false} ProductOf(x: nat, a: nat, b: nat, k: nat, q: nat, r: nat)
    requires a * b == 1 + k * 0x1_0000_0000 && x * a == q * 0x1_0000_0000 + r
    ensures r * b == x + (x * k - q * b) * 0x1_0000_0000
  {
    assert x * (a * b) == (x * a) * b;
    assert x * (1 + k * 0x1_0000_0000) == x + x * k * 0x1_0000_0000;
    assert (q * 0x1_0000_0000 + r) * b == q * b * 0x1_0000_0000 + r * b;
  }

  lemma {:induction false} MultiplyBijective(x: uint32)
    ensures Divide(Multiply(x)) == x && Multiply(Divide(x)) == x
  {
    assert 134_775_813 * 0xD94F_A8CD == 1 + 114_407_381 * 0x1_0000_0000;
    FactorsUndo(x, 134_775_813, 0xD94F_A8CD, 114_407_381);
    FactorsUndo(x, 0xD94F_A8CD, 134_775_813, 114_407_381);
  }

  lemma {:induction false} PlusMinus(x: uint32, y: uint32)
    ensures Minus(Plus(x, y), y) == x && Plus(Minus(x, y), y) == x
  {
  }

  lemma {:induction false} Key1Bijective(key1: uint32, key0: bv32)
    ensures PreviousKey1(NextKey1(key1, key0), key0) == key1
    ensures NextKey1(PreviousKey1(key1, key0), key0) == key1
  {
    hide Multiply, Divide, Num, And, Plus, Minus;
    var low := Num(And(key0, 0xFF));
    PlusMinus(Multiply(Plus(key1, low)), 1);
    MultiplyBijective(Plus(key1, low));
    PlusMinus(key1, low);
    PlusMinus(Divide(Minus(key1, 1)), low);
    MultiplyBijective(Minus(key1, 1));
    PlusMinus(key1, 1);
  }

  /** The keys before plaintext byte `b`. */
  function Undo(k: Keys, b: byte): Keys {
    Keys(Crc32.Undo(k.key0, b), PreviousKey1(k.key1, k.key0), Crc32.Undo(k.key2, HighByte(k.key1)))
  }

  /** For each byte, `update` is a bijection of the three-key state. */
  lemma {:induction false} UpdateBijective(k: Keys, b: byte)
    ensures Undo(Next(k, b), b) == k && Next(Undo(k, b), b) == k
  {
    hide Crc32.Update, Crc32.Undo, NextKey1, PreviousKey1, HighByte;
    var n := Next(k, b);
    Crc32.UpdateBijective(k.key0, b);
    Key1Bijective(k.key1, n.key0);
    Crc32.UpdateBijective(k.key2, HighByte(n.key1));
    Key1Bijective(k.key1, k.key0);
    Crc32.UpdateBijective(k.key2, HighByte(k.key1));
  }

  // ----- the encryption of section 6.1, over numbers ---------------------------------------------

  datatype Numbers = Numbers(key0: nat, key1: nat, key2: nat)

  /** Section 6.1.5: the keys before the password. */
  const FIRST: Numbers := Numbers(305_419_896, 591_751_049, 878_082_192)

  function Absorb(k: Numbers, b: byte): Numbers {
    var key0 := Crc32.Reference(k.key0, b);
    var key1 := ((k.key1 + key0 % 256) * 134_775_813 + 1) % 0x1_0000_0000;
    Numbers(key0, key1, Crc32.Reference(k.key2, (key1 / 0x100_0000) as byte))
  }

  function AbsorbAll(k: Numbers, plain: seq<byte>): Numbers
    decreases |plain|
  {
    if plain == [] then k else AbsorbAll(Absorb(k, plain[0]), plain[1..])
  }

  /** The number that differs in the lowest bit only. */
  function Neighbour(t: nat): nat {
    if t % 2 == 0 then t + 1 else t - 1
  }

  /** Section 6.1.6: the low half of the third key, with bit 1 set, times its neighbour. */
  function PadByte(k: Numbers): byte {
    var half := k.key2 % 0x1_0000;
    var t := if k.key2 / 2 % 2 == 1 then half else half + 2;
    (t * Neighbour(t) / 256 % 256) as byte
  }

  function Produce(k: Numbers, plain: seq<byte>): seq<byte>
    decreases |plain|
  {
    if plain == [] then []
    else [XorBits(plain[0] as nat, PadByte(k) as nat, 8) as byte] + Produce(Absorb(k, plain[0]), plain[1..])
  }

  /** The numbers the reader's registers hold. */
  function NumbersOf(k: Keys): Numbers {
    Numbers(Num(k.key0), k.key1, Num(k.key2))
  }

  lemma {:induction false} Key1Is(key1: uint32, key0: bv32)
    ensures NextKey1(key1, key0) == ((key1 + Num(key0) % 256) * 134_775_813 + 1) % 0x1_0000_0000
  {
    hide Num, And;
    NumLowByte(key0);
    WrapsOnce(key1 + Num(key0) % 256);
  }

  /** Wrapping early or late is the same. */
  lemma {:induction false} WrapsOnce(n: nat)
    ensures (n % 0x1_0000_0000 * 134_775_813 % 0x1_0000_0000 + 1) % 0x1_0000_0000 ==
      (n * 134_775_813 + 1) % 0x1_0000_0000
  {
    var q, r := n / 0x1_0000_0000, n % 0x1_0000_0000;
    var product := r * 134_775_813;
    var q2 := product / 0x1_0000_0000;
    assert n * 134_775_813 + 1 == product % 0x1_0000_0000 + 1 + (q * 134_775_813 + q2) * 0x1_0000_0000;
    WrapsAway(product % 0x1_0000_0000 + 1, q * 134_775_813 + q2);
  }

  lemma {:induction false} WrapsAway(n: nat, q: int)
    ensures (n + q * 0x1_0000_0000) % 0x1_0000_0000 == n % 0x1_0000_0000
  {
  }

  /** The registers move as the numbers of the format do. */
  lemma {:induction false} NextIsAbsorb(k: Keys, b: byte)
    ensures NumbersOf(Next(k, b)) == Absorb(NumbersOf(k), b)
  {
    hide Num, Crc32.Update, Crc32.Reference, NextKey1;
    var key0 := Crc32.Update(k.key0, b);
    Crc32.UpdateIsReference(k.key0, b);
    Key1Is(k.key1, key0);
    Crc32.UpdateIsReference(k.key2, HighByte(NextKey1(k.key1, key0)));
  }

  /** The half register with bit 1 set, and its neighbour. */
  lemma {:induction false} TempIs(key2: bv32)
    ensures
      var t := And(WithTwo(key2), 0xFFFF);
      var half: nat := Num(key2) % 0x1_0000;
      && Num(t) == (if Num(key2) / 2 % 2 == 1 then half else half + 2)
      && Num(t) < 0x1_0000 && Num(Xor32(t, 1)) == Neighbour(Num(t))
  {
    hide Num, And, WithTwo, Xor32, Low, Tail, Val;
    var t := And(WithTwo(key2), 0xFFFF);
    NumLowHalf(WithTwo(key2));
    NumLowHalf(key2);
    ValWithTwo(key2, 14);
    NumHalf(key2);
    NumHalf(Tail(key2));
    NumFlipped(t);
    NumHalf(t);
  }

  lemma {:induction false} Product(t: nat, u: nat)
    requires t < 0x1_0000 && u <= 0x1_0000
    ensures SecondByte(t, u) as nat == t * u / 256 % 256
  {
    assert t * u + (0xFFFF - t) * u == 0xFFFF * u;
    Unwrapped(t * u);
  }

  lemma {:induction false} Unwrapped(n: int)
    requires 0 <= n < 0x1_0000_0000
    ensures n % 0x1_0000_0000 == n
  {
  }

  lemma {:induction false} NeighbourNear(t: nat)
    ensures Neighbour(t) <= t + 1
  {
  }

  lemma {:induction false} PadIsPadByte(k: Keys)
    ensures Pad(k) == PadByte(NumbersOf(k))
  {
    hide Num, And, WithTwo, Xor32, SecondByte, Neighbour;
    TempIs(k.key2);
    NeighbourNear(Num(Temp(k)));
    Product(Num(Temp(k)), Num(Xor32(Temp(k), 1)));
  }

  /** What the registers encrypt is what the format says. */
  lemma {:induction false} EncryptIsProduce(k: Keys, plain: seq<byte>)
    ensures Encrypt(k, plain) == Produce(NumbersOf(k), plain)
    decreases |plain|
  {
    hide Pad, PadByte, Next, Absorb, NumbersOf, XorBits;
    if plain != [] {
      PadIsPadByte(k);
      NextIsAbsorb(k, plain[0]);
      EncryptIsProduce(Next(k, plain[0]), plain[1..]);
    }
  }

  lemma {:induction false} AfterIsAbsorbAll(k: Keys, plain: seq<byte>)
    ensures NumbersOf(After(k, plain)) == AbsorbAll(NumbersOf(k), plain)
    decreases |plain|
  {
    hide Next, Absorb, NumbersOf;
    if plain != [] {
      NextIsAbsorb(k, plain[0]);
      AfterIsAbsorbAll(Next(k, plain[0]), plain[1..]);
    }
  }

  lemma {:induction false} InitialIsFirst()
    ensures NumbersOf(INITIAL) == FIRST
  {
    hide Num;
    NumBytes(0x1234_5678);
    NumBytes(0x3456_7890);
  }

  // ----- the reader ---------------------------------------------------------------------------

  const HEADER_LEN: nat := 12

  class ZipCryptoReader {
    const inner: Source
    var key0: bv32
    var key1: uint32
    var key2: bv32

    ghost predicate Valid()
      reads this, inner
    {
      inner.Valid()
    }

    function TheKeys(): Keys
      reads this
    {
      Keys(key0, key1, key2)
    }

    /** What is left to be read. */
    ghost function Rest(): seq<byte>
      requires Valid()
      reads this, inner
    {
      Decrypt(TheKeys(), inner.data[inner.pos..])
    }

    constructor (inner: Source)
      requires inner.Valid()
      ensures Valid() && this.inner == inner && TheKeys() == INITIAL
    {
      this.inner := inner;
      key0, key1, key2 := 0x1234_5678, 0x2345_6789, 0x3456_7890;
    }

    method UpdateKeys(b: byte)
      modifies this
      ensures TheKeys() == Next(old(TheKeys()), b)
    {
      hide Crc32.Update, HighByte, NextKey1;
      key0 := Crc32.Crc32Byte(key0, b);
      key1 := NextKey1(key1, key0);
      key2 := Crc32.Crc32Byte(key2, HighByte(key1));
    }

    method DecryptByte(cipher: byte) returns (plain: byte)
      modifies this
      ensures plain == Xor(cipher, Pad(old(TheKeys())))
      ensures TheKeys() == Next(old(TheKeys()), plain)
    {
      hide Pad, Next, Xor;
      plain := Xor(cipher, Pad(TheKeys()));
      UpdateKeys(plain);
    }

    /** Decrypt a run of bytes in place, as the loops over the header and the read buffer do. */
    method DecryptAll(cipher: seq<byte>) returns (plain: seq<byte>)
      modifies this
      ensures plain == Decrypt(old(TheKeys()), cipher)
      ensures TheKeys() == After(old(TheKeys()), plain)
    {
      hide Pad, Next, Xor, Decrypt, After;
      plain := cipher;
      ghost var k := TheKeys();
      DecryptNothing(k);
      for i := 0 to |cipher|
        invariant |plain| == |cipher| && plain[i..] == cipher[i..]
        invariant plain[..i] == Decrypt(k, cipher[..i]) && TheKeys() == After(k, plain[..i])
      {
        ghost var done := plain[..i];
        DecryptSnoc(k, cipher[..i], cipher[i]);
        var b := DecryptByte(plain[i]);
        plain := plain[i := b];
        assert cipher[..i + 1] == cipher[..i] + [cipher[i]];
        assert plain[..i + 1] == done + [b];
      }
      assert plain[..|cipher|] == plain && cipher[..|cipher|] == cipher;
    }

    /** Initialise from the password and check the header; the reader then stands at the data. */
    method Start(password: seq<byte>, check: byte) returns (r: Result<()>)
      requires Valid() && TheKeys() == INITIAL
      modifies this, inner
      ensures Valid()
      ensures
        var from := old(inner.pos);
        var k := After(INITIAL, password);
        if from + HEADER_LEN > |inner.data| then r == Err(Io)
        else
          var header := Decrypt(k, inner.data[from..from + HEADER_LEN]);
          if header[11] != check then r == Err(WrongPassword)
          else r == Ok(()) && Rest() == Decrypt(After(k, header), inner.data[from + HEADER_LEN..])
    {
      hide Next, Decrypt, After;
      DecryptNothing(INITIAL);
      for i := 0 to |password|
        invariant Valid() && TheKeys() == After(INITIAL, password[..i]) && inner.pos == old(inner.pos)
      {
        UpdateKeys(password[i]);
        assert password[..i + 1] == password[..i] + [password[i]];
        AfterSnoc(INITIAL, password[..i], password[i]);
      }
      assert password[..|password|] == password;
      var raw :- inner.ReadExact(HEADER_LEN);
      var header := DecryptAll(raw);
      if header[11] != check {
        return Err(WrongPassword);
      }
      r := Ok(());
    }

    /** `read`: one, possibly short, inner read, decrypted. */
    method Read(room: nat) returns (out: seq<byte>)
      requires Valid()
      modifies this, inner
      ensures Valid() && |out| <= room && (out == [] <==> room == 0 || old(Rest()) == [])
      ensures out + Rest() == old(Rest()) && inner.pos == old(inner.pos) + |out|
    {
      hide Next, Pad, Xor;
      ghost var rest := inner.data[inner.pos..];
      var cipher := inner.Read(room);
      assert rest == cipher + inner.data[inner.pos..];
      DecryptConcat(TheKeys(), cipher, inner.data[inner.pos..]);
      out := DecryptAll(cipher);
    }
  }

  /** Read to the end with whatever buffer sizes and short reads. */
  method ReadToEnd(reader: ZipCryptoReader) returns (out: seq<byte>)
    requires reader.Valid()
    modifies reader, reader.inner
    ensures reader.Valid() && out == old(reader.Rest()) && reader.Rest() == []
  {
    hide Decrypt;
    out := [];
    while true
      invariant reader.Valid() && out + reader.Rest() == old(reader.Rest())
      decreases |reader.inner.data| - reader.inner.pos
    {
      var room: nat :| room > 0;
      var chunk := reader.Read(room);
      if chunk == [] {
        break;
      }
      out := out + chunk;
    }
  }

  /** An encrypted member of section 6.1: the 12-byte header, then the data, under the keys of the password. */
  function EncryptedMember(password: seq<byte>, header: seq<byte>, data: seq<byte>): seq<byte> {
    Produce(AbsorbAll(FIRST, password), header + data)
  }

  /** Encrypted data opened with a password and read to its end. */
  function Opened(data: seq<byte>, password: seq<byte>, check: byte): Result<seq<byte>> {
    if |data| < HEADER_LEN then Err(Io)
    else
      var k := After(INITIAL, password);
      var header := Decrypt(k, data[..HEADER_LEN]);
      if header[11] != check then Err(WrongPassword) else Ok(Decrypt(After(k, header), data[HEADER_LEN..]))
  }

  /** `ZipCryptoReader::new`, and a caller that reads to the end. */
  method DecryptMember(data: seq<byte>, password: seq<byte>, check: byte) returns (r: Result<seq<byte>>)
    ensures r == Opened(data, password, check)
  {
    hide After, Decrypt;
    var inner := new Source(data);
    var reader := new ZipCryptoReader(inner);
    var _ :- reader.Start(password, check);
    var out := ReadToEnd(reader);
    r := Ok(out);
  }

  /**
   ZipCrypto round trip: for every password, header and data, the reader delivers what section 6.1
   encrypted, exactly when the header ends in the check byte.
   */
  lemma {:induction false} RoundTrip(password: seq<byte>, header: seq<byte>, data: seq<byte>, check: byte)
    requires |header| == HEADER_LEN
    ensures Opened(EncryptedMember(password, header, data), password, check) ==
      if header[11] == check then Ok(data) else Err(WrongPassword)
  {
    hide Next, Pad, Xor, After, Encrypt, Decrypt, NumbersOf, Produce, AbsorbAll;
    var k := After(INITIAL, password);
    var file := EncryptedMember(password, header, data);
    InitialIsFirst();
    AfterIsAbsorbAll(INITIAL, password);
    EncryptIsProduce(k, header + data);
    EncryptConcat(k, header, data);
    assert file[..HEADER_LEN] == Encrypt(k, header);
    assert file[HEADER_LEN..] == Encrypt(After(k, header), data);
    DecryptInverts(k, header);
    DecryptInverts(After(k, header), data);
  }

  /** The data is an encrypted member with the right check byte. */
  ghost predicate Produced(data: seq<byte>, password: seq<byte>, check: byte, plain: seq<byte>) {
    exists header :: |header| == 12 && header[11] == check && data == EncryptedMember(password, header, plain)
  }

  /** The reader accepts what section 6.1 encrypts with the right check byte, and nothing else. */
  lemma {:induction false} OnlyProduced(data: seq<byte>, password: seq<byte>, check: byte, plain: seq<byte>)
    ensures Opened(data, password, check) == Ok(plain) <==> Produced(data, password, check, plain)
  {
    hide Next, Pad, Xor, After, Encrypt, Decrypt, NumbersOf, Produce, AbsorbAll;
    forall header | |header| == 12 && header[11] == check && data == EncryptedMember(password, header, plain)
      ensures Opened(data, password, check) == Ok(plain)
    {
      RoundTrip(password, header, plain, check);
    }
    if Opened(data, password, check) == Ok(plain) {
      var k := After(INITIAL, password);
      var header := Decrypt(k, data[..12]);
      InitialIsFirst();
      AfterIsAbsorbAll(INITIAL, password);
      EncryptIsProduce(k, header + plain);
      EncryptConcat(k, header, plain);
      EncryptInverts(k, data[..12]);
      EncryptInverts(After(k, header), data[12..]);
      assert data == data[..12] + data[12..];
    }
  }

  /** Data too short for a header is an I/O error, and other data that is not encrypted so is a wrong password. */
  lemma {:induction false} RefusedAs(data: seq<byte>, password: seq<byte>, check: byte)
    ensures Opened(data, password, check) == Err(Io) <==> |data| < 12
    ensures
      Opened(data, password, check) == Err(WrongPassword)
      <==> |data| >= 12 && forall plain :: !Produced(data, password, check, plain)
  {
    hide Decrypt, After, Produced;
    forall plain
      ensures Opened(data, password, check) == Ok(plain) <==> Produced(data, password, check, plain)
    {
      OnlyProduced(data, password, check, plain);
    }
    if Opened(data, password, check).Ok? {
      assert Produced(data, password, check, Opened(data, password, check).value);
    }
  }
}
