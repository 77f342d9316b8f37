/** The number a 32-bit register holds, digit by digit, and what bit operations do to that number. */
module Registers {
  import opened Bytes

  // The operations have names so that proofs about runs of digits can hide them.

  predicate Low(x: bv32) {
    x & 1 != 0
  }

  function Tail(x: bv32): bv32 {
    x >> 1
  }

  function Digit(x: bv32): nat {
    if Low(x) then 1 else 0
  }

  /** The number that the lowest `n` bits denote. */
  function Val(x: bv32, n: nat): (v: nat)
    ensures v < Power2(n)
    decreases n
  {
    if n == 0 then 0 else Digit(x) + 2 * Val(Tail(x), n - 1)
  }

  /** The number in the register. */
  function Num(x: bv32): (n: uint32) {
    Powers();
    Val(x, 32)
  }

  lemma {:induction false} Powers()
    ensures Power2(4) == 0x10 && Power2(8) == 0x100 && Power2(16) == 0x1_0000 && Power2(24) == 0x100_0000
    ensures Power2(31) == 0x8000_0000 && Power2(32) == 0x1_0000_0000
  {
    assert Power2(12) == 0x1000 && Power2(20) == 0x10_0000 && Power2(28) == 0x1000_0000;
  }

  function Drop(x: bv32, k: nat): bv32
    decreases k
  {
    if k == 0 then x else Drop(Tail(x), k - 1)
  }

  lemma {:induction false} ValSplit(x: bv32, k: nat, n: nat)
    ensures Val(x, k + n) == Val(x, k) + Power2(k) * Val(Drop(x, k), n)
    decreases k
  {
    hide Low, Tail;
    if k > 0 {
      ValSplit(Tail(x), k - 1, n);
      Distribute(Digit(x), Val(Tail(x), k - 1), Power2(k - 1), Val(Drop(x, k), n));
      assert Val(x, k + n) == Digit(x) + 2 * Val(Tail(x), k - 1 + n);
    } else {
      assert Drop(x, 0) == x && Power2(0) == 1;
    }
  }

  lemma {:induction false} Distribute(d: nat, a: nat, p: nat, v: nat)
    ensures d + 2 * (a + p * v) == d + 2 * a + 2 * p * v
  {
  }

  lemma {:induction false} ValZero(n: nat)
    ensures Val(0, n) == 0
    decreases n
  {
    ZeroRest();
    hide Low, Tail;
    if n > 0 {
      ValZero(n - 1);
    }
  }

  lemma {:induction false} ZeroRest()
    ensures Tail(0) == 0 && !Low(0)
  {
  }

  // ----- exclusive or -----------------------------------------------------------------------------

  function Xor32(x: bv32, y: bv32): bv32 {
    x ^ y
  }

  lemma {:induction false} XorDigits(x: bv32, y: bv32)
    ensures Tail(Xor32(x, y)) == Xor32(Tail(x), Tail(y)) && (Low(Xor32(x, y)) <==> Low(x) != Low(y))
  {
  }

  lemma {:induction false} ValStep(x: bv32, n: nat)
    ensures Val(x, n) == if n == 0 then 0 else Digit(x) + 2 * Val(Tail(x), n - 1)
  {
  }

  lemma {:induction false} XorNothing()
    ensures XorBits(0, 0, 0) == 0
  {
  }

  lemma {:induction false} XorJoined(a: nat, v: nat, b: nat, w: nat, n: nat)
    requires a < 2 && b < 2
    ensures XorBits(a + 2 * v, b + 2 * w, n + 1) == (if a == b then 0 else 1) + 2 * XorBits(v, w, n)
  {
    hide Odd, Half;
    Rejoin(a, v);
    Rejoin(b, w);
  }

  lemma {:induction false} ValXor(x: bv32, y: bv32, n: nat)
    ensures Val(Xor32(x, y), n) == XorBits(Val(x, n), Val(y, n), n)
    decreases n
  {
    XorDigits(x, y);
    hide Low, Tail, Xor32, Odd, Half, XorBits, Power2, Val;
    ValStep(x, n);
    ValStep(y, n);
    ValStep(Xor32(x, y), n);
    if n > 0 {
      ValXor(Tail(x), Tail(y), n - 1);
      XorJoined(Digit(x), Val(Tail(x), n - 1), Digit(y), Val(Tail(y), n - 1), n - 1);
    } else {
      XorNothing();
    }
  }

  // ----- shifts and masks ---------------------------------------------------------------------------

  function Byte1(x: bv32): bv32 {
    x >> 8
  }

  lemma {:induction false} EightRests(x: bv32)
    ensures Tail(Tail(Tail(Tail(Tail(Tail(Tail(Tail(x)))))))) == Byte1(x)
  {
  }

  lemma {:induction false} Drop8(x: bv32, k: nat)
    ensures Drop(x, k + 8) == Drop(Byte1(x), k)
  {
    EightRests(x);
    hide Tail, Byte1;
    var a := Tail(Tail(Tail(Tail(x))));
    assert Drop(x, k + 8) == Drop(Tail(x), k + 7) == Drop(Tail(Tail(x)), k + 6) == Drop(Tail(Tail(Tail(x))), k + 5);
    assert Drop(x, k + 8) == Drop(a, k + 4);
    assert Drop(a, k + 4) == Drop(Tail(a), k + 3) == Drop(Tail(Tail(a)), k + 2) == Drop(Tail(Tail(Tail(a))), k + 1);
  }

  lemma {:induction false} NothingLeft(x: bv32)
    ensures Byte1(Byte1(Byte1(Byte1(x)))) == 0
  {
  }

  /** A register has no more than 32 bits. */
  lemma {:induction false} DropAll(x: bv32)
    ensures Drop(x, 32) == 0
  {
    hide Byte1, Tail;
    Drop8(x, 24);
    Drop8(Byte1(x), 16);
    Drop8(Byte1(Byte1(x)), 8);
    Drop8(Byte1(Byte1(Byte1(x))), 0);
    NothingLeft(x);
  }

  /** Where nothing is left there is nothing more to count. */
  lemma {:induction false} ValEnds(x: bv32, k: nat, n: nat)
    requires Drop(x, k) == 0
    ensures Val(x, k + n) == Val(x, k)
  {
    hide Low, Tail, Val, Drop;
    ValSplit(x, k, n);
    ValZero(n);
  }

  lemma {:induction false} ValHalf(x: bv32, n: nat)
    requires Drop(x, n + 1) == 0
    ensures Val(Tail(x), n + 1) == Val(x, n + 1) / 2 && (Low(x) <==> Val(x, n + 1) % 2 == 1)
  {
    hide Low, Tail, Power2;
    ValEnds(Tail(x), n, 1);
    Rejoin(Digit(x), Val(Tail(x), n));
  }

  lemma {:induction false} NumHalf(x: bv32)
    ensures Num(Tail(x)) == Num(x) / 2 && (Low(x) <==> Num(x) % 2 == 1)
  {
    hide Low, Tail, Val, Drop, Power2;
    DropAll(x);
    ValHalf(x, 31);
  }

  lemma {:induction false} DropNothing(x: bv32)
    ensures Drop(x, 0) == x
  {
  }

  lemma {:induction false} NumByte1(x: bv32)
    ensures Num(Byte1(x)) == Num(x) / 0x100 && Val(x, 8) == Num(x) % 0x100
  {
    hide Low, Tail, Byte1, Val, Drop, Power2;
    Powers();
    DropAll(x);
    Drop8(x, 24);
    Drop8(x, 0);
    DropNothing(Byte1(x));
    ValSplit(x, 8, 24);
    ValEnds(Byte1(x), 24, 8);
  }

  /** The mask has ones in its lowest `n` bits. */
  predicate Ones(m: bv32, n: nat)
    decreases n
  {
    n == 0 || (Low(m) && Ones(Tail(m), n - 1))
  }

  function And(x: bv32, m: bv32): bv32 {
    x & m
  }

  lemma {:induction false} AndDigits(x: bv32, m: bv32)
    ensures Tail(And(x, m)) == And(Tail(x), Tail(m)) && (Low(And(x, m)) <==> Low(x) && Low(m))
  {
  }

  lemma {:induction false} ValAnd(x: bv32, m: bv32, n: nat)
    requires Ones(m, n)
    ensures Val(And(x, m), n) == Val(x, n)
    decreases n
  {
    AndDigits(x, m);
    hide Low, Tail, And;
    if n > 0 {
      ValAnd(Tail(x), Tail(m), n - 1);
    }
  }

  lemma {:induction false} FourBits(x: bv32)
    requires x & 0xF == 0xF
    ensures Low(x) && Low(Tail(x)) && Low(Tail(Tail(x))) && Low(Tail(Tail(Tail(x))))
    ensures Tail(Tail(Tail(Tail(x)))) == x >> 4
  {
  }

  lemma {:induction false} FourOnes(m: bv32, n: nat)
    requires m & 0xF == 0xF && Ones(m >> 4, n)
    ensures Ones(m, n + 4)
  {
    FourBits(m);
    hide Low, Tail;
    assert Ones(Tail(Tail(Tail(m))), n + 1);
    assert Ones(Tail(Tail(m)), n + 2);
    assert Ones(Tail(m), n + 3);
  }

  lemma {:induction false} ByteMask()
    ensures Ones(0xFF, 8) && Ones(0xFFFF, 16)
  {
    FourOnes(0xF, 0);
    FourOnes(0xFF, 4);
    FourOnes(0xFFF, 8);
    FourOnes(0xFFFF, 12);
  }

  // ----- single bits --------------------------------------------------------------------------------

  function WithTwo(x: bv32): bv32 {
    x | 2
  }

  lemma {:induction false} WithTwoDigits(x: bv32)
    ensures (Low(WithTwo(x)) <==> Low(x)) && Tail(WithTwo(x)) == WithOne(Tail(x))
  {
  }

  function WithOne(x: bv32): bv32 {
    x | 1
  }

  lemma {:induction false} WithOneDigits(x: bv32)
    ensures Low(WithOne(x)) && Tail(WithOne(x)) == Tail(x)
  {
  }

  lemma {:induction false} TwoDigits(x: bv32, n: nat)
    ensures Val(x, n + 2) == Digit(x) + 2 * Digit(Tail(x)) + 4 * Val(Tail(Tail(x)), n)
  {
    hide Low, Tail, Digit, Power2;
    assert Val(x, n + 2) == Digit(x) + 2 * Val(Tail(x), n + 1);
  }

  lemma {:induction false} ValWithTwo(x: bv32, n: nat)
    ensures Val(WithTwo(x), n + 2) == Val(x, n + 2) + if Low(Tail(x)) then 0 else 2
  {
    WithTwoDigits(x);
    WithOneDigits(Tail(x));
    hide Low, Tail, WithTwo, WithOne, Val;
    TwoDigits(x, n);
    TwoDigits(WithTwo(x), n);
  }

  lemma {:induction false} OneDigits(x: bv32)
    ensures (Low(Xor32(x, 1)) <==> !Low(x)) && Tail(Xor32(x, 1)) == Tail(x)
  {
  }

  lemma {:induction false} ValFlipped(x: bv32, n: nat)
    ensures Val(Xor32(x, 1), n + 1) == if Low(x) then Val(x, n + 1) - 1 else Val(x, n + 1) + 1
  {
    OneDigits(x);
    hide Low, Tail, Xor32;
  }

  lemma {:induction false} NumFlipped(x: bv32)
    ensures Num(Xor32(x, 1)) == if Low(x) then Num(x) - 1 else Num(x) + 1
  {
    hide Val, Low, Xor32;
    ValFlipped(x, 31);
  }

  lemma {:induction false} UpperNothing(x: bv32)
    ensures Byte1(Byte1(And(x, 0xFFFF))) == 0 && Byte1(And(x, 0xFF)) == 0
  {
  }

  /** The low byte and the low half of a register. */
  lemma {:induction false} NumLowByte(x: bv32)
    ensures Num(And(x, 0xFF)) == Num(x) % 0x100
  {
    UpperNothing(x);
    hide Byte1, And, Val, Drop, Ones, Power2, Low;
    ByteMask();
    ValAnd(x, 0xFF, 8);
    NumByte1(x);
    Drop8(And(x, 0xFF), 0);
    DropNothing(0);
    ValEnds(And(x, 0xFF), 8, 24);
  }

  lemma {:induction false} NumLowHalf(x: bv32)
    ensures Num(And(x, 0xFFFF)) == Val(x, 16) == Num(x) % 0x1_0000
  {
    UpperNothing(x);
    hide Byte1, And, Val, Drop, Ones, Power2, Low;
    ByteMask();
    Powers();
    ValAnd(x, 0xFFFF, 16);
    ValSplit(x, 16, 16);
    Drop8(And(x, 0xFFFF), 8);
    Drop8(Byte1(And(x, 0xFFFF)), 0);
    DropNothing(0);
    ValEnds(And(x, 0xFFFF), 16, 16);
  }

  // ----- registers that are written out ---------------------------------------------------------------

  function ByteVal(x: bv32): nat {
    Digit(x) + 2 * Digit(x >> 1) + 4 * Digit(x >> 2) + 8 * Digit(x >> 3) + 16 * Digit(x >> 4) + 32 * Digit(x >> 5)
    + 64 * Digit(x >> 6) + 128 * Digit(x >> 7)
  }

  lemma {:induction false} SevenRests(x: bv32)
    ensures Tail(x) == x >> 1 && Tail(Tail(x)) == x >> 2 && Tail(Tail(Tail(x))) == x >> 3
    ensures Tail(Tail(Tail(Tail(x)))) == x >> 4 && Tail(Tail(Tail(Tail(Tail(x))))) == x >> 5
    ensures Tail(Tail(Tail(Tail(Tail(Tail(x)))))) == x >> 6 && Tail(Tail(Tail(Tail(Tail(Tail(Tail(x))))))) == x >> 7
  {
  }

  lemma {:induction false} ByteValIs(x: bv32)
    ensures Val(x, 8) == ByteVal(x)
  {
    SevenRests(x);
    hide Low, Tail, Digit, Power2;
    FourDigits(x, 4);
    FourDigits(Tail(Tail(Tail(Tail(x)))), 0);
  }

  lemma {:induction false} FourDigits(x: bv32, n: nat)
    ensures Val(x, n + 4) ==
      Digit(x) + 2 * Digit(Tail(x)) + 4 * Digit(Tail(Tail(x))) + 8 * Digit(Tail(Tail(Tail(x))))
      + 16 * Val(Tail(Tail(Tail(Tail(x)))), n)
  {
    hide Low, Tail, Digit, Power2;
    assert Val(x, n + 4) == Digit(x) + 2 * Val(Tail(x), n + 3);
    assert Val(Tail(x), n + 3) == Digit(Tail(x)) + 2 * Val(Tail(Tail(x)), n + 2);
    assert Val(Tail(Tail(x)), n + 2) == Digit(Tail(Tail(x))) + 2 * Val(Tail(Tail(Tail(x))), n + 1);
  }

  lemma {:induction false} NumBytes(x: bv32)
    ensures Num(x) ==
      ByteVal(x) + 0x100 * ByteVal(x >> 8) + 0x1_0000 * ByteVal(x >> 16) + 0x100_0000 * ByteVal(x >> 24)
  {
    ThreeBytes(x);
    hide Byte1, Val, Num, ByteVal;
    NumByte1(x);
    NumByte1(Byte1(x));
    NumByte1(Byte1(Byte1(x)));
    NumByte1(Byte1(Byte1(Byte1(x))));
    NumZero();
    ByteValIs(x);
    ByteValIs(Byte1(x));
    ByteValIs(Byte1(Byte1(x)));
    ByteValIs(Byte1(Byte1(Byte1(x))));
  }

  lemma {:induction false} NumZero()
    ensures Num(0) == 0
  {
    ValZero(32);
  }

  lemma {:induction false} ThreeBytes(x: bv32)
    ensures Byte1(x) == x >> 8 && Byte1(Byte1(x)) == x >> 16 && Byte1(Byte1(Byte1(x))) == x >> 24
    ensures Byte1(Byte1(Byte1(Byte1(x)))) == 0
  {
  }

  // ----- from numbers to registers ------------------------------------------------------------------

  /** The register whose lowest `k` bits are those of `n`. */
  function Bits(n: nat, k: nat): bv32
    decreases k
  {
    if k == 0 then 0 else Append(Bits(n / 2, k - 1), n % 2 == 1)
  }

  function Append(x: bv32, one: bool): bv32 {
    (x << 1) | if one then 1 else 0
  }

  /** The register has no more than `k` bits. */
  predicate Fits(x: bv32, k: nat) {
    if k == 0 then x == 0 else if k == 1 then x < 2 else if k == 2 then x < 4 else if k == 3 then x < 8
    else if k == 4 then x < 0x10 else if k == 5 then x < 0x20 else if k == 6 then x < 0x40
    else if k == 7 then x < 0x80 else x < 0x100
  }

  lemma {:induction false} Appended(x: bv32, one: bool, k: nat)
    requires Fits(x, k) && k < 8
    ensures Fits(Append(x, one), k + 1) && Tail(Append(x, one)) == x && (Low(Append(x, one)) <==> one)
  {
  }

  lemma {:induction false} NoBits()
    ensures Fits(0, 0)
  {
  }

  lemma {:induction false} BitsRead(n: nat, k: nat)
    requires n < Power2(k) && k <= 8
    ensures Fits(Bits(n, k), k) && Val(Bits(n, k), k) == n && Drop(Bits(n, k), k) == 0
    decreases k
  {
    hide Append, Low, Tail, Fits;
    NoBits();
    if k > 0 {
      BitsRead(n / 2, k - 1);
      Appended(Bits(n / 2, k - 1), n % 2 == 1, k - 1);
    }
  }

  /** A byte as the program widens it to a register. */
  function Wide(b: byte): bv32 {
    Bits(b as nat, 8)
  }

  lemma {:induction false} WideIs(b: byte)
    ensures Num(Wide(b)) == b as nat && Wide(b) < 0x100
  {
    hide Val, Bits, Drop, Power2;
    Powers();
    BitsRead(b as nat, 8);
    ValEnds(Wide(b), 8, 24);
  }
}
