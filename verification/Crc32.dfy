/**
 CRC-32: the byte-at-a-time update of core/src/crypto.rs, which sends only the low byte of the register
 through the polynomial, against the division of section 4.4.7 of the APPNOTE, written over numbers.
 */
module Crc32 {
  import opened Bytes
  import opened Registers

  function LowByte(a: bv32): bv32 {
    a & 0xFF
  }

  /** One step of the reflected register. */
  function Step(c: bv32): bv32 {
    if Low(c) then Xor32(Tail(c), 0xEDB8_8320) else Tail(c)
  }

  function Steps(c: bv32, n: nat): bv32
    decreases n
  {
    if n == 0 then c else Steps(Step(c), n - 1)
  }

  /** The update of the whole register: the byte is added to it, and it takes eight steps. */
  function Whole(crc: bv32, b: byte): bv32 {
    Steps(Xor32(crc, Wide(b)), 8)
  }

  /** The update on the low byte alone. */
  function Update(crc: bv32, b: byte): bv32 {
    Xor32(Byte1(crc), Steps(LowByte(Xor32(crc, Wide(b))), 8))
  }

  /** `crc32_byte`. */
  method Crc32Byte(crc: bv32, b: byte) returns (r: bv32)
    ensures r == Update(crc, b)
  {
    hide Xor32, Tail, Low, Byte1, LowByte;
    var c := LowByte(Xor32(crc, Wide(b)));
    ghost var start := c;
    for i := 0 to 8
      invariant Steps(start, 8) == Steps(c, 8 - i)
    {
      c := if Low(c) then Xor32(Tail(c), 0xEDB8_8320) else Tail(c);
    }
    r := Xor32(Byte1(crc), c);
  }

  // ----- the two updates agree ----------------------------------------------------------------

  /** A step is linear. */
  lemma {:induction false} StepLinear(a: bv32, b: bv32)
    ensures Step(Xor32(a, b)) == Xor32(Step(a), Step(b))
  {
    hide Xor32, Tail, Low;
    XorDigits(a, b);
    XorMoves(Tail(a), Tail(b), 0xEDB8_8320);
  }

  lemma {:induction false} XorMoves(a: bv32, b: bv32, p: bv32)
    ensures Xor32(Xor32(a, p), Xor32(b, p)) == Xor32(a, b)
    ensures Xor32(Xor32(a, b), p) == Xor32(a, Xor32(b, p)) && Xor32(Xor32(a, p), b) == Xor32(Xor32(a, b), p)
  {
    hide Xor32;
    XorAssoc(a, b, p);
    XorAssoc(a, p, b);
    XorAssoc(Xor32(a, p), p, b);
    XorComm(b, p);
    XorTwice(a, p);
  }

  lemma {:induction false} XorAssoc(a: bv32, b: bv32, c: bv32)
    ensures Xor32(Xor32(a, b), c) == Xor32(a, Xor32(b, c))
  {
  }

  lemma {:induction false} XorComm(a: bv32, b: bv32)
    ensures Xor32(a, b) == Xor32(b, a)
  {
  }

  lemma {:induction false} StepsLinear(a: bv32, b: bv32, n: nat)
    ensures Steps(Xor32(a, b), n) == Xor32(Steps(a, n), Steps(b, n))
    decreases n
  {
    hide Step, Xor32;
    if n > 0 {
      StepLinear(a, b);
      StepsLinear(Step(a), Step(b), n - 1);
    }
  }

  /** Where the low byte is clear, eight steps only shift. */
  lemma {:induction false} StepsShift(a: bv32)
    requires a & 0xFF == 0
    ensures Steps(a, 8) == Byte1(a)
  {
    var b, c, d := Tail(a), Tail(Tail(a)), Tail(Tail(Tail(a)));
    var e, f, g := Tail(d), Tail(Tail(d)), Tail(Tail(Tail(d)));
    var h := Tail(g);
    assert Step(a) == b && Step(b) == c && Step(c) == d && Step(d) == e && Step(e) == f && Step(f) == g && Step(g) == h
      && Step(h) == Tail(h) by { ShiftChain(a); }
    assert Tail(h) == Byte1(a) by { ShiftChain(a); }
    EightSteps(a, b, c, d, e, f, g, h);
  }

  lemma {:induction false} ShiftChain(a: bv32)
    requires a & 0xFF == 0
    ensures
      var d := Tail(Tail(Tail(a)));
      var g := Tail(Tail(Tail(d)));
      && Step(a) == Tail(a) && Step(Tail(a)) == Tail(Tail(a)) && Step(Tail(Tail(a))) == d
      && Step(d) == Tail(d) && Step(Tail(d)) == Tail(Tail(d)) && Step(Tail(Tail(d))) == g
      && Step(g) == Tail(g) && Step(Tail(g)) == Tail(Tail(g)) && Tail(Tail(g)) == Byte1(a)
  {
  }

  lemma {:induction false} EightSteps(a: bv32, b: bv32, c: bv32, d: bv32, e: bv32, f: bv32, g: bv32, h: bv32)
    requires Step(a) == b && Step(b) == c && Step(c) == d && Step(d) == e && Step(e) == f
    requires Step(f) == g && Step(g) == h
    ensures Steps(a, 8) == Step(h)
  {
    hide Step;
    assert Steps(h, 1) == Step(h);
    assert Steps(f, 3) == Steps(h, 1);
    assert Steps(d, 5) == Steps(f, 3);
    assert Steps(b, 7) == Steps(d, 5);
  }

  lemma {:induction false} SplitRegister(x: bv32)
    ensures x == Xor32(x & 0xFFFF_FF00, LowByte(x)) && (x & 0xFFFF_FF00) & 0xFF == 0
    ensures Byte1(x & 0xFFFF_FF00) == Byte1(x)
  {
  }

  lemma {:induction false} HighBytesKept(crc: bv32, b: byte)
    ensures Byte1(Xor32(crc, Wide(b))) == Byte1(crc)
  {
  }

  /** Sending only the low byte through the polynomial gives the same register as sending all of it. */
  lemma {:induction false} UpdateIsWhole(crc: bv32, b: byte)
    ensures Update(crc, b) == Whole(crc, b)
  {
    hide Step, Steps, Xor32, Byte1, LowByte;
    var x := Xor32(crc, Wide(b));
    var high := x & 0xFFFF_FF00;
    SplitRegister(x);
    HighBytesKept(crc, b);
    StepsLinear(high, LowByte(x), 8);
    StepsShift(high);
  }

  // ----- and can be undone --------------------------------------------------------------------

  predicate Top(c: bv32) {
    c & 0x8000_0000 != 0
  }

  function Double(c: bv32): bv32 {
    c << 1
  }

  function DoubleOne(c: bv32): bv32 {
    (c << 1) | 1
  }

  /** The step backwards: the top bit tells whether the polynomial was added. */
  function UnStep(c: bv32): bv32 {
    if Top(c) then DoubleOne(Xor32(c, 0xEDB8_8320)) else Double(c)
  }

  function UnSteps(c: bv32, n: nat): bv32
    decreases n
  {
    if n == 0 then c else UnStep(UnSteps(c, n - 1))
  }

  lemma {:induction false} UnStepStep(c: bv32)
    ensures UnStep(Step(c)) == c && Step(UnStep(c)) == c
  {
    hide Xor32, Tail, Low, Top, Double, DoubleOne;
    Halved(c);
    Doubled(c);
    XorTwice(Tail(c), 0xEDB8_8320);
    XorTwice(c, 0xEDB8_8320);
  }

  lemma {:induction false} Halved(c: bv32)
    ensures !Top(Tail(c)) && Top(Xor32(Tail(c), 0xEDB8_8320))
    ensures if Low(c) then DoubleOne(Tail(c)) == c else Double(Tail(c)) == c
  {
  }

  lemma {:induction false} Doubled(c: bv32)
    ensures if Top(c) then Tail(DoubleOne(Xor32(c, 0xEDB8_8320))) == Xor32(c, 0xEDB8_8320) else Tail(Double(c)) == c
    ensures !Low(Double(c)) && Low(DoubleOne(Xor32(c, 0xEDB8_8320)))
  {
  }

  lemma {:induction false} UnStepsSteps(c: bv32, n: nat)
    ensures UnSteps(Steps(c, n), n) == c && Steps(UnSteps(c, n), n) == c
    decreases n
  {
    hide Step, UnStep;
    if n > 0 {
      UnStepStep(c);
      UnStepsSteps(Step(c), n - 1);
      UnStepStep(UnSteps(c, n - 1));
      UnStepsSteps(c, n - 1);
    }
  }

  /** The register before a byte was added. */
  function Undo(crc: bv32, b: byte): bv32 {
    Xor32(UnSteps(crc, 8), Wide(b))
  }

  lemma {:induction false} XorTwice(x: bv32, y: bv32)
    ensures Xor32(Xor32(x, y), y) == x
  {
  }

  /** For each byte the update is a bijection of the register. */
  lemma {:induction false} UpdateBijective(crc: bv32, b: byte)
    ensures Undo(Update(crc, b), b) == crc && Update(Undo(crc, b), b) == crc
  {
    hide Step, Steps, UnStep, UnSteps, Update, Xor32;
    UpdateIsWhole(crc, b);
    UpdateIsWhole(Undo(crc, b), b);
    UnStepsSteps(Xor32(crc, Wide(b)), 8);
    UnStepsSteps(crc, 8);
    XorTwice(crc, Wide(b));
    XorTwice(UnSteps(crc, 8), Wide(b));
  }

  // ----- the checksum -------------------------------------------------------------------------

  function Feed(crc: bv32, data: seq<byte>): bv32
    decreases |data|
  {
    if data == [] then crc else Feed(FeedByte(crc, data[0]), data[1..])
  }

  function FeedByte(crc: bv32, b: byte): bv32 {
    Update(crc, b)
  }

  /** A checksum can be fed in pieces. */
  lemma {:induction false} FeedConcat(crc: bv32, a: seq<byte>, b: seq<byte>)
    ensures Feed(crc, a + b) == Feed(Feed(crc, a), b)
    decreases |a|
  {
    hide FeedByte;
    if a == [] {
      assert a + b == b;
    } else {
      assert (a + b)[1..] == a[1..] + b;
      FeedConcat(FeedByte(crc, a[0]), a[1..], b);
    }
  }

  const START: bv32 := 0xFFFF_FFFF

  /** The checksum a register stands for. */
  function Finish(crc: bv32): bv32 {
    Xor32(crc, 0xFFFF_FFFF)
  }

  function Checksum(data: seq<byte>): bv32 {
    Finish(Feed(START, data))
  }

  // ----- over numbers ---------------------------------------------------------------------------

  /** One step of the division by the reflected polynomial. */
  function DivideBit(n: nat): nat {
    if n % 2 == 1 then XorBits(n / 2, 0xEDB8_8320, 32) else n / 2
  }

  function DivideBits(n: nat, steps: nat): nat
    decreases steps
  {
    if steps == 0 then n else DivideBits(DivideBit(n), steps - 1)
  }

  /** The remainder after one byte more. */
  function Reference(n: nat, b: byte): nat {
    DivideBits(XorBits(n, b as nat, 32), 8)
  }

  function References(n: nat, data: seq<byte>): nat
    decreases |data|
  {
    if data == [] then n else References(Reference(n, data[0]), data[1..])
  }

  /** The checksum of section 4.4.7: from all ones, and its complement in the end. */
  function ReferenceSum(data: seq<byte>): int {
    0xFFFF_FFFF - References(0xFFFF_FFFF, data)
  }

  lemma {:induction false} NumXor(x: bv32, y: bv32)
    ensures Num(Xor32(x, y)) == XorBits(Num(x), Num(y), 32)
  {
    hide Val, XorBits, Xor32;
    ValXor(x, y, 32);
  }

  lemma {:induction false} StepIs(c: bv32)
    ensures Num(Step(c)) == DivideBit(Num(c))
  {
    hide Num, Xor32, Low, Tail, XorBits;
    NumHalf(c);
    NumXor(Tail(c), 0xEDB8_8320);
    Polynomial();
  }

  lemma {:induction false} Polynomial()
    ensures Num(0xEDB8_8320) == 0xEDB8_8320
  {
    hide Num;
    NumBytes(0xEDB8_8320);
  }

  lemma {:induction false} AllOnes()
    ensures Num(0xFFFF_FFFF) == 0xFFFF_FFFF
  {
    hide Num;
    NumBytes(0xFFFF_FFFF);
  }

  lemma {:induction false} StepsAre(c: bv32, n: nat)
    ensures Num(Steps(c, n)) == DivideBits(Num(c), n)
    decreases n
  {
    hide Num, Step, DivideBit;
    if n > 0 {
      StepIs(c);
      StepsAre(Step(c), n - 1);
    }
  }

  /** The update of the program is the division, on the numbers its register holds. */
  lemma {:induction false} UpdateIsReference(crc: bv32, b: byte)
    ensures Num(Update(crc, b)) == Reference(Num(crc), b)
  {
    hide Num, Xor32, XorBits, Steps, DivideBits, Update, Wide;
    UpdateIsWhole(crc, b);
    StepsAre(Xor32(crc, Wide(b)), 8);
    NumXor(crc, Wide(b));
    WideIs(b);
  }

  lemma {:induction false} FeedIsReferences(crc: bv32, data: seq<byte>)
    ensures Num(Feed(crc, data)) == References(Num(crc), data)
    decreases |data|
  {
    hide Num, Update, Reference;
    if data != [] {
      UpdateIsReference(crc, data[0]);
      FeedIsReferences(Update(crc, data[0]), data[1..]);
    }
  }

  lemma {:induction false} XorOnes(a: nat, k: nat)
    requires a < Power2(k)
    ensures XorBits(a, Power2(k) - 1, k) == Power2(k) - 1 - a
    decreases k
  {
    if k > 0 {
      Halves(a);
      Rejoin(1, Power2(k - 1) - 1);
      XorOnes(Half(a), k - 1);
    }
  }

  /** The checksum is that of the APPNOTE. */
  lemma {:induction false} ChecksumIsReference(data: seq<byte>)
    ensures Num(Checksum(data)) == ReferenceSum(data)
  {
    hide Num, Xor32, XorBits, Feed, References;
    FeedIsReferences(START, data);
    AllOnes();
    NumXor(Feed(START, data), 0xFFFF_FFFF);
    Powers();
    XorOnes(Num(Feed(START, data)), 32);
  }

  lemma {:induction false} FeedOne(crc: bv32, b: byte, data: seq<byte>)
    ensures Feed(crc, [b] + data) == Feed(Update(crc, b), data)
  {
    assert ([b] + data)[1..] == data;
  }

  /** The checksum of the one byte 0x61. */
  lemma {:induction false} CheckValue()
    ensures ReferenceSum([0x61]) == 0xE8B7_BE43
  {
    LetterUpdate();
    hide Num, Update, Feed, References;
    ChecksumIsReference([0x61]);
    LetterFed();
    assert Checksum([0x61]) == 0xE8B7_BE43;
    NumBytes(0xE8B7_BE43);
  }

  lemma {:induction false} LetterFed()
    ensures Feed(START, [0x61]) == Update(START, 0x61)
  {
    hide Update;
    FeedOne(START, 0x61, []);
    assert [0x61 as byte] + [] == [0x61];
  }

  lemma {:induction false} LetterUpdate()
    ensures Update(START, 0x61) == 0x1748_41BC
  {
    LetterWide();
    hide Steps, Wide;
    EightSteps(0x0000_009E, 0x0000_004F, 0xEDB8_8307, 0x9B64_C2A3, 0xA00A_E271, 0xBDBD_F218, 0x5EDE_F90C, 0x2F6F_7C86);
  }

  lemma {:induction false} LetterWide()
    ensures Wide(0x61) == 0x61
  {
    assert Bits(3, 3) == 3;
    assert Bits(0xC, 5) == 0xC;
  }
}
