/** Bytes, fixed-width little-endian integers, and the bounds-checked cursor of core/src/bytes.rs. */
module Bytes {
  import opened Wrappers

  newtype byte = x: int | 0 <= x < 256

  type uint16 = x: int | 0 <= x < 0x1_0000
  type uint32 = x: int | 0 <= x < 0x1_0000_0000
  type uint64 = x: int | 0 <= x < 0x1_0000_0000_0000_0000

  /** Number of values of a `width`-byte integer. */
  function Range(width: nat): (r: nat)
    ensures r > 0
  {
    if width == 0 then 1 else 256 * Range(width - 1)
  }

  lemma {:induction false} Ranges()
    ensures Range(1) == 0x100
    ensures Range(2) == 0x1_0000
    ensures Range(4) == 0x1_0000_0000
    ensures Range(8) == 0x1_0000_0000_0000_0000
  {
    assert Range(3) == 0x100_0000;
    assert Range(5) == 0x100_0000_0000;
    assert Range(6) == 0x1_0000_0000_0000;
    assert Range(7) == 0x100_0000_0000_0000;
  }

  /** `n` as `width` little-endian bytes. */
  function Le(n: nat, width: nat): (s: seq<byte>)
    ensures |s| == width
  {
    if width == 0 then [] else [(n % 256) as byte] + Le(n / 256, width - 1)
  }

  /** The integer a little-endian byte string denotes. */
  function FromLe(s: seq<byte>): (n: nat)
    ensures n < Range(|s|)
  {
    if s == [] then 0 else s[0] as int + 256 * FromLe(s[1..])
  }

  lemma {:induction false} LeRoundTrip(n: nat, width: nat)
    requires n < Range(width)
    ensures FromLe(Le(n, width)) == n
  {
    if width > 0 {
      LeRoundTrip(n / 256, width - 1);
      assert Le(n, width)[1..] == Le(n / 256, width - 1);
    }
  }

  lemma {:induction false} FromLeRoundTrip(s: seq<byte>)
    ensures Le(FromLe(s), |s|) == s
  {
    if s != [] {
      FromLeRoundTrip(s[1..]);
      var rest := FromLe(s[1..]);
      DivModPair(s[0] as int, rest);
      assert Le(FromLe(s), |s|) == [s[0]] + Le(rest, |s| - 1);
    }
  }

  lemma {:induction false} DivModPair(low: nat, high: nat)
    requires low < 256
    ensures (low + 256 * high) % 256 == low && (low + 256 * high) / 256 == high
  {
  }

  /** 64-bit addition, which wraps. */
  function WrappingAdd(a: uint64, b: uint64): uint64 {
    if a + b < 0x1_0000_0000_0000_0000 then a + b else a + b - 0x1_0000_0000_0000_0000
  }

  /** The bytes of `data` in a buffer of `room` bytes at `offset`. */
  function Window(data: seq<byte>, offset: nat, room: nat): (r: seq<byte>)
    ensures |r| <= room
  {
    if offset >= |data| then []
    else if |data| - offset <= room then data[offset..] else data[offset..offset + room]
  }

  function SaturatingSub(a: nat, b: nat): nat {
    if a >= b then a - b else 0
  }

  /** Whether a flag word has the bit of value `mask` (a power of two) set. */
  predicate Bit(word: nat, mask: nat)
    requires mask > 0
  {
    (word / mask) % 2 == 1
  }

  /** Exclusive or of two bytes, bit by bit. */
  function Xor(a: byte, b: byte): byte {
    assert Power2(8) == 256;
    XorBits(a as nat, b as nat, 8) as byte
  }

  function XorBits(a: nat, b: nat, bits: nat): (r: nat)
    ensures r < Power2(bits)
  {
    if bits == 0 then 0 else (if Odd(a) == Odd(b) then 0 else 1) + 2 * XorBits(Half(a), Half(b), bits - 1)
  }

  function Odd(n: nat): nat {
    n % 2
  }

  function Half(n: nat): nat {
    n / 2
  }

  function Power2(n: nat): nat {
    if n == 0 then 1 else 2 * Power2(n - 1)
  }

  lemma {:induction false} XorBitsTwice(a: nat, b: nat, bits: nat)
    requires a < Power2(bits)
    ensures XorBits(XorBits(a, b, bits), b, bits) == a
  {
    hide Odd, Half;
    if bits > 0 {
      Halves(a);
      Halves(b);
      XorBitsTwice(Half(a), Half(b), bits - 1);
      Rejoin(if Odd(a) == Odd(b) then 0 else 1, XorBits(Half(a), Half(b), bits - 1));
    }
  }

  lemma {:induction false} Halves(n: nat)
    ensures n == Odd(n) + 2 * Half(n) && Odd(n) < 2
  {
  }

  lemma {:induction false} Rejoin(low: nat, high: nat)
    requires low < 2
    ensures Odd(low + 2 * high) == low && Half(low + 2 * high) == high
  {
  }

  lemma {:induction false} XorTwice(a: byte, b: byte)
    ensures Xor(Xor(a, b), b) == a
  {
    assert Power2(8) == 256;
    XorBitsTwice(a as nat, b as nat, 8);
  }

  /** The `width`-byte integer at offset `at`. */
  function FieldAt(s: seq<byte>, at: nat, width: nat): (n: nat)
    requires at + width <= |s|
    ensures n < Range(width)
  {
    FromLe(s[at..at + width])
  }

  function U16At(s: seq<byte>, at: nat): uint16
    requires at + 2 <= |s|
  {
    Ranges(); FieldAt(s, at, 2)
  }

  function U32At(s: seq<byte>, at: nat): uint32
    requires at + 4 <= |s|
  {
    Ranges(); FieldAt(s, at, 4)
  }

  function U64At(s: seq<byte>, at: nat): uint64
    requires at + 8 <= |s|
  {
    Ranges(); FieldAt(s, at, 8)
  }

  lemma {:induction false} SubSlice<T>(s: seq<T>, lo: nat, hi: nat, from: nat, to: nat)
    requires lo <= hi <= |s| && from <= to <= hi - lo
    ensures s[lo..hi][from..to] == s[lo + from..lo + to]
  {
    var part := s[lo..hi];
    assert forall k :: 0 <= k < |part| ==> part[k] == s[lo + k];
    assert |part[from..to]| == to - from;
    assert part[from..to] == s[lo + from..lo + to];
  }

  lemma {:induction false} FieldShift(s: seq<byte>, lo: nat, hi: nat, at: nat, width: nat)
    requires lo + at + width <= hi <= |s|
    ensures FieldAt(s[lo..hi], at, width) == FieldAt(s, lo + at, width)
  {
    SubSlice(s, lo, hi, at, at + width);
  }

  /** Whether the bytes `x` stand in `s` at offset `at`. */
  predicate HasAt(s: seq<byte>, at: nat, x: seq<byte>) {
    at + |x| <= |s| && s[at..at + |x|] == x
  }

  lemma {:induction false} HasAtConcat(s: seq<byte>, at: nat, a: seq<byte>, b: seq<byte>)
    ensures HasAt(s, at, a + b) <==> HasAt(s, at, a) && HasAt(s, at + |a|, b)
  {
    if at + |a| + |b| <= |s| {
      var whole := s[at..at + |a + b|];
      assert whole[..|a|] == s[at..at + |a|];
      assert whole[|a|..] == s[at + |a|..at + |a| + |b|];
      assert whole == whole[..|a|] + whole[|a|..];
      assert (a + b)[..|a|] == a && (a + b)[|a|..] == b;
    }
  }

  /** Reading back a printed integer. */
  lemma {:induction false} ReadBack(s: seq<byte>, at: nat, n: nat, width: nat)
    requires HasAt(s, at, Le(n, width)) && n < Range(width)
    ensures at + width <= |s| && FieldAt(s, at, width) == n
  {
    LeRoundTrip(n, width);
  }

  /** Everything a printed record `x` says at once: each of its concatenated parts stands in its place. */
  lemma {:induction false} PartsInPlace(s: seq<byte>)
    ensures forall at: nat, a: seq<byte>, b: seq<byte> {:trigger HasAt(s, at, a + b)} ::
      HasAt(s, at, a + b) ==> HasAt(s, at, a) && HasAt(s, at + |a|, b)
  {
    forall at: nat, a: seq<byte>, b: seq<byte> | HasAt(s, at, a + b)
      ensures HasAt(s, at, a) && HasAt(s, at + |a|, b)
    {
      HasAtConcat(s, at, a, b);
    }
  }

  /** Every printed integer reads back. */
  lemma {:induction false} FieldsReadBack(s: seq<byte>)
    ensures forall at: nat, n: nat, width: nat {:trigger HasAt(s, at, Le(n, width))} ::
      HasAt(s, at, Le(n, width)) && n < Range(width) ==> at + width <= |s| && FieldAt(s, at, width) == n
  {
    forall at: nat, n: nat, width: nat | HasAt(s, at, Le(n, width)) && n < Range(width)
      ensures at + width <= |s| && FieldAt(s, at, width) == n
    {
      ReadBack(s, at, n, width);
    }
  }

  /** A forward cursor over a byte string; a failed read leaves it where it was. */
  class Reader {
    const data: seq<byte>
    var pos: nat

    ghost predicate Valid()
      reads this
    {
      pos <= |data|
    }

    constructor (data: seq<byte>)
      ensures Valid() && this.data == data && pos == 0
    {
      this.data := data;
      pos := 0;
    }

    function Remaining(): (n: nat)
      requires Valid()
      reads this
      ensures pos + n == |data|
    {
      |data| - pos
    }

    /** Take the next `n` bytes, or fail without moving. */
    method Take(n: nat) returns (r: Result<seq<byte>>)
      requires Valid()
      modifies this
      ensures Valid()
      ensures old(pos) + n <= |data| ==> r == Ok(data[old(pos)..old(pos) + n]) && pos == old(pos) + n
      ensures old(pos) + n > |data| ==> r == Err(Truncated) && pos == old(pos)
    {
      var end := pos + n;
      if end > |data| {
        return Err(Truncated);
      }
      r := Ok(data[pos..end]);
      pos := end;
    }

    method Skip(n: nat) returns (r: Result<()>)
      requires Valid()
      modifies this
      ensures Valid()
      ensures old(pos) + n <= |data| ==> r == Ok(()) && pos == old(pos) + n
      ensures old(pos) + n > |data| ==> r == Err(Truncated) && pos == old(pos)
    {
      var b :- Take(n);
      r := Ok(());
    }

    method U16() returns (r: Result<uint16>)
      requires Valid()
      modifies this
      ensures Valid()
      ensures old(pos) + 2 <= |data| ==> r == Ok(U16At(data, old(pos))) && pos == old(pos) + 2
      ensures old(pos) + 2 > |data| ==> r == Err(Truncated) && pos == old(pos)
    {
      var b :- Take(2);
      Ranges();
      r := Ok(FromLe(b));
    }

    method U32() returns (r: Result<uint32>)
      requires Valid()
      modifies this
      ensures Valid()
      ensures old(pos) + 4 <= |data| ==> r == Ok(U32At(data, old(pos))) && pos == old(pos) + 4
      ensures old(pos) + 4 > |data| ==> r == Err(Truncated) && pos == old(pos)
    {
      var b :- Take(4);
      Ranges();
      r := Ok(FromLe(b));
    }

    method U64() returns (r: Result<uint64>)
      requires Valid()
      modifies this
      ensures Valid()
      ensures old(pos) + 8 <= |data| ==> r == Ok(U64At(data, old(pos))) && pos == old(pos) + 8
      ensures old(pos) + 8 > |data| ==> r == Err(Truncated) && pos == old(pos)
    {
      var b :- Take(8);
      Ranges();
      r := Ok(FromLe(b));
    }
  }
}
