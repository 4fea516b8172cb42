/** Polynomials over GF(2) as coefficient sequences, highest degree first, and their division by the CRC generator. */
module Gf2Division {
  import opened Core

  /** x^32 + x^26 + x^23 + x^22 + x^16 + x^12 + x^11 + x^10 + x^8 + x^7 + x^5 + x^4 + x^2 + x + 1, that is
      0x04C11DB7 below its leading term. */
  const GENERATOR_TAIL: seq<bool> :=
    [ false, false, false, false, false, true,  false, false,
      true,  true,  false, false, false, false, false, true,
      false, false, false, true,  true,  true,  false, true,
      true,  false, true,  true,  false, true,  true,  true ]

  /** Sum of two polynomials, that is, coefficientwise XOR. */
  function Add(a: seq<bool>, b: seq<bool>): (c: seq<bool>)
    requires |a| == |b|
    ensures |c| == |a| && forall i :: 0 <= i < |a| ==> c[i] == (a[i] != b[i])
  {
    seq(|a|, i requires 0 <= i < |a| => a[i] != b[i])
  }

  /** The generator times b * x^(n - 33), as a polynomial of n coefficients. */
  function Lead(b: bool, n: nat): (p: seq<bool>)
    requires n > 32
    ensures |p| == n && p[0] == b
  {
    if b then [true] + GENERATOR_TAIL + Zeros(n - 33) else Zeros(n)
  }

  /** One step of the schoolbook long division: cancel the leading coefficient. */
  function Cancel(a: seq<bool>): (r: seq<bool>)
    requires |a| > 32
    ensures |r| == |a| - 1
  {
    if a[0] then Add(a[1..], GENERATOR_TAIL + Zeros(|a| - 33)) else a[1..]
  }

  /** What long division leaves once the degree is below 32. */
  function Remainder(a: seq<bool>): (r: seq<bool>)
    requires |a| >= 32
    ensures |r| == 32
    decreases |a|
  {
    if |a| == 32 then a else Remainder(Cancel(a))
  }

  function Quotient(a: seq<bool>): (q: seq<bool>)
    requires |a| >= 32
    ensures |q| == |a| - 32
    decreases |a|
  {
    if |a| == 32 then [] else [a[0]] + Quotient(Cancel(a))
  }

  /** The product of `q` and the generator. */
  function TimesGenerator(q: seq<bool>): (p: seq<bool>)
    ensures |p| == |q| + 32
  {
    if q == [] then Zeros(32) else Add(Lead(q[0], |q| + 32), [false] + TimesGenerator(q[1..]))
  }

  /** `a` is `q` times the generator plus `r`, where the degree of `r` is below 32. */
  predicate Divides(a: seq<bool>, q: seq<bool>, r: seq<bool>) {
    && |r| == 32
    && |a| == |q| + 32
    && a == Add(TimesGenerator(q), Zeros(|q|) + r)
  }

  lemma AddAssociative(a: seq<bool>, b: seq<bool>, c: seq<bool>)
    requires |a| == |b| == |c|
    ensures Add(Add(a, b), c) == Add(a, Add(b, c))
  {
  }

  lemma AddCons(x: bool, a: seq<bool>, y: bool, b: seq<bool>)
    requires |a| == |b|
    ensures Add([x] + a, [y] + b) == [x != y] + Add(a, b)
  {
  }

  /** A cancellation step subtracts the generator times the leading term. */
  lemma CancelIsSubtraction(a: seq<bool>)
    requires |a| > 32
    ensures a == Add(Lead(a[0], |a|), [false] + Cancel(a))
  {
  }

  /** Long division is division with remainder: a quotient exists for what `Remainder` leaves. */
  lemma {:induction false} DivisionExists(a: seq<bool>)
    requires |a| >= 32
    ensures Divides(a, Quotient(a), Remainder(a))
    decreases |a|
  {
    hide Lead, Cancel;
    if |a| <= 32 {
    } else {
      var q', r := Quotient(Cancel(a)), Remainder(a);
      var lead, product := Lead(a[0], |a|), TimesGenerator(q');
      var q := [a[0]] + q';
      assert q[1..] == q';
      DivisionExists(Cancel(a));
      CancelIsSubtraction(a);
      assert [false] + Cancel(a) == Add([false] + product, Zeros(|q|) + r) by {
        AddCons(false, product, false, Zeros(|q'|) + r);
        assert [false] + (Zeros(|q'|) + r) == Zeros(|q|) + r;
      }
      AddAssociative(lead, [false] + product, Zeros(|q|) + r);
    }
  }

  /** and it is the only remainder of degree below 32 that any quotient leaves. */
  lemma {:induction false} DivisionUnique(a: seq<bool>, q: seq<bool>, r: seq<bool>)
    requires |a| >= 32 && Divides(a, q, r)
    ensures q == Quotient(a) && r == Remainder(a)
    decreases |a|
  {
    if q == [] {
    } else {
      var lead, product := Lead(q[0], |a|), TimesGenerator(q[1..]);
      var rest := Add(product, Zeros(|q| - 1) + r);
      assert a == Add(lead, [false] + rest) by {
        AddAssociative(lead, [false] + product, Zeros(|q|) + r);
        AddCons(false, product, false, Zeros(|q| - 1) + r);
        assert [false] + (Zeros(|q| - 1) + r) == Zeros(|q|) + r;
      }
      SumDetermines(lead, [false] + rest, a);
      DivisionUnique(rest, q[1..], r);
      assert q == [q[0]] + q[1..];
    }
  }

  lemma SumDetermines(lead: seq<bool>, tail: seq<bool>, a: seq<bool>)
    requires |lead| == |tail| == |a| > 32 && a == Add(lead, tail)
    requires lead == Lead(lead[0], |a|) && !tail[0]
    ensures a[0] == lead[0] && tail[1..] == Cancel(a)
  {
    CancelIsSubtraction(a);
    var other := [false] + Cancel(a);
    forall i | 0 <= i < |a|
      ensures tail[i] == other[i]
    {
      assert a[i] == (lead[i] != tail[i]);
      assert a[i] == (lead[i] != other[i]);
    }
    assert tail[1..] == other[1..];
  }
}

/** The bit-serial CRC-32 register, its relation to polynomial division, and its burst detection. */
module Crc32 {
  import opened Core
  import opened Gf2Division

  const ALL_ONES: bv32 := 0xFFFFFFFF

  predicate Odd(x: bv32) {
    x & 1 == 1
  }

  function Half(x: bv32): bv32 {
    x >> 1
  }

  function Fold(x: bv32): bv32 {
    x ^ 0xEDB88320
  }

  /** The register after one shift, taking in the reversed generator when a one falls out. */
  function ShiftBit(crc: bv32): bv32 {
    if Odd(crc) then Fold(Half(crc)) else Half(crc)
  }

  function ShiftBits(crc: bv32, n: nat): bv32 {
    if n == 0 then crc else ShiftBit(ShiftBits(crc, n - 1))
  }

  function Word(b: bool): bv32 {
    if b then 1 else 0
  }

  /** The register after taking in one message bit. */
  function Step(crc: bv32, b: bool): bv32 {
    ShiftBit(crc ^ Word(b))
  }

  /** The register after taking in the bits `m` one at a time. */
  function Serial(crc: bv32, m: seq<bool>): bv32
    decreases |m|
  {
    if m == [] then crc else Serial(Step(crc, m[0]), m[1..])
  }

  /** Bit `i` of `x`, counted from the least significant one. */
  predicate Bit(x: bv32, i: nat)
    decreases i
  {
    if i == 0 then Odd(x) else Bit(Half(x), i - 1)
  }

  /** All 32 bits of `x`, least significant first: the reflected reading, in which bit 0 has the highest degree. */
  function Bits(x: bv32): (s: seq<bool>)
    ensures |s| == 32 && forall i :: 0 <= i < 32 ==> s[i] == Bit(x, i)
  {
    seq(32, i requires 0 <= i => Bit(x, i))
  }

  function Widen(b: bv8): bv32 {
    b as bv32
  }

  function ByteBits(b: bv8): (s: seq<bool>)
    ensures |s| == 8 && forall i :: 0 <= i < 8 ==> s[i] == Bit(Widen(b), i)
  {
    seq(8, i requires 0 <= i => Bit(Widen(b), i))
  }

  /** The bits of a message in transmission order: byte by byte, least significant bit first. */
  function MessageBits(data: seq<bv8>): (s: seq<bool>)
    ensures |s| == 8 * |data|
  {
    if data == [] then [] else MessageBits(data[..|data| - 1]) + ByteBits(data[|data| - 1])
  }

  /** The register after a message, started with all ones. */
  function Register(data: seq<bv8>): bv32 {
    Serial(ALL_ONES, MessageBits(data))
  }

  /** The checksum the bit-serial register computes. */
  function Checksum(data: seq<bv8>): bv32 {
    Register(data) ^ ALL_ONES
  }

  // ---------------------------------------------------------------- bits of a word

  predicate IsXor(x: bv32, y: bv32, z: bv32) {
    z == x ^ y
  }

  lemma OddXor(x: bv32, y: bv32, z: bv32)
    requires IsXor(x, y, z)
    ensures Odd(z) == (Odd(x) != Odd(y))
  {
  }

  lemma HalfXor(x: bv32, y: bv32, z: bv32)
    requires IsXor(x, y, z)
    ensures IsXor(Half(x), Half(y), Half(z))
  {
  }

  lemma {:induction false} BitXor(x: bv32, y: bv32, z: bv32, i: nat)
    requires IsXor(x, y, z)
    ensures Bit(z, i) == (Bit(x, i) != Bit(y, i))
    decreases i
  {
    hide IsXor, Odd, Half;
    if i == 0 {
      OddXor(x, y, z);
    } else {
      HalfXor(x, y, z);
      BitXor(Half(x), Half(y), Half(z), i - 1);
    }
  }

  lemma {:induction false} BitOfZero(i: nat)
    ensures !Bit(0, i)
  {
    if i == 0 {
    } else {
      BitOfZero(i - 1);
    }
  }

  lemma BitShift2(x: bv32, i: nat)
    ensures Bit(x, i + 2) == Bit(x >> 2, i)
  {
    assert (x >> 1) >> 1 == x >> 2;
    assert Bit(x, i + 2) == Bit(Half(x), i + 1);
  }

  lemma BitShift4(x: bv32, i: nat)
    ensures Bit(x, i + 4) == Bit(x >> 4, i)
  {
    BitShift2(x, i + 2);
    BitShift2(x >> 2, i);
    assert (x >> 2) >> 2 == x >> 4;
  }

  lemma BitShift8(x: bv32, i: nat)
    ensures Bit(x, i + 8) == Bit(x >> 8, i)
  {
    BitShift4(x, i + 4);
    BitShift4(x >> 4, i);
    assert (x >> 4) >> 4 == x >> 8;
  }

  lemma BitShift16(x: bv32, i: nat)
    ensures Bit(x, i + 16) == Bit(x >> 16, i)
  {
    BitShift8(x, i + 8);
    BitShift8(x >> 8, i);
    assert (x >> 8) >> 8 == x >> 16;
  }

  lemma BitBeyond(x: bv32)
    ensures !Bit(x, 32)
  {
    BitShift16(x, 16);
    BitShift16(x >> 16, 0);
    assert (x >> 16) >> 16 == 0;
    BitOfZero(0);
  }

  lemma LowNibble(x: bv32)
    ensures Bit(x, 0) == (x & 1 != 0) && Bit(x, 1) == (x & 2 != 0)
    ensures Bit(x, 2) == (x & 4 != 0) && Bit(x, 3) == (x & 8 != 0)
  {
    BitShift2(x, 0);
    BitShift2(x, 1);
  }

  lemma Mask4(x: bv32)
    ensures ((x >> 4) & 1 != 0) == (x & 16 != 0)
  {
  }

  lemma Mask5(x: bv32)
    ensures ((x >> 4) & 2 != 0) == (x & 32 != 0)
  {
  }

  lemma Mask6(x: bv32)
    ensures ((x >> 4) & 4 != 0) == (x & 64 != 0)
  {
  }

  lemma Mask7(x: bv32)
    ensures ((x >> 4) & 8 != 0) == (x & 128 != 0)
  {
  }

  lemma LowByte(x: bv32)
    ensures Bit(x, 0) == (x & 1 != 0) && Bit(x, 1) == (x & 2 != 0)
    ensures Bit(x, 2) == (x & 4 != 0) && Bit(x, 3) == (x & 8 != 0)
    ensures Bit(x, 4) == (x & 16 != 0) && Bit(x, 5) == (x & 32 != 0)
    ensures Bit(x, 6) == (x & 64 != 0) && Bit(x, 7) == (x & 128 != 0)
  {
    hide Bit;
    LowNibble(x);
    LowNibble(x >> 4);
    Mask4(x);
    Mask5(x);
    Mask6(x);
    Mask7(x);
    BitShift4(x, 0);
    BitShift4(x, 1);
    BitShift4(x, 2);
    BitShift4(x, 3);
  }

  /** The constant in the code is the generator read with its bits reversed. */
  lemma PolynomialBits()
    ensures Bits(0xEDB88320) == GENERATOR_TAIL
  {
    LowByte(0xEDB88320);
    LowByte(0xEDB883);
    LowByte(0xEDB8);
    LowByte(0xED);
    assert (0xEDB88320 as bv32) >> 8 == 0xEDB883;
    assert (0xEDB88320 as bv32) >> 16 == 0xEDB8;
    assert (0xEDB8 as bv32) >> 8 == 0xED;
    forall i | 0 <= i < 8
      ensures Bit(0xEDB88320, i + 8) == Bit(0xEDB883, i)
      ensures Bit(0xEDB88320, i + 16) == Bit(0xEDB8, i)
      ensures Bit(0xEDB88320, i + 24) == Bit(0xED, i)
    {
      BitShift8(0xEDB88320, i);
      BitShift16(0xEDB88320, i);
      BitShift16(0xEDB88320, i + 8);
      BitShift8(0xEDB8, i);
    }
    forall i | 0 <= i < 32
      ensures Bit(0xEDB88320, i) == GENERATOR_TAIL[i]
    {
      if i >= 24 {
        assert Bit(0xEDB88320, (i - 24) + 24) == Bit(0xED, i - 24);
      } else if i >= 16 {
        assert Bit(0xEDB88320, (i - 16) + 16) == Bit(0xEDB8, i - 16);
      } else if i >= 8 {
        assert Bit(0xEDB88320, (i - 8) + 8) == Bit(0xEDB883, i - 8);
      }
    }
  }

  lemma WordBit(b: bool, i: nat)
    ensures Bit(Word(b), i) == (b && i == 0)
  {
    if i > 0 {
      assert Half(Word(b)) == 0;
      BitOfZero(i - 1);
    }
  }

  lemma ShiftedBit(v: bv32, i: nat)
    requires i < 32
    ensures Bit(ShiftBit(v), i) == ((i < 31 && Bit(v, i + 1)) != (Odd(v) && GENERATOR_TAIL[i]))
  {
    hide Odd, Half;
    assert Bit(Half(v), i) == Bit(v, i + 1);
    if i == 31 {
      BitBeyond(v);
    }
    if Odd(v) {
      PolynomialBits();
      assert Bits(0xEDB88320)[i] == GENERATOR_TAIL[i];
      BitXor(Half(v), 0xEDB88320, ShiftBit(v), i);
    }
  }

  /** One step of the register, in terms of bits: the register moves down by one position and, when its lowest bit
      and the message bit differ, takes in the generator. */
  lemma StepBit(crc: bv32, b: bool, i: nat)
    requires i < 32
    ensures Bit(Step(crc, b), i)
         == ((i < 31 && Bit(crc, i + 1)) != ((Bit(crc, 0) != b) && GENERATOR_TAIL[i]))
  {
    hide Bit, Odd, ShiftBit, Word;
    StepBitFrom(crc, b, crc ^ Word(b), i);
  }

  lemma StepBitFrom(crc: bv32, b: bool, v: bv32, i: nat)
    requires i < 32 && IsXor(crc, Word(b), v)
    ensures Bit(ShiftBit(v), i)
         == ((i < 31 && Bit(crc, i + 1)) != ((Bit(crc, 0) != b) && GENERATOR_TAIL[i]))
  {
    hide IsXor, Odd, ShiftBit;
    ShiftedBit(v, i);
    WordBit(b, 0);
    WordBit(b, i + 1);
    BitXor(crc, Word(b), v, 0);
    BitXor(crc, Word(b), v, i + 1);
  }

  // ---------------------------------------------------------------- the register divides

  /** The register `crc` laid over the remaining message `m`: what is left to divide. */
  function Pending(crc: bv32, m: seq<bool>): (a: seq<bool>)
    ensures |a| == |m| + 32
  {
    Add(Bits(crc) + Zeros(|m|), m + Zeros(32))
  }

  lemma PendingStep(crc: bv32, m: seq<bool>)
    requires m != []
    ensures Cancel(Pending(crc, m)) == Pending(Step(crc, m[0]), m[1..])
  {
    hide Step, Bit;
    var a, next := Pending(crc, m), Step(crc, m[0]);
    var got, want := Cancel(a), Pending(next, m[1..]);
    assert a[0] == (Bit(crc, 0) != m[0]);
    forall i | 0 <= i < |got|
      ensures got[i] == want[i]
    {
      if i < 32 {
        StepBit(crc, m[0], i);
      }
    }
  }

  /** The register computes the remainder of long division. */
  lemma {:induction false} SerialIsRemainder(crc: bv32, m: seq<bool>)
    ensures Bits(Serial(crc, m)) == Remainder(Pending(crc, m))
    decreases |m|
  {
    if m == [] {
      assert Pending(crc, m) == Bits(crc);
    } else {
      PendingStep(crc, m);
      SerialIsRemainder(Step(crc, m[0]), m[1..]);
    }
  }

  function Complement(a: seq<bool>): (c: seq<bool>)
    ensures |c| == |a| && forall i :: 0 <= i < |a| ==> c[i] == !a[i]
  {
    seq(|a|, i requires 0 <= i < |a| => !a[i])
  }

  /** The message polynomial times x^32 with its first 32 bits complemented: what clause 3.2.9 of IEEE 802.3 divides. */
  function Dividend(data: seq<bv8>): (a: seq<bool>)
    ensures |a| == 8 * |data| + 32
  {
    var a := MessageBits(data) + Zeros(32);
    Complement(a[..32]) + a[32..]
  }

  lemma AllOnesBit(i: nat)
    requires i < 32
    ensures Bit(ALL_ONES, i)
    decreases i
  {
    if i < 8 {
      LowByte(ALL_ONES);
    } else if i < 16 {
      BitShift8(ALL_ONES, i - 8);
      LowByte(ALL_ONES >> 8);
    } else if i < 24 {
      BitShift16(ALL_ONES, i - 16);
      LowByte(ALL_ONES >> 16);
    } else {
      BitShift16(ALL_ONES, i - 16);
      BitShift8(ALL_ONES >> 16, i - 24);
      LowByte((ALL_ONES >> 16) >> 8);
    }
  }

  lemma ComplementBits(x: bv32)
    ensures Bits(x ^ ALL_ONES) == Complement(Bits(x))
  {
    hide Bit;
    forall i | 0 <= i < 32
      ensures Bit(x ^ ALL_ONES, i) == !Bit(x, i)
    {
      AllOnesBit(i);
      BitXor(x, ALL_ONES, x ^ ALL_ONES, i);
    }
  }

  /** The checksum, bits reflected and complemented, is the remainder of dividing the complemented message polynomial
      times x^32 by the generator: it leaves a quotient, and no other remainder does. */
  lemma ChecksumIsPolynomialRemainder(data: seq<bv8>)
    ensures Divides(Dividend(data), Quotient(Dividend(data)), Complement(Bits(Checksum(data))))
    ensures forall q, r :: Divides(Dividend(data), q, r) ==> r == Complement(Bits(Checksum(data)))
  {
    hide Bit, Serial, MessageBits, Remainder, Quotient;
    var m, a := MessageBits(data), Dividend(data);
    forall i | 0 <= i < 32
      ensures Bits(ALL_ONES)[i]
    {
      AllOnesBit(i);
    }
    assert Pending(ALL_ONES, m) == a;
    SerialIsRemainder(ALL_ONES, m);
    var rem := Serial(ALL_ONES, m);
    assert Complement(Bits(Checksum(data))) == Remainder(a) by {
      ComplementBits(rem);
      assert Complement(Complement(Bits(rem))) == Bits(rem);
    }
    DivisionExists(a);
    forall q, r | Divides(a, q, r)
      ensures r == Remainder(a)
    {
      DivisionUnique(a, q, r);
    }
  }

  // ---------------------------------------------------------------- bursts

  lemma {:induction false} SerialConcat(crc: bv32, m: seq<bool>, n: seq<bool>)
    ensures Serial(crc, m + n) == Serial(Serial(crc, m), n)
    decreases |m|
  {
    hide Step;
    if m == [] {
      assert m + n == n;
    } else {
      assert (m + n)[1..] == m[1..] + n;
      SerialConcat(Step(crc, m[0]), m[1..], n);
    }
  }

  /** Going back from two equal registers: the registers 32 or fewer steps earlier differ exactly where the messages
      do, because the top bit of the generator betrays every step that took it in. */
  lemma {:induction false} DifferenceGoesBack(x: bv32, y: bv32, m: seq<bool>, n: seq<bool>)
    requires |m| == |n| <= 32 && Serial(x, m) == Serial(y, n)
    ensures forall i :: 0 <= i < 32 ==> ((Bit(x, i) != Bit(y, i)) <==> (i < |m| && m[i] != n[i]))
    decreases |m|
  {
    hide Step, Bit;
    if m == [] {
    } else {
      var x', y' := Step(x, m[0]), Step(y, n[0]);
      DifferenceGoesBack(x', y', m[1..], n[1..]);
      StepBit(x, m[0], 31);
      StepBit(y, n[0], 31);
      assert Bit(x', 31) == Bit(y', 31);
      forall i | 0 <= i < 32
        ensures (Bit(x, i) != Bit(y, i)) <==> (i < |m| && m[i] != n[i])
      {
        if i > 0 {
          StepBit(x, m[0], i - 1);
          StepBit(y, n[0], i - 1);
        }
      }
    }
  }

  lemma ShiftBitInjective(x: bv32, y: bv32)
    requires ShiftBit(x) == ShiftBit(y)
    ensures x == y
  {
  }

  lemma StepInjective(x: bv32, y: bv32, b: bool)
    requires Step(x, b) == Step(y, b)
    ensures x == y
  {
    hide ShiftBit;
    var w := Word(b);
    ShiftBitInjective(x ^ w, y ^ w);
    assert x == (x ^ w) ^ w && y == (y ^ w) ^ w;
  }

  /** Equal messages keep different registers different. */
  lemma {:induction false} SerialInjective(x: bv32, y: bv32, m: seq<bool>)
    requires Serial(x, m) == Serial(y, m)
    ensures x == y
    decreases |m|
  {
    hide Step;
    if m == [] {
    } else {
      SerialInjective(Step(x, m[0]), Step(y, m[0]), m[1..]);
      StepInjective(x, y, m[0]);
    }
  }

  /** `m` and `n` differ in at most the 32 bits from `start` on. */
  predicate DifferWithin(m: seq<bool>, n: seq<bool>, start: nat) {
    |m| == |n| && forall i :: 0 <= i < |m| && (i < start || i >= start + 32) ==> m[i] == n[i]
  }

  /** Messages that differ only within a burst and still drive the register to the same value are equal. */
  lemma BurstIsSeen(crc: bv32, m: seq<bool>, n: seq<bool>, start: nat)
    requires DifferWithin(m, n, start) && Serial(crc, m) == Serial(crc, n)
    ensures m == n
  {
    hide Serial, Step, Bit;
    var a := if start < |m| then start else |m|;
    var z := if start + 32 < |m| then start + 32 else |m|;
    var m0, m1, m2 := m[..a], m[a..z], m[z..];
    var n0, n1, n2 := n[..a], n[a..z], n[z..];
    assert m == (m0 + m1) + m2 && n == (n0 + n1) + n2;
    assert m0 == n0 && m2 == n2;
    SerialConcat(crc, m0 + m1, m2);
    SerialConcat(crc, n0 + n1, n2);
    SerialConcat(crc, m0, m1);
    SerialConcat(crc, n0, n1);
    SerialInjective(Serial(crc, m0 + m1), Serial(crc, n0 + n1), m2);
    var reached := Serial(crc, m0);
    DifferenceGoesBack(reached, reached, m1, n1);
    forall i | 0 <= i < |m1|
      ensures m1[i] == n1[i]
    {
      assert !(Bit(reached, i) != Bit(reached, i));
    }
    assert m1 == n1;
  }

  lemma ByteBitsInjective(b: bv8, c: bv8)
    requires ByteBits(b) == ByteBits(c)
    ensures b == c
  {
    hide Bit;
    LowByte(Widen(b));
    LowByte(Widen(c));
    assert forall i :: 0 <= i < 8 ==> Bit(Widen(b), i) == ByteBits(b)[i] && Bit(Widen(c), i) == ByteBits(c)[i];
    SameMasks(Widen(b), Widen(c));
  }

  lemma SameMasks(x: bv32, y: bv32)
    requires x < 256 && y < 256
    requires (x & 1 != 0) == (y & 1 != 0) && (x & 2 != 0) == (y & 2 != 0)
    requires (x & 4 != 0) == (y & 4 != 0) && (x & 8 != 0) == (y & 8 != 0)
    requires (x & 16 != 0) == (y & 16 != 0) && (x & 32 != 0) == (y & 32 != 0)
    requires (x & 64 != 0) == (y & 64 != 0) && (x & 128 != 0) == (y & 128 != 0)
    ensures x == y
  {
  }

  lemma {:induction false} MessageBitsInjective(p: seq<bv8>, q: seq<bv8>)
    requires |p| == |q| && MessageBits(p) == MessageBits(q)
    ensures p == q
  {
    if p == [] {
    } else {
      var n := |p| - 1;
      var ps, qs := MessageBits(p[..n]), MessageBits(q[..n]);
      assert MessageBits(p)[..8 * n] == ps && MessageBits(q)[..8 * n] == qs;
      assert MessageBits(p)[8 * n..] == ByteBits(p[n]) && MessageBits(q)[8 * n..] == ByteBits(q[n]);
      MessageBitsInjective(p[..n], q[..n]);
      ByteBitsInjective(p[n], q[n]);
      assert p == p[..n] + [p[n]] && q == q[..n] + [q[n]];
    }
  }

  /** Any change of a message confined to 32 consecutive transmitted bits changes its checksum. */
  lemma BurstChangesChecksum(p: seq<bv8>, q: seq<bv8>, start: nat)
    requires |p| == |q| && p != q && DifferWithin(MessageBits(p), MessageBits(q), start)
    ensures Checksum(p) != Checksum(q)
  {
    hide Serial;
    var x, y := Serial(ALL_ONES, MessageBits(p)), Serial(ALL_ONES, MessageBits(q));
    assert x == (x ^ ALL_ONES) ^ ALL_ONES && y == (y ^ ALL_ONES) ^ ALL_ONES;
    if x == y {
      BurstIsSeen(ALL_ONES, MessageBits(p), MessageBits(q), start);
      MessageBitsInjective(p, q);
    }
  }

  // ---------------------------------------------------------------- why 32 is the limit

  predicate SameLowByte(x: bv32, y: bv32) {
    x & 0xFF == y & 0xFF
  }

  predicate SameLowBits(x: bv32, y: bv32, n: nat) {
    forall i: nat :: i < n ==> Bit(x, i) == Bit(y, i)
  }

  lemma LowByteFromBits(x: bv32, y: bv32)
    requires SameLowBits(x, y, 8)
    ensures SameLowByte(x, y)
  {
    hide Bit, SameLowByte;
    LowByte(x);
    LowByte(y);
    LowMasks(x, y);
  }

  lemma LowMasks(x: bv32, y: bv32)
    requires (x & 1 != 0) == (y & 1 != 0) && (x & 2 != 0) == (y & 2 != 0)
    requires (x & 4 != 0) == (y & 4 != 0) && (x & 8 != 0) == (y & 8 != 0)
    requires (x & 16 != 0) == (y & 16 != 0) && (x & 32 != 0) == (y & 32 != 0)
    requires (x & 64 != 0) == (y & 64 != 0) && (x & 128 != 0) == (y & 128 != 0)
    ensures SameLowByte(x, y)
  {
  }

  lemma FourBytes(x: bv32, y: bv32)
    requires SameLowByte(x, y) && SameLowByte(x >> 8, y >> 8)
    requires SameLowByte(x >> 16, y >> 16) && SameLowByte((x >> 16) >> 8, (y >> 16) >> 8)
    ensures x == y
  {
  }

  /** A word whose bits are all those of another is that word. */
  lemma SameBits(x: bv32, y: bv32)
    requires SameLowBits(x, y, 32)
    ensures x == y
  {
    hide Bit, SameLowByte;
    var (u, v) := (x >> 16, y >> 16);
    forall i: nat | i < 16
      ensures Bit(u, i) == Bit(v, i)
    {
      BitShift16(x, i);
      BitShift16(y, i);
    }
    LowByteFromBits(x, y);
    UpperBits(x, y, 24);
    LowByteFromBits(x >> 8, y >> 8);
    LowByteFromBits(u, v);
    UpperBits(u, v, 8);
    LowByteFromBits(u >> 8, v >> 8);
    FourBytes(x, y);
  }

  lemma UpperBits(x: bv32, y: bv32, n: nat)
    requires SameLowBits(x, y, n + 8)
    ensures SameLowBits(x >> 8, y >> 8, n)
  {
    hide Bit;
    var (u, v) := (x >> 8, y >> 8);
    forall i: nat | i < n
      ensures Bit(u, i) == Bit(v, i)
    {
      BitShift8(x, i);
      BitShift8(y, i);
    }
  }

  /** Registers that differ exactly where the messages do come out equal: the converse of DifferenceGoesBack. */
  lemma {:induction false} DifferenceCancels(x: bv32, y: bv32, m: seq<bool>, n: seq<bool>)
    requires |m| == |n| <= 32
    requires forall i :: 0 <= i < 32 ==> ((Bit(x, i) != Bit(y, i)) <==> (i < |m| && m[i] != n[i]))
    ensures Serial(x, m) == Serial(y, n)
    decreases |m|
  {
    hide Step, Bit;
    if m == [] {
      SameBits(x, y);
    } else {
      var x', y' := Step(x, m[0]), Step(y, n[0]);
      forall i | 0 <= i < 32
        ensures (Bit(x', i) != Bit(y', i)) <==> (i < |m[1..]| && m[1..][i] != n[1..][i])
      {
        StepBit(x, m[0], i);
        StepBit(y, n[0], i);
      }
      DifferenceCancels(x', y', m[1..], n[1..]);
    }
  }

  /** `m` and `n` differ first at `start`, and nowhere from `start` + 33 on. */
  predicate DifferFirstAt(m: seq<bool>, n: seq<bool>, start: nat) {
    && |m| == |n| && start + 33 <= |m| && m[start] != n[start]
    && m[..start] == n[..start] && m[start + 33..] == n[start + 33..]
  }

  /** The 33 bits from `start` on differ in the pattern of the generator. */
  predicate DifferByGenerator(m: seq<bool>, n: seq<bool>, start: nat)
    requires DifferFirstAt(m, n, start)
  {
    forall i :: 0 <= i < 32 ==> ((m[start + 1 + i] != n[start + 1 + i]) <==> GENERATOR_TAIL[i])
  }

  /** A change confined to 33 bits goes unnoticed exactly when it is the generator itself. */
  lemma GeneratorIsUnseen(crc: bv32, m: seq<bool>, n: seq<bool>, start: nat)
    requires DifferFirstAt(m, n, start)
    ensures Serial(crc, m) == Serial(crc, n) <==> DifferByGenerator(m, n, start)
  {
    hide Serial, Step, Bit;
    var r := Serial(crc, m[..start]);
    var (a, b, tail) := (m[start + 1..start + 33], n[start + 1..start + 33], m[start + 33..]);
    var (x, y) := (Step(r, m[start]), Step(r, n[start]));
    SerialPieces(crc, m, start);
    SerialPieces(crc, n, start);
    forall i | 0 <= i < 32
      ensures (Bit(x, i) != Bit(y, i)) <==> GENERATOR_TAIL[i]
    {
      StepBit(r, m[start], i);
      StepBit(r, n[start], i);
    }
    if Serial(crc, m) == Serial(crc, n) {
      SerialInjective(Serial(x, a), Serial(y, b), tail);
      DifferenceGoesBack(x, y, a, b);
      forall i | 0 <= i < 32
        ensures (m[start + 1 + i] != n[start + 1 + i]) <==> GENERATOR_TAIL[i]
      {
        assert a[i] == m[start + 1 + i] && b[i] == n[start + 1 + i];
      }
    }
    if DifferByGenerator(m, n, start) {
      DifferenceCancels(x, y, a, b);
    }
  }

  /** For checksums: the only change within 33 bits that they miss. */
  lemma ChecksumMissesGenerator(p: seq<bv8>, q: seq<bv8>, start: nat)
    requires DifferFirstAt(MessageBits(p), MessageBits(q), start)
    ensures Checksum(p) == Checksum(q) <==> DifferByGenerator(MessageBits(p), MessageBits(q), start)
  {
    hide Checksum, Serial, MessageBits, DifferFirstAt, DifferByGenerator, IsXor;
    ChecksumInverts(p);
    ChecksumInverts(q);
    if Register(p) == Register(q) {
      XorIsUnique(Register(p), ALL_ONES, Checksum(p), Checksum(q));
    }
    if Checksum(p) == Checksum(q) {
      XorGoesBack(Register(p), ALL_ONES, Checksum(p));
      XorGoesBack(Register(q), ALL_ONES, Checksum(q));
      XorIsUnique(Checksum(p), ALL_ONES, Register(p), Register(q));
    }
    GeneratorIsUnseen(ALL_ONES, MessageBits(p), MessageBits(q), start);
  }

  lemma ChecksumInverts(p: seq<bv8>)
    ensures IsXor(Register(p), ALL_ONES, Checksum(p))
  {
    hide Register;
  }

  lemma XorGoesBack(x: bv32, y: bv32, z: bv32)
    requires IsXor(x, y, z)
    ensures IsXor(z, y, x)
  {
  }

  lemma XorIsUnique(x: bv32, y: bv32, z: bv32, w: bv32)
    requires IsXor(x, y, z) && IsXor(x, y, w)
    ensures z == w
  {
  }

  lemma SerialPieces(crc: bv32, m: seq<bool>, start: nat)
    requires start + 33 <= |m|
    ensures Serial(crc, m)
         == Serial(Serial(Step(Serial(crc, m[..start]), m[start]), m[start + 1..start + 33]), m[start + 33..])
  {
    hide Step;
    var (front, rest) := (m[..start], m[start..]);
    assert m == front + rest;
    SerialConcat(crc, front, rest);
    assert rest[1..] == m[start + 1..start + 33] + m[start + 33..];
    SerialConcat(Step(Serial(crc, front), m[start]), m[start + 1..start + 33], m[start + 33..]);
  }

  lemma {:induction false} MessageBitsAt(p: seq<bv8>, k: nat, j: nat)
    requires k < |p| && j < 8
    ensures MessageBits(p)[8 * k + j] == Bit(Widen(p[k]), j)
    decreases |p|
  {
    if k == |p| - 1 {
    } else {
      MessageBitsAt(p[..|p| - 1], k, j);
    }
  }

  /** In particular a change of any of four adjacent bytes does. */
  lemma FourBytesAreABurst(p: seq<bv8>, q: seq<bv8>, k: nat)
    requires |p| == |q| && forall i :: 0 <= i < |p| && (i < k || i >= k + 4) ==> p[i] == q[i]
    ensures DifferWithin(MessageBits(p), MessageBits(q), 8 * k)
  {
    hide MessageBits;
    forall i | 0 <= i < 8 * |p| && (i < 8 * k || i >= 8 * k + 32)
      ensures MessageBits(p)[i] == MessageBits(q)[i]
    {
      MessageBitsAt(p, i / 8, i % 8);
      MessageBitsAt(q, i / 8, i % 8);
    }
  }

  // ---------------------------------------------------------------- the last bit of a message

  function FlipTop(b: bv8): bv8 {
    b ^ 0x80
  }

  lemma FlippedMasks(b: bv8)
    ensures var (x, y) := (Widen(b), Widen(FlipTop(b)));
            && (x & 1 != 0) == (y & 1 != 0) && (x & 2 != 0) == (y & 2 != 0) && (x & 4 != 0) == (y & 4 != 0)
            && (x & 8 != 0) == (y & 8 != 0) && (x & 16 != 0) == (y & 16 != 0) && (x & 32 != 0) == (y & 32 != 0)
            && (x & 64 != 0) == (y & 64 != 0) && (x & 128 != 0) != (y & 128 != 0)
  {
  }

  lemma FlippedBits(b: bv8)
    ensures ByteBits(FlipTop(b))[..7] == ByteBits(b)[..7] && ByteBits(FlipTop(b))[7] != ByteBits(b)[7]
  {
    hide Bit, Widen, FlipTop;
    var (x, y) := (Widen(b), Widen(FlipTop(b)));
    LowByte(x);
    LowByte(y);
    FlippedMasks(b);
    assert forall j :: 0 <= j < 7 ==> Bit(x, j) == Bit(y, j);
  }

  lemma FoldIsXor(x: bv32)
    ensures IsXor(x, 0xEDB88320, Fold(x))
  {
  }

  /** The register takes in the other bit by taking in the generator once more. */
  lemma StepFlips(s: bv32, bit: bool)
    ensures IsXor(Step(s, bit), 0xEDB88320, Step(s, !bit))
  {
    hide Bit, Step, Fold, IsXor, Bits;
    var (x, y) := (Step(s, bit), Step(s, !bit));
    FoldIsXor(x);
    PolynomialBits();
    forall i: nat | i < 32
      ensures Bit(y, i) == Bit(Fold(x), i)
    {
      StepBit(s, bit, i);
      StepBit(s, !bit, i);
      BitXor(x, 0xEDB88320, Fold(x), i);
      assert Bits(0xEDB88320)[i] == Bit(0xEDB88320, i);
    }
    SameBits(y, Fold(x));
  }

  /** Flipping the last bit of a message changes its checksum by the generator. */
  lemma LastBitFlips(p: seq<bv8>, b: bv8)
    ensures IsXor(Checksum(p + [b]), 0xEDB88320, Checksum(p + [FlipTop(b)]))
  {
    hide Serial, Step, ByteBits, FlipTop, IsXor, Checksum;
    var (m, n) := (ByteBits(b), ByteBits(FlipTop(b)));
    var s := Serial(ALL_ONES, MessageBits(p) + m[..7]);
    FlippedBits(b);
    RegisterBeforeLast(p, b);
    RegisterBeforeLast(p, FlipTop(b));
    assert n[7] == !m[7];
    StepFlips(s, m[7]);
    ChecksumInverts(p + [b]);
    ChecksumInverts(p + [FlipTop(b)]);
    XorsBoth(Register(p + [b]), Register(p + [FlipTop(b)]), Checksum(p + [b]), Checksum(p + [FlipTop(b)]));
  }

  lemma RegisterBeforeLast(p: seq<bv8>, b: bv8)
    ensures Register(p + [b]) == Step(Serial(ALL_ONES, MessageBits(p) + ByteBits(b)[..7]), ByteBits(b)[7])
  {
    hide Step, ByteBits;
    var m := ByteBits(b);
    assert (p + [b])[..|p|] == p;
    assert MessageBits(p + [b]) == MessageBits(p) + m[..7] + [m[7]];
    SerialConcat(ALL_ONES, MessageBits(p) + m[..7], [m[7]]);
    OneStep(Serial(ALL_ONES, MessageBits(p) + m[..7]), m[7]);
  }

  lemma OneStep(s: bv32, bit: bool)
    ensures Serial(s, [bit]) == Step(s, bit)
  {
    hide Step;
    assert [bit][1..] == [];
  }

  lemma XorsBoth(x: bv32, y: bv32, c: bv32, d: bv32)
    requires IsXor(x, 0xEDB88320, y) && IsXor(x, ALL_ONES, c) && IsXor(y, ALL_ONES, d)
    ensures IsXor(c, 0xEDB88320, d)
  {
  }

  // ---------------------------------------------------------------- one byte at a time

  function ShiftRight(x: bv32, n: nat): bv32 {
    if n == 0 then x else Half(ShiftRight(x, n - 1))
  }

  lemma {:induction false} ShiftRightBit(x: bv32, n: nat)
    ensures Odd(ShiftRight(x, n)) == Bit(x, n)
  {
    ShiftRightBitFrom(x, n, 0);
  }

  lemma {:induction false} ShiftRightBitFrom(x: bv32, n: nat, i: nat)
    ensures Bit(ShiftRight(x, n), i) == Bit(x, n + i)
  {
    hide Odd, Half;
    if n == 0 {
    } else {
      var y := ShiftRight(x, n - 1);
      ShiftRightBitFrom(x, n - 1, i + 1);
      assert Bit(y, i + 1) == Bit(Half(y), i);
    }
  }

  /** Low bits that are taken in one at a time may as well be taken in at once. */
  lemma {:induction false} TakeInAtOnce(crc: bv32, t: bv32, v: bv32, m: seq<bool>)
    requires IsXor(crc, t, v)
    requires forall i :: 0 <= i < |m| ==> m[i] == Bit(t, i)
    ensures IsXor(Serial(crc, m), ShiftRight(t, |m|), ShiftBits(v, |m|))
    decreases |m|
  {
    hide IsXor, Step, ShiftBit, Odd, Half;
    if m == [] {
    } else {
      var n := |m| - 1;
      TakeInAtOnce(crc, t, v, m[..n]);
      assert m == m[..n] + [m[n]];
      SerialConcat(crc, m[..n], [m[n]]);
      var s, r := Serial(crc, m[..n]), ShiftRight(t, n);
      assert Serial(s, [m[n]]) == Step(s, m[n]);
      ShiftRightBit(t, n);
      TakeInOne(s, r, ShiftBits(v, n));
    }
  }

  lemma TakeInOne(s: bv32, t: bv32, v: bv32)
    requires IsXor(s, t, v)
    ensures IsXor(Step(s, Odd(t)), Half(t), ShiftBit(v))
  {
    hide ShiftBit, Odd, IsXor, Half;
    var b := Word(Odd(t));
    if Odd(t) { ClearLowBit(t); } else { KeepLowBit(t); }
    Regroup(s, t, b, v);
    EvenPart(t ^ b, s ^ b, v);
  }

  lemma ClearLowBit(t: bv32)
    requires Odd(t)
    ensures !Odd(t ^ 1) && Half(t ^ 1) == Half(t)
  {
  }

  lemma KeepLowBit(t: bv32)
    requires !Odd(t)
    ensures !Odd(t ^ 0) && Half(t ^ 0) == Half(t)
  {
  }

  lemma Regroup(s: bv32, t: bv32, b: bv32, v: bv32)
    requires IsXor(s, t, v)
    ensures IsXor(t ^ b, s ^ b, v)
  {
  }

  lemma XorSwap(x: bv32, y: bv32, z: bv32)
    requires IsXor(x, y, z)
    ensures IsXor(y, x, z) && IsXor(Fold(y), x, Fold(z))
  {
  }

  /** A part of the register whose low bit is clear just moves down. */
  lemma EvenPart(even: bv32, x: bv32, v: bv32)
    requires IsXor(even, x, v) && !Odd(even)
    ensures IsXor(ShiftBit(x), Half(even), ShiftBit(v))
  {
    hide Odd, IsXor, Half, Fold;
    OddXor(even, x, v);
    HalfXor(even, x, v);
    XorSwap(Half(even), Half(x), Half(v));
  }

  /** Clear low bits of `even` leave it shifting down on its own for as many steps. */
  lemma {:induction false} EvenParts(even: bv32, x: bv32, v: bv32, n: nat)
    requires IsXor(even, x, v) && forall i :: 0 <= i < n ==> !Bit(even, i)
    ensures IsXor(ShiftBits(x, n), ShiftRight(even, n), ShiftBits(v, n))
  {
    hide Odd, IsXor, ShiftBit, Half;
    if n == 0 {
      XorSwap(even, x, v);
    } else {
      EvenParts(even, x, v, n - 1);
      XorSwap(ShiftBits(x, n - 1), ShiftRight(even, n - 1), ShiftBits(v, n - 1));
      ShiftRightBit(even, n - 1);
      EvenPart(ShiftRight(even, n - 1), ShiftBits(x, n - 1), ShiftBits(v, n - 1));
    }
  }

  lemma {:induction false} ShiftRight2(x: bv32, n: nat)
    requires n > 1
    ensures ShiftRight(x, n) == Half(Half(ShiftRight(x, n - 2)))
  {
    hide Half;
    assert ShiftRight(x, n - 1) == Half(ShiftRight(x, n - 2));
  }

  lemma ShiftRight8(x: bv32)
    ensures ShiftRight(x, 8) == DropByte(x)
  {
    hide Half, DropByte;
    ShiftRight2(x, 2);
    ShiftRight2(x, 4);
    ShiftRight2(x, 6);
    ShiftRight2(x, 8);
    Halves(x);
  }

  lemma Halves(x: bv32)
    ensures Half(Half(Half(Half(Half(Half(Half(Half(x)))))))) == DropByte(x)
  {
  }

  function TableEntry(k: bv8): bv32 {
    ShiftBits(Widen(k), 8)
  }

  function LowByteOf(v: bv32): bv8 {
    (v & 0xFF) as bv8
  }

  function High(v: bv32): bv32 {
    v & 0xFFFFFF00
  }

  function DropByte(v: bv32): bv32 {
    v >> 8
  }

  /** The byte-at-a-time step through the table. */
  function ByteStep(crc: bv32, b: bv8): bv32 {
    DropByte(crc) ^ TableEntry(LowByteOf(crc ^ Widen(b)))
  }

  /** It is eight bit-serial steps. */
  lemma ByteStepIsSerial(crc: bv32, b: bv8)
    ensures ByteStep(crc, b) == Serial(crc, ByteBits(b))
  {
    hide ShiftBits, Serial, ByteBits, LowByteOf, DropByte, Widen;
    WidenSmall(b);
    ByteStepFrom(crc, Widen(b), crc ^ Widen(b), ByteBits(b));
  }

  lemma WidenSmall(b: bv8)
    ensures DropByte(Widen(b)) == 0
  {
  }

  lemma ByteStepFrom(crc: bv32, b: bv32, v: bv32, m: seq<bool>)
    requires IsXor(crc, b, v) && DropByte(b) == 0
    requires |m| == 8 && forall i :: 0 <= i < 8 ==> m[i] == Bit(b, i)
    ensures DropByte(crc) ^ TableEntry(LowByteOf(v)) == Serial(crc, m)
  {
    hide ShiftBits, Serial, IsXor, ShiftRight, LowByteOf, High, DropByte, Widen, Bit, Half;
    var low, high := Widen(LowByteOf(v)), High(v);
    TakeInAtOnce(crc, b, v, m);
    SplitRegister(v);
    HighLowBits(v);
    EvenParts(high, low, v, 8);
    ShiftRight8(b);
    ShiftRight8(high);
    HighIsOld(crc, b, v);
    Combine(Serial(crc, m), ShiftBits(low, 8), DropByte(crc), ShiftBits(v, 8));
  }

  lemma SplitRegister(v: bv32)
    ensures IsXor(High(v), Widen(LowByteOf(v)), v)
  {
    assert (v & 0xFFFFFF00) ^ (v & 0xFF) == v;
  }

  lemma HighLowBits(v: bv32)
    ensures forall i :: 0 <= i < 8 ==> !Bit(High(v), i)
  {
    hide Bit, High;
    LowByte(High(v));
    HighMasks(v);
  }

  lemma HighMasks(v: bv32)
    ensures High(v) & 1 == 0 && High(v) & 2 == 0 && High(v) & 4 == 0 && High(v) & 8 == 0
    ensures High(v) & 16 == 0 && High(v) & 32 == 0 && High(v) & 64 == 0 && High(v) & 128 == 0
  {
  }

  lemma HighIsOld(crc: bv32, b: bv32, v: bv32)
    requires IsXor(crc, b, v) && DropByte(b) == 0
    ensures DropByte(High(v)) == DropByte(crc)
  {
    DropByteXor(crc, b);
    DropByteHigh(v);
  }

  lemma DropByteXor(x: bv32, y: bv32)
    ensures (x ^ y) >> 8 == (x >> 8) ^ (y >> 8)
  {
  }

  lemma DropByteHigh(v: bv32)
    ensures (v & 0xFFFFFF00) >> 8 == v >> 8
  {
  }

  lemma Combine(next: bv32, entry: bv32, rest: bv32, v: bv32)
    requires IsXor(next, 0, v) && IsXor(entry, rest, v)
    ensures rest ^ entry == next
  {
  }

  lemma RegisterStep(data: seq<bv8>, b: bv8)
    ensures Register(data + [b]) == ByteStep(Register(data), b)
  {
    hide Serial, ByteStep;
    ByteStepIsSerial(Register(data), b);
    assert (data + [b])[..|data|] == data;
    SerialConcat(ALL_ONES, MessageBits(data), ByteBits(b));
  }
}
