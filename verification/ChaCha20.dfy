/** 32-bit words as ChaCha20 uses them: wrapping sums, exclusive or, rotations, little-endian bytes. */
module Words {
  import opened Core

  function Plus(x: bv32, y: bv32): bv32 { x + y }

  function Minus(x: bv32, y: bv32): bv32 { x - y }

  function Xor(x: bv32, y: bv32): bv32 { x ^ y }

  function Rotl16(x: bv32): bv32 { (x << 16) | (x >> 16) }

  function Rotl12(x: bv32): bv32 { (x << 12) | (x >> 20) }

  function Rotl8(x: bv32): bv32 { (x << 8) | (x >> 24) }

  function Rotl7(x: bv32): bv32 { (x << 7) | (x >> 25) }

  function Rotr16(x: bv32): bv32 { (x >> 16) | (x << 16) }

  function Rotr12(x: bv32): bv32 { (x >> 12) | (x << 20) }

  function Rotr8(x: bv32): bv32 { (x >> 8) | (x << 24) }

  function Rotr7(x: bv32): bv32 { (x >> 7) | (x << 25) }

  lemma PlusMinus(x: bv32, y: bv32)
    ensures Minus(Plus(x, y), y) == x
  {
    hide Minus;
    MinusOfSum(x, y);
  }

  lemma MinusOfSum(x: bv32, y: bv32)
    ensures Minus(x + y, y) == x
  {
  }

  lemma MinusPlus(x: bv32, y: bv32)
    ensures Plus(Minus(x, y), y) == x
  {
    hide Plus;
    PlusOfDifference(x, y);
  }

  lemma PlusOfDifference(x: bv32, y: bv32)
    ensures Plus(x - y, y) == x
  {
  }

  lemma XorXor(x: bv32, y: bv32)
    ensures Xor(Xor(x, y), y) == x
  {
  }

  lemma Rotations(x: bv32)
    ensures Rotr16(Rotl16(x)) == x && Rotl16(Rotr16(x)) == x
    ensures Rotr12(Rotl12(x)) == x && Rotl12(Rotr12(x)) == x
    ensures Rotr8(Rotl8(x)) == x && Rotl8(Rotr8(x)) == x
    ensures Rotr7(Rotl7(x)) == x && Rotl7(Rotr7(x)) == x
  {
  }

  function ReadLe32(p: seq<bv8>): bv32
    requires |p| == 4
  {
    p[0] as bv32 | (p[1] as bv32 << 8) | (p[2] as bv32 << 16) | (p[3] as bv32 << 24)
  }

  function WriteLe32(v: bv32): (p: seq<bv8>)
    ensures |p| == 4
  {
    [(v & 0xFF) as bv8, ((v >> 8) & 0xFF) as bv8, ((v >> 16) & 0xFF) as bv8, ((v >> 24) & 0xFF) as bv8]
  }

  lemma Le32RoundTrip(v: bv32)
    ensures ReadLe32(WriteLe32(v)) == v
  {
  }

  lemma Le32RoundTripBytes(p: seq<bv8>)
    requires |p| == 4
    ensures WriteLe32(ReadLe32(p)) == p
  {
  }

  function XorByte(x: bv8, y: bv8): bv8 { x ^ y }

  lemma XorByteTwice(x: bv8, y: bv8)
    ensures XorByte(XorByte(x, y), y) == x
  {
  }

  lemma XorByteCancels(x: bv8, y: bv8, z: bv8)
    ensures XorByte(XorByte(x, z), XorByte(y, z)) == XorByte(x, y)
  {
  }

  lemma XorByteIs(x: bv8, y: bv8)
    ensures XorByte(x, y) == x ^ y
  {
  }

  lemma XorByteZero(x: bv8)
    ensures XorByte(x, 0) == x
  {
  }

  lemma XorByteMoves(x: bv8, y: bv8, z: bv8)
    ensures XorByte(XorByte(x, y), z) == XorByte(x, XorByte(y, z))
  {
  }

  lemma XorByteSwap(x: bv8, y: bv8, z: bv8)
    ensures XorByte(XorByte(x, y), z) == XorByte(XorByte(x, z), y)
  {
  }

  /** A 32-bit counter `n` increments on; it wraps as the machine word does. */
  function CounterAt(c: bv32, n: nat): bv32 {
    if n == 0 then c else Plus(CounterAt(c, n - 1), 1)
  }

  lemma {:induction false} CounterAdds(c: bv32, m: nat, n: nat)
    ensures CounterAt(CounterAt(c, m), n) == CounterAt(c, m + n)
  {
    hide Plus;
    if n == 0 {
    } else {
      CounterAdds(c, m, n - 1);
    }
  }

  /** Four bytes as a little-endian number. */
  function LeValue(p: seq<bv8>): (n: nat)
    requires |p| == 4
    ensures n < 0x1_0000_0000
  {
    Value(p[0]) + 0x100 * Value(p[1]) + 0x1_0000 * Value(p[2]) + 0x100_0000 * Value(p[3])
  }

  lemma WordOfBytes(a: bv8, b: bv8, c: bv8, d: bv8)
    ensures (a as bv32 | (b as bv32 << 8) | (c as bv32 << 16) | (d as bv32 << 24)) as int
         == Value(a) + 0x100 * Value(b) + 0x1_0000 * Value(c) + 0x100_0000 * Value(d)
  {
  }

  /** The number a word stands for is that of its little-endian bytes. */
  lemma WordValue(x: bv32)
    ensures x as int == LeValue(WriteLe32(x))
  {
    hide Value, WriteLe32;
    var p := WriteLe32(x);
    Le32RoundTrip(x);
    WordOfBytes(p[0], p[1], p[2], p[3]);
  }

  /** The bytes b are one more than the bytes a, with the carry handed on. */
  predicate NextBytes(a0: bv8, a1: bv8, a2: bv8, a3: bv8, b0: bv8, b1: bv8, b2: bv8, b3: bv8) {
    if a0 != 0xFF then b0 == a0 + 1 && b1 == a1 && b2 == a2 && b3 == a3
    else if a1 != 0xFF then b0 == 0 && b1 == a1 + 1 && b2 == a2 && b3 == a3
    else if a2 != 0xFF then b0 == 0 && b1 == 0 && b2 == a2 + 1 && b3 == a3
    else b0 == 0 && b1 == 0 && b2 == 0 && b3 == a3 + 1
  }

  lemma BytesOfNext(x: bv32)
    ensures var (p, q) := (WriteLe32(x), WriteLe32(Plus(x, 1)));
            NextBytes(p[0], p[1], p[2], p[3], q[0], q[1], q[2], q[3])
  {
  }

  lemma ValueOfNext(b: bv8)
    ensures Value(b + 1) == if b == 0xFF then 0 else Value(b) + 1
  {
  }

  lemma ValueOfEnds()
    ensures Value(0) == 0 && Value(0xFF) == 0xFF
  {
  }

  lemma NextValue(x: bv32)
    ensures LeValue(WriteLe32(Plus(x, 1))) == (LeValue(WriteLe32(x)) + 1) % 0x1_0000_0000
  {
    hide Value, WriteLe32, Plus;
    var (p, q) := (WriteLe32(x), WriteLe32(Plus(x, 1)));
    BytesOfNext(x);
    ValueOfEnds();
    NextNumber(p[0], p[1], p[2], p[3], q[0], q[1], q[2], q[3]);
  }

  lemma NextNumber(a0: bv8, a1: bv8, a2: bv8, a3: bv8, b0: bv8, b1: bv8, b2: bv8, b3: bv8)
    requires NextBytes(a0, a1, a2, a3, b0, b1, b2, b3)
    ensures Value(b0) + 0x100 * Value(b1) + 0x1_0000 * Value(b2) + 0x100_0000 * Value(b3)
         == (Value(a0) + 0x100 * Value(a1) + 0x1_0000 * Value(a2) + 0x100_0000 * Value(a3) + 1) % 0x1_0000_0000
  {
    hide Value;
    ValueOfEnds();
    ValueOfNext(a0);
    ValueOfNext(a1);
    ValueOfNext(a2);
    ValueOfNext(a3);
  }

  lemma {:induction false} CounterBytes(c: bv32, n: nat)
    ensures LeValue(WriteLe32(CounterAt(c, n))) == (LeValue(WriteLe32(c)) + n) % 0x1_0000_0000
  {
    hide WriteLe32, LeValue, Plus;
    if n == 0 {
    } else {
      CounterBytes(c, n - 1);
      NextValue(CounterAt(c, n - 1));
      OneMore(LeValue(WriteLe32(c)), n - 1);
    }
  }

  /** The counter as a number: `n` blocks on it has grown by `n`, modulo 2^32. */
  lemma CounterIsSum(c: bv32, n: nat)
    ensures CounterAt(c, n) as int == (c as int + n) % 0x1_0000_0000
  {
    hide WriteLe32, LeValue, CounterAt;
    CounterBytes(c, n);
    WordValue(c);
    WordValue(CounterAt(c, n));
  }

  lemma OneMore(c: nat, n: nat)
    ensures ((c + n) % 0x1_0000_0000 + 1) % 0x1_0000_0000 == (c + (n + 1)) % 0x1_0000_0000
  {
  }
}

/** The ChaCha20 permutation, section 2.1 to 2.3 of RFC 8439. */
module ChaChaCore {
  import opened Words

  datatype Quad = Quad(a: bv32, b: bv32, c: bv32, d: bv32)

  /** src/crypto/chacha20.cpp:25-30 */
  function QuarterRound(q: Quad): Quad {
    var a1 := Plus(q.a, q.b);
    var d1 := Rotl16(Xor(q.d, a1));
    var c1 := Plus(q.c, d1);
    var b1 := Rotl12(Xor(q.b, c1));
    var a2 := Plus(a1, b1);
    var d2 := Rotl8(Xor(d1, a2));
    var c2 := Plus(c1, d2);
    var b2 := Rotl7(Xor(b1, c2));
    Quad(a2, b2, c2, d2)
  }

  function UnQuarterRound(q: Quad): Quad {
    var b1 := Xor(Rotr7(q.b), q.c);
    var c1 := Minus(q.c, q.d);
    var d1 := Xor(Rotr8(q.d), q.a);
    var a1 := Minus(q.a, b1);
    var b := Xor(Rotr12(b1), c1);
    var c := Minus(c1, d1);
    var d := Xor(Rotr16(d1), a1);
    Quad(Minus(a1, b), b, c, d)
  }

  lemma QuarterRoundUndone(q: Quad)
    ensures UnQuarterRound(QuarterRound(q)) == q
  {
    hide Plus, Minus, Xor, Rotl16, Rotl12, Rotl8, Rotl7, Rotr16, Rotr12, Rotr8, Rotr7;
    var a1 := Plus(q.a, q.b);
    var d1 := Rotl16(Xor(q.d, a1));
    var c1 := Plus(q.c, d1);
    var b1 := Rotl12(Xor(q.b, c1));
    var a2 := Plus(a1, b1);
    var d2 := Rotl8(Xor(d1, a2));
    var c2 := Plus(c1, d2);
    Rotations(Xor(b1, c2));
    XorXor(b1, c2);
    PlusMinus(c1, d2);
    Rotations(Xor(d1, a2));
    XorXor(d1, a2);
    PlusMinus(a1, b1);
    Rotations(Xor(q.b, c1));
    XorXor(q.b, c1);
    PlusMinus(q.c, d1);
    Rotations(Xor(q.d, a1));
    XorXor(q.d, a1);
    PlusMinus(q.a, q.b);
  }

  lemma QuarterRoundReached(q: Quad)
    ensures QuarterRound(UnQuarterRound(q)) == q
  {
    hide Plus, Minus, Xor, Rotl16, Rotl12, Rotl8, Rotl7, Rotr16, Rotr12, Rotr8, Rotr7;
    var b1 := Xor(Rotr7(q.b), q.c);
    var c1 := Minus(q.c, q.d);
    var d1 := Xor(Rotr8(q.d), q.a);
    var a1 := Minus(q.a, b1);
    var b := Xor(Rotr12(b1), c1);
    MinusPlus(a1, b);
    XorXor(Rotr16(d1), a1);
    Rotations(d1);
    MinusPlus(c1, d1);
    XorXor(Rotr12(b1), c1);
    Rotations(b1);
    MinusPlus(q.a, b1);
    XorXor(Rotr8(q.d), q.a);
    Rotations(q.d);
    MinusPlus(q.c, q.d);
    XorXor(Rotr7(q.b), q.c);
    Rotations(q.b);
  }

  predicate Lanes(a: nat, b: nat, c: nat, d: nat) {
    a < 16 && b < 16 && c < 16 && d < 16 && a != b && a != c && a != d && b != c && b != d && c != d
  }

  function Load(s: seq<bv32>, a: nat, b: nat, c: nat, d: nat): Quad
    requires |s| == 16 && Lanes(a, b, c, d)
  {
    Quad(s[a], s[b], s[c], s[d])
  }

  function Put(s: seq<bv32>, a: nat, b: nat, c: nat, d: nat, q: Quad): (t: seq<bv32>)
    requires |s| == 16 && Lanes(a, b, c, d)
    ensures |t| == 16
  {
    s[a := q.a][b := q.b][c := q.c][d := q.d]
  }

  /** The quarter round applied to four words of the state. */
  function Quarter(s: seq<bv32>, a: nat, b: nat, c: nat, d: nat): (t: seq<bv32>)
    requires |s| == 16 && Lanes(a, b, c, d)
    ensures |t| == 16
  {
    Put(s, a, b, c, d, QuarterRound(Load(s, a, b, c, d)))
  }

  function UnQuarter(s: seq<bv32>, a: nat, b: nat, c: nat, d: nat): (t: seq<bv32>)
    requires |s| == 16 && Lanes(a, b, c, d)
    ensures |t| == 16
  {
    Put(s, a, b, c, d, UnQuarterRound(Load(s, a, b, c, d)))
  }

  lemma LoadPut(s: seq<bv32>, a: nat, b: nat, c: nat, d: nat, q: Quad)
    requires |s| == 16 && Lanes(a, b, c, d)
    ensures Load(Put(s, a, b, c, d, q), a, b, c, d) == q
    ensures Put(Put(s, a, b, c, d, q), a, b, c, d, Load(s, a, b, c, d)) == s
  {
  }

  lemma QuarterInverse(s: seq<bv32>, a: nat, b: nat, c: nat, d: nat)
    requires |s| == 16 && Lanes(a, b, c, d)
    ensures UnQuarter(Quarter(s, a, b, c, d), a, b, c, d) == s
    ensures Quarter(UnQuarter(s, a, b, c, d), a, b, c, d) == s
  {
    hide QuarterRound, UnQuarterRound, Load, Put;
    var q := Load(s, a, b, c, d);
    LoadPut(s, a, b, c, d, QuarterRound(q));
    LoadPut(s, a, b, c, d, UnQuarterRound(q));
    QuarterRoundUndone(q);
    QuarterRoundReached(q);
  }

  function ColumnRound(s: seq<bv32>): (t: seq<bv32>)
    requires |s| == 16
    ensures |t| == 16
  {
    Quarter(Quarter(Quarter(Quarter(s, 0, 4, 8, 12), 1, 5, 9, 13), 2, 6, 10, 14), 3, 7, 11, 15)
  }

  function DiagonalRound(s: seq<bv32>): (t: seq<bv32>)
    requires |s| == 16
    ensures |t| == 16
  {
    Quarter(Quarter(Quarter(Quarter(s, 0, 5, 10, 15), 1, 6, 11, 12), 2, 7, 8, 13), 3, 4, 9, 14)
  }

  function UnColumnRound(s: seq<bv32>): (t: seq<bv32>)
    requires |s| == 16
    ensures |t| == 16
  {
    UnQuarter(UnQuarter(UnQuarter(UnQuarter(s, 3, 7, 11, 15), 2, 6, 10, 14), 1, 5, 9, 13), 0, 4, 8, 12)
  }

  function UnDiagonalRound(s: seq<bv32>): (t: seq<bv32>)
    requires |s| == 16
    ensures |t| == 16
  {
    UnQuarter(UnQuarter(UnQuarter(UnQuarter(s, 3, 4, 9, 14), 2, 7, 8, 13), 1, 6, 11, 12), 0, 5, 10, 15)
  }

  lemma ColumnInverse(s: seq<bv32>)
    requires |s| == 16
    ensures UnColumnRound(ColumnRound(s)) == s && ColumnRound(UnColumnRound(s)) == s
  {
    hide Quarter, UnQuarter;
    var s1 := Quarter(s, 0, 4, 8, 12);
    var s2 := Quarter(s1, 1, 5, 9, 13);
    var s3 := Quarter(s2, 2, 6, 10, 14);
    QuarterInverse(s, 0, 4, 8, 12);
    QuarterInverse(s1, 1, 5, 9, 13);
    QuarterInverse(s2, 2, 6, 10, 14);
    QuarterInverse(s3, 3, 7, 11, 15);
    var u1 := UnQuarter(s, 3, 7, 11, 15);
    var u2 := UnQuarter(u1, 2, 6, 10, 14);
    var u3 := UnQuarter(u2, 1, 5, 9, 13);
    QuarterInverse(s, 3, 7, 11, 15);
    QuarterInverse(u1, 2, 6, 10, 14);
    QuarterInverse(u2, 1, 5, 9, 13);
    QuarterInverse(u3, 0, 4, 8, 12);
  }

  lemma DiagonalInverse(s: seq<bv32>)
    requires |s| == 16
    ensures UnDiagonalRound(DiagonalRound(s)) == s && DiagonalRound(UnDiagonalRound(s)) == s
  {
    hide Quarter, UnQuarter;
    var s1 := Quarter(s, 0, 5, 10, 15);
    var s2 := Quarter(s1, 1, 6, 11, 12);
    var s3 := Quarter(s2, 2, 7, 8, 13);
    QuarterInverse(s, 0, 5, 10, 15);
    QuarterInverse(s1, 1, 6, 11, 12);
    QuarterInverse(s2, 2, 7, 8, 13);
    QuarterInverse(s3, 3, 4, 9, 14);
    var u1 := UnQuarter(s, 3, 4, 9, 14);
    var u2 := UnQuarter(u1, 2, 7, 8, 13);
    var u3 := UnQuarter(u2, 1, 6, 11, 12);
    QuarterInverse(s, 3, 4, 9, 14);
    QuarterInverse(u1, 2, 7, 8, 13);
    QuarterInverse(u2, 1, 6, 11, 12);
    QuarterInverse(u3, 0, 5, 10, 15);
  }

  /** `n` double rounds. */
  function Rounds(s: seq<bv32>, n: nat): (t: seq<bv32>)
    requires |s| == 16
    ensures |t| == 16
  {
    if n == 0 then s else DiagonalRound(ColumnRound(Rounds(s, n - 1)))
  }

  function UnRounds(s: seq<bv32>, n: nat): (t: seq<bv32>)
    requires |s| == 16
    ensures |t| == 16
    decreases n
  {
    if n == 0 then s else UnRounds(UnColumnRound(UnDiagonalRound(s)), n - 1)
  }

  /** The rounds are a bijection on states: `UnRounds` undoes them, and every state is reached. */
  lemma {:induction false} RoundsBijective(s: seq<bv32>, n: nat)
    requires |s| == 16
    ensures UnRounds(Rounds(s, n), n) == s
    ensures Rounds(UnRounds(s, n), n) == s
    decreases n
  {
    hide ColumnRound, DiagonalRound, UnColumnRound, UnDiagonalRound;
    if n == 0 {
    } else {
      var t := Rounds(s, n - 1);
      RoundsBijective(s, n - 1);
      ColumnInverse(t);
      DiagonalInverse(ColumnRound(t));
      var u := UnDiagonalRound(s);
      RoundsBijective(UnColumnRound(u), n - 1);
      ColumnInverse(u);
      DiagonalInverse(s);
    }
  }
}

/** The ChaCha20 stream cipher, section 2.4 of RFC 8439. */
module ChaCha20 {
  import opened Core
  import opened Words
  import opened ChaChaCore

  /** Words as little-endian bytes. */
  function Serialize(ws: seq<bv32>): (bs: seq<bv8>)
    ensures |bs| == 4 * |ws|
  {
    if ws == [] then [] else Serialize(ws[..|ws| - 1]) + WriteLe32(ws[|ws| - 1])
  }

  function Deserialize(bs: seq<bv8>): (ws: seq<bv32>)
    requires |bs| % 4 == 0
    ensures |ws| == |bs| / 4
  {
    if bs == [] then [] else Deserialize(bs[..|bs| - 4]) + [ReadLe32(bs[|bs| - 4..])]
  }

  function AddStates(s: seq<bv32>, t: seq<bv32>): (r: seq<bv32>)
    requires |s| == |t|
    ensures |r| == |s| && forall i :: 0 <= i < |s| ==> r[i] == Plus(s[i], t[i])
  {
    seq(|s|, i requires 0 <= i < |s| => Plus(s[i], t[i]))
  }

  /** The 64 keystream bytes of one block. */
  function Block(state: seq<bv32>): (out: seq<bv8>)
    requires |state| == 16
    ensures |out| == 64
  {
    Serialize(AddStates(Rounds(state, 10), state))
  }

  predicate KeySizeOk(key: seq<bv8>) {
    44 <= |key| <= 48
  }

  /** Constants, eight key words, counter, three nonce words. The counter is read only from a 48-byte key. */
  function InitialState(key: seq<bv8>): (s: seq<bv32>)
    requires KeySizeOk(key)
    ensures |s| == 16
  {
    [0x61707865, 0x3320646e, 0x79622d32, 0x6b206574] + Deserialize(key[..32])
    + [if |key| >= 48 then ReadLe32(key[44..48]) else 0] + Deserialize(key[32..44])
  }

  /** "expand 32-byte k" */
  const SIGMA: seq<bv8> :=
    [0x65, 0x78, 0x70, 0x61, 0x6e, 0x64, 0x20, 0x33, 0x32, 0x2d, 0x62, 0x79, 0x74, 0x65, 0x20, 0x6b]

  lemma {:induction false} SerializeConcat(a: seq<bv32>, b: seq<bv32>)
    ensures Serialize(a + b) == Serialize(a) + Serialize(b)
    decreases |b|
  {
    hide WriteLe32;
    if b == [] {
      assert a + b == a;
    } else {
      assert (a + b)[..|a + b| - 1] == a + b[..|b| - 1];
      SerializeConcat(a, b[..|b| - 1]);
    }
  }

  lemma {:induction false} SerializeDeserialize(bs: seq<bv8>)
    requires |bs| % 4 == 0
    ensures Serialize(Deserialize(bs)) == bs
    decreases |bs|
  {
    hide WriteLe32, ReadLe32;
    if bs == [] {
    } else {
      var (front, last) := (bs[..|bs| - 4], bs[|bs| - 4..]);
      SerializeDeserialize(front);
      Le32RoundTripBytes(last);
      var ws := Deserialize(front);
      assert (ws + [ReadLe32(last)])[..|ws|] == ws;
    }
  }

  lemma SerializeNothing()
    ensures Serialize([]) == []
  {
  }

  lemma SerializeOne(w: bv32)
    ensures Serialize([w]) == WriteLe32(w)
  {
    hide WriteLe32;
    assert [w][..0] == [];
  }

  lemma SerializeConstants()
    ensures Serialize([0x61707865, 0x3320646e, 0x79622d32, 0x6b206574]) == SIGMA
  {
    hide WriteLe32, Serialize;
    var (a, b, c, d) := (0x61707865 as bv32, 0x3320646e as bv32, 0x79622d32 as bv32, 0x6b206574 as bv32);
    WriteConstants();
    SerializeOne(a);
    SerializeOne(b);
    SerializeOne(c);
    SerializeOne(d);
    SerializeConcat([a], [b]);
    SerializeConcat([a] + [b], [c]);
    SerializeConcat([a] + [b] + [c], [d]);
    assert [a] + [b] + [c] + [d] == [a, b, c, d];
  }

  lemma WriteConstants()
    ensures WriteLe32(0x61707865) == [0x65, 0x78, 0x70, 0x61]
    ensures WriteLe32(0x3320646e) == [0x6e, 0x64, 0x20, 0x33]
    ensures WriteLe32(0x79622d32) == [0x32, 0x2d, 0x62, 0x79]
    ensures WriteLe32(0x6b206574) == [0x74, 0x65, 0x20, 0x6b]
  {
  }

  /** The state, byte by byte: the constant text, the key, the counter and the nonce, section 2.3 of RFC 8439. */
  lemma StateLayout(key: seq<bv8>)
    requires KeySizeOk(key)
    ensures Serialize(InitialState(key))
         == SIGMA + key[..32] + (if |key| >= 48 then key[44..48] else [0, 0, 0, 0]) + key[32..44]
  {
    hide Serialize, Deserialize, ReadLe32, WriteLe32;
    var constants: seq<bv32> := [0x61707865, 0x3320646e, 0x79622d32, 0x6b206574];
    var counter := if |key| >= 48 then ReadLe32(key[44..48]) else 0;
    SerializeConstants();
    SerializeDeserialize(key[..32]);
    SerializeDeserialize(key[32..44]);
    SerializeOne(counter);
    if |key| >= 48 {
      Le32RoundTripBytes(key[44..48]);
    } else {
      WriteZero();
    }
    SerializeConcat(constants, Deserialize(key[..32]));
    SerializeConcat(constants + Deserialize(key[..32]), [counter]);
    SerializeConcat(constants + Deserialize(key[..32]) + [counter], Deserialize(key[32..44]));
  }

  lemma WriteZero()
    ensures WriteLe32(0) == [0, 0, 0, 0]
  {
  }

  /** The state `n` blocks on. */
  function Advance(state: seq<bv32>, n: nat): (s: seq<bv32>)
    requires |state| == 16
    ensures |s| == 16
  {
    state[12 := CounterAt(state[12], n)]
  }

  /** Byte `k` of the keystream. */
  function Keystream(state: seq<bv32>, k: nat): bv8
    requires |state| == 16
  {
    Block(Advance(state, k / 64))[k % 64]
  }

  function Crypt(data: seq<bv8>, state: seq<bv32>): (out: seq<bv8>)
    requires |state| == 16
    ensures |out| == |data|
    ensures forall k :: 0 <= k < |data| ==> out[k] == XorByte(data[k], Keystream(state, k))
  {
    seq(|data|, k requires 0 <= k < |data| => XorByte(data[k], Keystream(state, k)))
  }

  // ---------------------------------------------------------------- properties of the stream

  /** Encrypting twice with the same key buffer gives the data back. */
  lemma CryptInvolution(data: seq<bv8>, state: seq<bv32>)
    requires |state| == 16
    ensures Crypt(Crypt(data, state), state) == data
  {
    hide XorByte, Keystream;
    var once := Crypt(data, state);
    forall k | 0 <= k < |data|
      ensures Crypt(once, state)[k] == data[k]
    {
      XorByteTwice(data[k], Keystream(state, k));
    }
  }

  /** Layers with different keys commute. */
  lemma CryptCommutes(data: seq<bv8>, s: seq<bv32>, t: seq<bv32>)
    requires |s| == |t| == 16
    ensures Crypt(Crypt(data, s), t) == Crypt(Crypt(data, t), s)
  {
    hide XorByte, Keystream;
    var st, ts := Crypt(Crypt(data, s), t), Crypt(Crypt(data, t), s);
    forall k | 0 <= k < |data|
      ensures st[k] == ts[k]
    {
      XorByteSwap(data[k], Keystream(s, k), Keystream(t, k));
    }
  }

  lemma AdvanceAdds(state: seq<bv32>, m: nat, n: nat)
    requires |state| == 16
    ensures Advance(Advance(state, m), n) == Advance(state, m + n)
  {
    hide CounterAt;
    CounterAdds(state[12], m, n);
  }

  lemma KeystreamSeek(state: seq<bv32>, m: nat, k: nat)
    requires |state| == 16
    ensures Keystream(state, 64 * m + k) == Keystream(Advance(state, m), k)
  {
    hide Block, Advance;
    AdvanceAdds(state, m, k / 64);
    assert (64 * m + k) / 64 == m + k / 64 && (64 * m + k) % 64 == k % 64;
  }

  /** A message may be encrypted in pieces that end on block boundaries, with the counter moved on accordingly. */
  lemma CryptSeek(a: seq<bv8>, b: seq<bv8>, state: seq<bv32>)
    requires |state| == 16 && |a| % 64 == 0
    ensures Crypt(a + b, state) == Crypt(a, state) + Crypt(b, Advance(state, |a| / 64))
  {
    hide XorByte, Keystream, Advance;
    var whole, pieces := Crypt(a + b, state), Crypt(a, state) + Crypt(b, Advance(state, |a| / 64));
    forall k | 0 <= k < |whole|
      ensures whole[k] == pieces[k]
    {
      if k >= |a| {
        KeystreamSeek(state, |a| / 64, k - |a|);
      }
    }
  }

  /** A 48-byte key with its counter moved on by `n`. */
  function AdvanceKey(key: seq<bv8>, n: nat): (k: seq<bv8>)
    requires |key| == 48
    ensures |k| == 48
  {
    key[..44] + WriteLe32(CounterAt(ReadLe32(key[44..48]), n))
  }

  /** In it only the counter field has changed, and reads as the sum modulo 2^32. */
  lemma AdvancedKeyCounts(key: seq<bv8>, n: nat)
    requires |key| == 48
    ensures AdvanceKey(key, n)[..44] == key[..44]
    ensures LeValue(AdvanceKey(key, n)[44..48]) == (LeValue(key[44..48]) + n) % 0x1_0000_0000
  {
    hide WriteLe32, ReadLe32, CounterAt, LeValue;
    Le32RoundTripBytes(key[44..48]);
    CounterBytes(ReadLe32(key[44..48]), n);
    assert AdvanceKey(key, n)[44..48] == WriteLe32(CounterAt(ReadLe32(key[44..48]), n));
  }

  /** The same in terms of key buffers. */
  lemma KeySeek(a: seq<bv8>, b: seq<bv8>, key: seq<bv8>)
    requires |key| == 48 && |a| % 64 == 0
    ensures Crypt(a + b, InitialState(key))
         == Crypt(a, InitialState(key)) + Crypt(b, InitialState(AdvanceKey(key, |a| / 64)))
  {
    hide WriteLe32, ReadLe32, CounterAt, Crypt;
    var n := |a| / 64;
    var key' := AdvanceKey(key, n);
    CryptSeek(a, b, InitialState(key));
    assert key'[..32] == key[..32] && key'[32..44] == key[32..44];
    assert key'[44..48] == WriteLe32(CounterAt(ReadLe32(key[44..48]), n));
    Le32RoundTrip(CounterAt(ReadLe32(key[44..48]), n));
    assert InitialState(key') == Advance(InitialState(key), n);
  }

  // ---------------------------------------------------------------- the code

  function Rotl(v: bv32, r: nat): bv32 {
    if r == 16 then Rotl16(v) else if r == 12 then Rotl12(v) else if r == 8 then Rotl8(v) else Rotl7(v)
  }

  /** One line of the quarter round: x += y; z ^= x; z rotated left by r. */
  function Turned(s: seq<bv32>, x: nat, y: nat, z: nat, r: nat): (t: seq<bv32>)
    requires |s| == 16 && x < 16 && y < 16 && z < 16
    ensures |t| == 16
  {
    var sum := Plus(s[x], s[y]);
    s[x := sum][z := Rotl(Xor(s[z], sum), r)]
  }

  lemma TurnOnAd(s: seq<bv32>, a: nat, b: nat, c: nat, d: nat, q: Quad, r: nat)
    requires |s| == 16 && Lanes(a, b, c, d)
    ensures var sum := Plus(q.a, q.b);
            Turned(Put(s, a, b, c, d, q), a, b, d, r) == Put(s, a, b, c, d, Quad(sum, q.b, q.c, Rotl(Xor(q.d, sum), r)))
  {
    hide Plus, Xor, Rotl;
  }

  lemma TurnOnCb(s: seq<bv32>, a: nat, b: nat, c: nat, d: nat, q: Quad, r: nat)
    requires |s| == 16 && Lanes(a, b, c, d)
    ensures var sum := Plus(q.c, q.d);
            Turned(Put(s, a, b, c, d, q), c, d, b, r) == Put(s, a, b, c, d, Quad(q.a, Rotl(Xor(q.b, sum), r), sum, q.d))
  {
    hide Plus, Xor, Rotl;
  }

  /** The four lines of the source make the quarter round. */
  lemma TurnsMakeQuarter(s: seq<bv32>, a: nat, b: nat, c: nat, d: nat)
    requires |s| == 16 && Lanes(a, b, c, d)
    ensures Turned(Turned(Turned(Turned(s, a, b, d, 16), c, d, b, 12), a, b, d, 8), c, d, b, 7)
         == Quarter(s, a, b, c, d)
  {
    hide Plus, Xor, Rotl16, Rotl12, Rotl8, Rotl7, Turned, Put;
    var q := Load(s, a, b, c, d);
    PutLoaded(s, a, b, c, d);
    var a1 := Plus(q.a, q.b);
    var q1 := Quad(a1, q.b, q.c, Rotl16(Xor(q.d, a1)));
    TurnOnAd(s, a, b, c, d, q, 16);
    var c1 := Plus(q1.c, q1.d);
    var q2 := Quad(q1.a, Rotl12(Xor(q1.b, c1)), c1, q1.d);
    TurnOnCb(s, a, b, c, d, q1, 12);
    var a2 := Plus(q2.a, q2.b);
    var q3 := Quad(a2, q2.b, q2.c, Rotl8(Xor(q2.d, a2)));
    TurnOnAd(s, a, b, c, d, q2, 8);
    TurnOnCb(s, a, b, c, d, q3, 7);
  }

  lemma PutLoaded(s: seq<bv32>, a: nat, b: nat, c: nat, d: nat)
    requires |s| == 16 && Lanes(a, b, c, d)
    ensures Put(s, a, b, c, d, Load(s, a, b, c, d)) == s
  {
  }

  method Turn(w: array<bv32>, x: nat, y: nat, z: nat, r: nat)
    requires w.Length == 16 && x < 16 && y < 16 && z < 16 && x != z
    modifies w
    ensures w[..] == Turned(old(w[..]), x, y, z, r)
  {
    hide Plus, Xor, Rotl;
    w[x] := Plus(w[x], w[y]);
    w[z] := Xor(w[z], w[x]);
    w[z] := Rotl(w[z], r);
  }

  /** Each of the four words is updated in place, in the order of the source. */
  method QuarterRoundInPlace(w: array<bv32>, a: nat, b: nat, c: nat, d: nat)
    requires w.Length == 16 && Lanes(a, b, c, d)
    modifies w
    ensures w[..] == Quarter(old(w[..]), a, b, c, d)
  {
    hide Turned, Quarter;
    TurnsMakeQuarter(w[..], a, b, c, d);
    Turn(w, a, b, d, 16);
    Turn(w, c, d, b, 12);
    Turn(w, a, b, d, 8);
    Turn(w, c, d, b, 7);
  }

  method BlockInto(state: array<bv32>, out: array<bv8>)
    requires state.Length == 16 && out.Length == 64
    modifies out
    ensures out[..] == Block(state[..])
  {
    hide Plus, WriteLe32, Quarter;
    var working := new bv32[16];
    forall i | 0 <= i < 16 {
      working[i] := state[i];
    }
    assert working[..] == state[..];
    var i := 0;
    while i < 10
      invariant 0 <= i <= 10 && working[..] == Rounds(state[..], i)
    {
      ghost var before := working[..];
      QuarterRoundInPlace(working, 0, 4, 8, 12);
      QuarterRoundInPlace(working, 1, 5, 9, 13);
      QuarterRoundInPlace(working, 2, 6, 10, 14);
      QuarterRoundInPlace(working, 3, 7, 11, 15);
      assert working[..] == ColumnRound(before);
      QuarterRoundInPlace(working, 0, 5, 10, 15);
      QuarterRoundInPlace(working, 1, 6, 11, 12);
      QuarterRoundInPlace(working, 2, 7, 8, 13);
      QuarterRoundInPlace(working, 3, 4, 9, 14);
      i := i + 1;
    }
    AddInPlace(working, state);
    SerializeInto(working, out);
  }

  method AddInPlace(working: array<bv32>, state: array<bv32>)
    requires working.Length == state.Length == 16 && working != state
    modifies working
    ensures working[..] == AddStates(old(working[..]), state[..])
  {
    hide Plus;
    var i := 0;
    while i < 16
      invariant 0 <= i <= 16
      invariant forall j :: 0 <= j < i ==> working[j] == Plus(old(working[j]), state[j])
      invariant forall j :: i <= j < 16 ==> working[j] == old(working[j])
    {
      working[i] := Plus(working[i], state[i]);
      i := i + 1;
    }
  }

  method SerializeInto(words: array<bv32>, out: array<bv8>)
    requires words.Length == 16 && out.Length == 64
    modifies out
    ensures out[..] == Serialize(words[..])
  {
    hide WriteLe32, Serialize;
    SerializeNothing();
    var i := 0;
    while i < 16
      invariant 0 <= i <= 16
      invariant out[..4 * i] == Serialize(words[..i])
    {
      var p := WriteLe32(words[i]);
      ghost var done := out[..4 * i];
      out[4 * i], out[4 * i + 1], out[4 * i + 2], out[4 * i + 3] := p[0], p[1], p[2], p[3];
      assert out[..4 * (i + 1)] == done + p;
      SerializeConcat(words[..i], [words[i]]);
      SerializeOne(words[i]);
      assert words[..i + 1] == words[..i] + [words[i]];
      i := i + 1;
    }
    assert words[..16] == words[..] && out[..64] == out[..];
  }

  lemma DeserializeNext(bs: seq<bv8>, i: nat)
    requires 4 * (i + 1) <= |bs|
    ensures Deserialize(bs[..4 * (i + 1)]) == Deserialize(bs[..4 * i]) + [ReadLe32(bs[4 * i..4 * i + 4])]
  {
    hide ReadLe32;
    assert bs[..4 * (i + 1)][..4 * i] == bs[..4 * i];
    assert bs[..4 * (i + 1)][4 * i..] == bs[4 * i..4 * i + 4];
  }

  /** Fills four-byte words of `state` from `at` on. */
  method LoadWords(state: array<bv32>, at: nat, bytes: array<bv8>, offset: nat, n: nat)
    requires at + n <= state.Length && offset + 4 * n <= bytes.Length
    modifies state
    ensures state[..] == Splice(old(state[..]), at, Deserialize(bytes[offset..offset + 4 * n]))
  {
    hide ReadLe32, Deserialize, Splice;
    DeserializeNothing();
    var i := 0;
    ghost var bs, before := bytes[offset..offset + 4 * n], state[..];
    assert bs[..0] == [];
    SpliceNothing(before, at);
    while i < n
      invariant 0 <= i <= n
      invariant state[..] == Splice(before, at, Deserialize(bs[..4 * i]))
    {
      DeserializeNext(bs, i);
      assert bs[4 * i..4 * i + 4] == bytes[offset + 4 * i..offset + 4 * i + 4];
      var word := ReadLe32(bytes[offset + 4 * i..offset + 4 * i + 4]);
      SpliceNext(before, at, Deserialize(bs[..4 * i]), word);
      state[at + i] := word;
      i := i + 1;
    }
    assert bs[..4 * n] == bs;
  }

  lemma DeserializeNothing()
    ensures Deserialize([]) == []
  {
  }

  method SetUp(key: Buffer) returns (state: array<bv32>)
    requires key.Valid() && KeySizeOk(key.Contents())
    ensures fresh(state) && state.Length == 16 && state[..] == InitialState(key.Contents())
  {
    hide ReadLe32, Deserialize;
    ghost var k := key.Contents();
    var counter: bv32 := 0;
    if key.size >= 48 {
      counter := ReadLe32(key.data[44..48]);
      assert key.data[44..48] == k[44..48];
    }
    state := new bv32[16](_ => 0);
    state[0], state[1], state[2], state[3] := 0x61707865, 0x3320646e, 0x79622d32, 0x6b206574;
    ghost var constants := [0x61707865, 0x3320646e, 0x79622d32, 0x6b206574];
    assert state[..4] == constants;
    LoadWords(state, 4, key.data, 0, 8);
    assert key.data[0..32] == k[..32];
    assert state[..12] == constants + Deserialize(k[..32]);
    state[12] := counter;
    assert state[..13] == constants + Deserialize(k[..32]) + [counter];
    LoadWords(state, 13, key.data, 32, 3);
    assert key.data[32..44] == k[32..44];
    assert state[..] == state[..13] + Deserialize(k[32..44]);
  }

  /** Encrypts and decrypts. `output` may be `data` itself, or share its bytes: each byte is read before it is
      overwritten. */
  method CryptInto(data: Buffer, key: Buffer, output: Buffer) returns (err: ErrorCode)
    requires data.Valid() && key.Valid() && output.Valid()
    modifies output, output.data
    ensures output.Valid() && output.data == old(output.data)
    ensures old(key.size < 44 || key.size > 48) ==> err == ERR_CRYPTO
    ensures old(44 <= key.size <= 48) && old(data.size > output.size) ==> err == ERR_FORMAT
    ensures old(44 <= key.size <= 48) && old(data.size <= output.size) ==>
              && err == OK
              && output.Contents() == Crypt(old(data.Contents()), InitialState(old(key.Contents())))
              && Bytes(output.data)[output.size..] == old(Bytes(output.data))[output.size..]
    ensures err != OK ==> output.size == old(output.size) && Bytes(output.data) == old(Bytes(output.data))
  {
    hide Crypt, InitialState;
    if key.size < 44 || key.size > 48 {
      return ERR_CRYPTO;
    }
    if data.size > output.size {
      return ERR_FORMAT;
    }
    var state := SetUp(key);
    if data.size > 0 {
      Stream(data.data, data.size, state, output.data);
    }
    output.size := data.size;
    return OK;
  }

  /** The block loop; `output` may be `data`. */
  method Stream(data: array<bv8>, n: nat, state: array<bv32>, output: array<bv8>)
    requires n <= data.Length && n <= output.Length && state.Length == 16
    modifies state, output
    ensures output[..n] == Crypt(old(data[..n]), old(state[..]))
    ensures output[n..] == old(output[n..])
  {
    hide XorByte, Block, Plus;
    ghost var start, input := state[..], data[..n];
    var keystream := new bv8[64];
    var offset := 0;
    ghost var blocks := 0;
    assert state[..] == Advance(start, 0);
    while offset < n
      invariant 0 <= offset <= n
      invariant offset == if 64 * blocks < n then 64 * blocks else n
      invariant state[..] == Advance(start, blocks)
      invariant forall k :: 0 <= k < offset ==> output[k] == XorByte(input[k], Keystream(start, k))
      invariant forall k :: offset <= k < n ==> data[k] == input[k]
      invariant output[n..] == old(output[n..])
    {
      BlockInto(state, keystream);
      ghost var ks := keystream[..];
      var blockSize := n - offset;
      if blockSize > 64 {
        blockSize := 64;
      }
      XorInto(output, data, keystream, offset, blockSize);
      forall k | offset <= k < offset + blockSize
        ensures output[k] == XorByte(input[k], Keystream(start, k))
      {
        assert k / 64 == blocks && k % 64 == k - offset;
        assert ks[k - offset] == Keystream(start, k);
      }
      offset := offset + blockSize;
      state[12] := Plus(state[12], 1);
      blocks := blocks + 1;
      assert state[..] == Advance(start, blocks);
    }
  }

  method XorInto(dst: array<bv8>, src: array<bv8>, keystream: array<bv8>, offset: nat, n: nat)
    requires n <= keystream.Length && offset + n <= dst.Length && offset + n <= src.Length
    requires keystream != dst
    modifies dst
    ensures forall k :: offset <= k < offset + n ==> dst[k] == XorByte(old(src[k]), keystream[k - offset])
    ensures forall k :: 0 <= k < dst.Length && (k < offset || k >= offset + n) ==> dst[k] == old(dst[k])
  {
    hide XorByte;
    var i := 0;
    while i < n
      invariant 0 <= i <= n
      invariant forall k :: offset <= k < offset + i ==> dst[k] == XorByte(old(src[k]), keystream[k - offset])
      invariant forall k :: 0 <= k < dst.Length && (k < offset || k >= offset + i) ==> dst[k] == old(dst[k])
    {
      dst[offset + i] := XorByte(src[offset + i], keystream[i]);
      i := i + 1;
    }
  }
}
