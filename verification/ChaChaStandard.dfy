/** ChaCha20 in the terms of its standard: sums as numbers, rotations bit by bit, 80 quarter rounds, and the blocks of
    the key stream. */
module ChaChaStandard {
  import opened Core
  import opened Words
  import opened ChaChaCore
  import opened ChaCha20

  // ---------------------------------------------------------------- sums

  /** `z` is the sum of two words modulo 2^32. */
  predicate IsSum(x: bv32, y: bv32, z: bv32) {
    z as int == (x as int + y as int) % 0x1_0000_0000
  }

  lemma OneDigit(a: nat, r: nat, b: nat, s: nat)
    requires a < 0x100 && b < 0x100 && a + 0x100 * r == b + 0x100 * s
    ensures a == b && r == s
  {
  }

  lemma LeValueInjective(p: seq<bv8>, q: seq<bv8>)
    requires |p| == |q| == 4 && LeValue(p) == LeValue(q)
    ensures p == q
  {
    hide Value;
    var (r2, s2) := (Value(p[2]) + 0x100 * Value(p[3]), Value(q[2]) + 0x100 * Value(q[3]));
    var (r1, s1) := (Value(p[1]) + 0x100 * r2, Value(q[1]) + 0x100 * s2);
    OneDigit(Value(p[0]), r1, Value(q[0]), s1);
    OneDigit(Value(p[1]), r2, Value(q[1]), s2);
    OneDigit(Value(p[2]), Value(p[3]), Value(q[2]), Value(q[3]));
    ValueInjective(p[0], q[0]);
    ValueInjective(p[1], q[1]);
    ValueInjective(p[2], q[2]);
    ValueInjective(p[3], q[3]);
  }

  /** Words that stand for one number are one word. */
  lemma SameNumber(x: bv32, y: bv32)
    requires x as int == y as int
    ensures x == y
  {
    hide WriteLe32, ReadLe32, LeValue;
    WordValue(x);
    WordValue(y);
    LeValueInjective(WriteLe32(x), WriteLe32(y));
    Le32RoundTrip(x);
    Le32RoundTrip(y);
  }

  lemma PlusZero(x: bv32)
    ensures Plus(x, 0) == x
  {
  }

  lemma PlusIs(x: bv32, y: bv32)
    ensures Plus(x, y) == x + y
  {
  }

  function PlusThree(x: bv32, y: bv32, z: bv32): bv32 {
    x + y + z
  }

  lemma PlusLeft(x: bv32, y: bv32, z: bv32)
    ensures Plus(x + y, z) == PlusThree(x, y, z)
  {
  }

  lemma PlusRight(x: bv32, y: bv32, z: bv32)
    ensures Plus(x, y + z) == PlusThree(x, y, z)
  {
  }

  lemma PlusNext(x: bv32, y: bv32)
    ensures Plus(Plus(x, y), 1) == Plus(x, Plus(y, 1))
  {
    hide Plus, PlusThree;
    PlusIs(x, y);
    PlusIs(y, 1);
    PlusLeft(x, y, 1);
    PlusRight(x, y, 1);
  }

  lemma {:induction false} CounterFrom(x: bv32, n: nat)
    ensures CounterAt(x, n) == Plus(x, CounterAt(0, n))
  {
    hide Plus;
    if n == 0 {
      PlusZero(x);
    } else {
      CounterFrom(x, n - 1);
      PlusNext(x, CounterAt(0, n - 1));
    }
  }

  lemma CounterFromZero(y: bv32, n: nat)
    requires n == LeValue(WriteLe32(y))
    ensures CounterAt(0, n) == y
  {
    hide CounterAt, WriteLe32, ReadLe32, LeValue;
    ZeroBytes();
    CounterBytes(0, n);
    LeValueInjective(WriteLe32(CounterAt(0, n)), WriteLe32(y));
    Le32RoundTrip(CounterAt(0, n));
    Le32RoundTrip(y);
  }

  lemma ZeroBytes()
    ensures LeValue(WriteLe32(0)) == 0
  {
    WriteZero();
  }

  /** Machine addition: as many increments as the other word counts. */
  lemma PlusIsSum(x: bv32, y: bv32)
    ensures IsSum(x, y, Plus(x, y))
  {
    hide Plus, CounterAt, WriteLe32, LeValue;
    var n := LeValue(WriteLe32(y));
    CounterFromZero(y, n);
    CounterFrom(x, n);
    CounterBytes(x, n);
    WordValue(x);
    WordValue(y);
    WordValue(Plus(x, y));
  }

  lemma SumIsPlus(x: bv32, y: bv32, z: bv32)
    requires IsSum(x, y, z)
    ensures z == Plus(x, y)
  {
    hide Plus;
    PlusIsSum(x, y);
    SameNumber(z, Plus(x, y));
  }

  // ---------------------------------------------------------------- rotations

  /** Bit `j` of `x`. */
  predicate BitAt(x: bv32, j: bv32)
    requires j < 32
  {
    (x >> j) & 1 == 1
  }

  /** Where bit `j` goes when a word is rotated to the left by `n`. */
  function Moved(j: bv32, n: bv32): (k: bv32)
    ensures k < 32
  {
    (j + n) % 32
  }

  /** `z` is `x` rotated to the left by `n` bits. */
  ghost predicate IsTurned(x: bv32, n: bv32, z: bv32) {
    forall j: bv32 :: j < 32 ==> BitAt(z, Moved(j, n)) == BitAt(x, j)
  }

  lemma Moved16(x: bv32, j: bv32)
    requires j < 32
    ensures BitAt(Rotl16(x), Moved(j, 16)) == BitAt(x, j)
  {
  }

  lemma Moved12(x: bv32, j: bv32)
    requires j < 32
    ensures BitAt(Rotl12(x), Moved(j, 12)) == BitAt(x, j)
  {
  }

  lemma Moved8(x: bv32, j: bv32)
    requires j < 32
    ensures BitAt(Rotl8(x), Moved(j, 8)) == BitAt(x, j)
  {
  }

  lemma Moved7(x: bv32, j: bv32)
    requires j < 32
    ensures BitAt(Rotl7(x), Moved(j, 7)) == BitAt(x, j)
  {
  }

  predicate IsAmount(n: bv32) {
    n == 16 || n == 12 || n == 8 || n == 7
  }

  function Rotated(x: bv32, n: bv32): bv32
    requires IsAmount(n)
  {
    if n == 16 then Rotl16(x) else if n == 12 then Rotl12(x) else if n == 8 then Rotl8(x) else Rotl7(x)
  }

  lemma RotatedMoves(x: bv32, n: bv32, j: bv32)
    requires IsAmount(n) && j < 32
    ensures BitAt(Rotated(x, n), Moved(j, n)) == BitAt(x, j)
  {
    hide Rotl16, Rotl12, Rotl8, Rotl7, BitAt, Moved;
    Moved16(x, j);
    Moved12(x, j);
    Moved8(x, j);
    Moved7(x, j);
  }

  lemma MovedFrom(k: bv32, n: bv32) returns (j: bv32)
    requires k < 32 && n < 32
    ensures j < 32 && Moved(j, n) == k
  {
    j := (k - n) % 32;
  }

  predicate SameBit(x: bv32, y: bv32, j: bv32)
    requires j < 32
  {
    (x >> j) & 1 == (y >> j) & 1
  }

  predicate SameByte(x: bv32, y: bv32, j: bv32)
    requires j < 32
  {
    (x >> j) & 0xFF == (y >> j) & 0xFF
  }

  lemma SameBitIs(x: bv32, y: bv32, j: bv32)
    requires j < 32 && BitAt(x, j) == BitAt(y, j)
    ensures SameBit(x, y, j)
  {
  }

  lemma SameByte0(x: bv32, y: bv32)
    requires SameBit(x, y, 0) && SameBit(x, y, 1) && SameBit(x, y, 2) && SameBit(x, y, 3)
    requires SameBit(x, y, 4) && SameBit(x, y, 5) && SameBit(x, y, 6) && SameBit(x, y, 7)
    ensures SameByte(x, y, 0)
  {
  }

  lemma SameByte1(x: bv32, y: bv32)
    requires SameBit(x, y, 8) && SameBit(x, y, 9) && SameBit(x, y, 10) && SameBit(x, y, 11)
    requires SameBit(x, y, 12) && SameBit(x, y, 13) && SameBit(x, y, 14) && SameBit(x, y, 15)
    ensures SameByte(x, y, 8)
  {
  }

  lemma SameByte2(x: bv32, y: bv32)
    requires SameBit(x, y, 16) && SameBit(x, y, 17) && SameBit(x, y, 18) && SameBit(x, y, 19)
    requires SameBit(x, y, 20) && SameBit(x, y, 21) && SameBit(x, y, 22) && SameBit(x, y, 23)
    ensures SameByte(x, y, 16)
  {
  }

  lemma SameByte3(x: bv32, y: bv32)
    requires SameBit(x, y, 24) && SameBit(x, y, 25) && SameBit(x, y, 26) && SameBit(x, y, 27)
    requires SameBit(x, y, 28) && SameBit(x, y, 29) && SameBit(x, y, 30) && SameBit(x, y, 31)
    ensures SameByte(x, y, 24)
  {
  }

  lemma SameBytes(x: bv32, y: bv32)
    requires SameByte(x, y, 0) && SameByte(x, y, 8) && SameByte(x, y, 16) && SameByte(x, y, 24)
    ensures x == y
  {
  }

  lemma SameBits(x: bv32, y: bv32)
    requires forall j: bv32 :: j < 32 ==> BitAt(x, j) == BitAt(y, j)
    ensures x == y
  {
    hide BitAt, SameBit, SameByte;
    forall j: bv32 | j < 32
      ensures SameBit(x, y, j)
    {
      SameBitIs(x, y, j);
    }
    SameByte0(x, y);
    SameByte1(x, y);
    SameByte2(x, y);
    SameByte3(x, y);
    SameBytes(x, y);
  }

  /** The rotations of the code are those, and the only ones. */
  lemma TurnedIs(x: bv32, n: bv32, z: bv32)
    requires IsAmount(n)
    ensures IsTurned(x, n, z) <==> z == Rotated(x, n)
  {
    hide BitAt, Moved, Rotated;
    var w := Rotated(x, n);
    forall j: bv32 | j < 32
      ensures BitAt(w, Moved(j, n)) == BitAt(x, j)
    {
      RotatedMoves(x, n, j);
    }
    if IsTurned(x, n, z) {
      forall k: bv32 | k < 32
        ensures BitAt(z, k) == BitAt(w, k)
      {
        var j := MovedFrom(k, n);
      }
      SameBits(z, w);
    }
  }

  /** `z` is the exclusive or of two words, rotated to the left by `n` bits. */
  ghost predicate IsTurnedXor(x: bv32, y: bv32, n: bv32, z: bv32) {
    IsTurned(x ^ y, n, z)
  }

  lemma XorIs(x: bv32, y: bv32)
    ensures Xor(x, y) == x ^ y
  {
  }

  lemma TurnedXorIs(x: bv32, y: bv32, n: bv32, z: bv32)
    requires IsAmount(n)
    ensures IsTurnedXor(x, y, n, z) <==> z == Rotated(Xor(x, y), n)
  {
    hide IsTurned, Xor, Rotated;
    XorIs(x, y);
    TurnedIs(Xor(x, y), n, z);
  }

  // ---------------------------------------------------------------- quarter rounds

  /** The quarter round on words a, b, c and d of the state, section 2.1 of RFC 8439; a1 to d1 are the words after the
      first two lines. No other word changes. */
  ghost predicate IsQuarterVia(s: seq<bv32>, a: nat, b: nat, c: nat, d: nat, t: seq<bv32>,
                               a1: bv32, b1: bv32, c1: bv32, d1: bv32)
    requires |s| == |t| == 16 && Lanes(a, b, c, d)
  {
    && IsSum(s[a], s[b], a1) && IsTurnedXor(s[d], a1, 16, d1)
    && IsSum(s[c], d1, c1) && IsTurnedXor(s[b], c1, 12, b1)
    && IsSum(a1, b1, t[a]) && IsTurnedXor(d1, t[a], 8, t[d])
    && IsSum(c1, t[d], t[c]) && IsTurnedXor(b1, t[c], 7, t[b])
    && forall i :: 0 <= i < 16 && i != a && i != b && i != c && i != d ==> t[i] == s[i]
  }

  ghost predicate IsQuarter(s: seq<bv32>, a: nat, b: nat, c: nat, d: nat, t: seq<bv32>)
    requires |s| == |t| == 16 && Lanes(a, b, c, d)
  {
    exists a1: bv32, b1: bv32, c1: bv32, d1: bv32 :: IsQuarterVia(s, a, b, c, d, t, a1, b1, c1, d1)
  }

  lemma QuarterReached(s: seq<bv32>, a: nat, b: nat, c: nat, d: nat)
    requires |s| == 16 && Lanes(a, b, c, d)
    ensures IsQuarter(s, a, b, c, d, Quarter(s, a, b, c, d))
  {
    hide IsSum, IsTurnedXor, Plus, Xor, Rotl16, Rotl12, Rotl8, Rotl7;
    var (t, q) := (Quarter(s, a, b, c, d), Quad(s[a], s[b], s[c], s[d]));
    var a1 := Plus(q.a, q.b);
    var d1 := Rotl16(Xor(q.d, a1));
    var c1 := Plus(q.c, d1);
    var b1 := Rotl12(Xor(q.b, c1));
    PlusIsSum(q.a, q.b);
    TurnedXorIs(q.d, a1, 16, d1);
    PlusIsSum(q.c, d1);
    TurnedXorIs(q.b, c1, 12, b1);
    PlusIsSum(a1, b1);
    TurnedXorIs(d1, t[a], 8, t[d]);
    PlusIsSum(c1, t[d]);
    TurnedXorIs(b1, t[c], 7, t[b]);
    assert IsQuarterVia(s, a, b, c, d, t, a1, b1, c1, d1);
  }

  lemma QuarterOnly(s: seq<bv32>, a: nat, b: nat, c: nat, d: nat, t: seq<bv32>)
    requires |s| == |t| == 16 && Lanes(a, b, c, d) && IsQuarter(s, a, b, c, d, t)
    ensures t == Quarter(s, a, b, c, d)
  {
    hide IsSum, IsTurnedXor, Plus, Xor, Rotl16, Rotl12, Rotl8, Rotl7;
    var a1: bv32, b1: bv32, c1: bv32, d1: bv32 :| IsQuarterVia(s, a, b, c, d, t, a1, b1, c1, d1);
    SumIsPlus(s[a], s[b], a1);
    TurnedXorIs(s[d], a1, 16, d1);
    SumIsPlus(s[c], d1, c1);
    TurnedXorIs(s[b], c1, 12, b1);
    SumIsPlus(a1, b1, t[a]);
    TurnedXorIs(d1, t[a], 8, t[d]);
    SumIsPlus(c1, t[d], t[c]);
    TurnedXorIs(b1, t[c], 7, t[b]);
  }

  /** The quarter round of the code is that of the standard, and nothing else is. */
  lemma QuarterExactly(s: seq<bv32>, a: nat, b: nat, c: nat, d: nat, t: seq<bv32>)
    requires |s| == |t| == 16 && Lanes(a, b, c, d)
    ensures IsQuarter(s, a, b, c, d, t) <==> t == Quarter(s, a, b, c, d)
  {
    hide IsQuarter, Quarter;
    QuarterReached(s, a, b, c, d);
    if IsQuarter(s, a, b, c, d, t) {
      QuarterOnly(s, a, b, c, d, t);
    }
  }

  // ---------------------------------------------------------------- the block function

  datatype Places = Places(a: nat, b: nat, c: nat, d: nat)

  /** The four columns and the four diagonals, section 2.3 of RFC 8439. */
  const DOUBLE_ROUND: seq<Places> :=
    [ Places(0, 4, 8, 12), Places(1, 5, 9, 13), Places(2, 6, 10, 14), Places(3, 7, 11, 15),
      Places(0, 5, 10, 15), Places(1, 6, 11, 12), Places(2, 7, 8, 13), Places(3, 4, 9, 14) ]

  lemma PlacesAreLanes(i: nat)
    requires i < 8
    ensures var p := DOUBLE_ROUND[i]; Lanes(p.a, p.b, p.c, p.d)
  {
  }

  type State = s: seq<bv32> | |s| == 16 witness seq(16, i => 0)

  ghost predicate IsTurn(s: State, i: nat, t: State)
    requires i < 8
  {
    PlacesAreLanes(i);
    var p := DOUBLE_ROUND[i];
    IsQuarter(s, p.a, p.b, p.c, p.d, t)
  }

  /** Twenty rounds: 80 quarter rounds, the eight places taken in turn. */
  ghost predicate IsTwentyRounds(t: seq<State>, state: State) {
    |t| == 81 && t[0] == state && forall i :: 0 <= i < 80 ==> IsTurn(t[i], i % 8, t[i + 1])
  }

  /** The state after `i` turns of a double round. */
  function AfterTurns(s: State, i: nat): (t: State)
    requires i <= 8
  {
    if i == 0 then s
    else
      PlacesAreLanes(i - 1);
      var p := DOUBLE_ROUND[i - 1];
      Quarter(AfterTurns(s, i - 1), p.a, p.b, p.c, p.d)
  }

  lemma EightTurns(s: State)
    ensures AfterTurns(s, 8) == DiagonalRound(ColumnRound(s))
  {
    hide Quarter;
    var s1 := Quarter(s, 0, 4, 8, 12);
    assert AfterTurns(s, 1) == s1;
    var s2 := Quarter(s1, 1, 5, 9, 13);
    assert AfterTurns(s, 2) == s2;
    var s3 := Quarter(s2, 2, 6, 10, 14);
    assert AfterTurns(s, 3) == s3;
    var s4 := Quarter(s3, 3, 7, 11, 15);
    assert AfterTurns(s, 4) == s4;
    var s5 := Quarter(s4, 0, 5, 10, 15);
    assert AfterTurns(s, 5) == s5;
    var s6 := Quarter(s5, 1, 6, 11, 12);
    assert AfterTurns(s, 6) == s6;
    var s7 := Quarter(s6, 2, 7, 8, 13);
    assert AfterTurns(s, 7) == s7;
  }

  lemma TurnIs(s: State, i: nat, t: State)
    requires i < 8
    ensures IsTurn(s, i, t) <==> t == (var p := DOUBLE_ROUND[i]; PlacesAreLanes(i); Quarter(s, p.a, p.b, p.c, p.d))
  {
    hide IsQuarter, Quarter;
    PlacesAreLanes(i);
    var p := DOUBLE_ROUND[i];
    QuarterExactly(s, p.a, p.b, p.c, p.d, t);
  }

  lemma {:induction false} TraceTurns(t: seq<State>, state: State, n: nat, i: nat)
    requires IsTwentyRounds(t, state) && n < 10 && i <= 8
    ensures t[8 * n + i] == AfterTurns(t[8 * n], i)
    decreases i
  {
    hide IsTurn, Quarter;
    if i == 0 {
    } else {
      TraceTurns(t, state, n, i - 1);
      var k := 8 * n + i - 1;
      assert k % 8 == i - 1;
      assert IsTurn(t[k], k % 8, t[k + 1]);
      TurnIs(t[k], i - 1, t[k + 1]);
    }
  }

  lemma {:induction false} TraceRounds(t: seq<State>, state: State, n: nat)
    requires IsTwentyRounds(t, state) && n <= 10
    ensures t[8 * n] == Rounds(state, n)
    decreases n
  {
    hide IsTurn, AfterTurns, ColumnRound, DiagonalRound;
    if n == 0 {
    } else {
      TraceRounds(t, state, n - 1);
      TraceTurns(t, state, n - 1, 8);
      EightTurns(t[8 * (n - 1)]);
    }
  }

  /** The 81 states there are. */
  function TraceState(state: State, k: nat): State
    requires k <= 80
  {
    AfterTurns(Rounds(state, k / 8), k % 8)
  }

  lemma TraceStep(state: State, k: nat)
    requires k < 80
    ensures IsTurn(TraceState(state, k), k % 8, TraceState(state, k + 1))
  {
    hide IsTurn, Quarter, ColumnRound, DiagonalRound, Rounds;
    var s := Rounds(state, k / 8);
    TurnIs(TraceState(state, k), k % 8, AfterTurns(s, k % 8 + 1));
    if k % 8 == 7 {
      EightTurns(s);
      NextRounds(state, k / 8);
      assert (k + 1) / 8 == k / 8 + 1 && (k + 1) % 8 == 0;
    } else {
      assert (k + 1) / 8 == k / 8 && (k + 1) % 8 == k % 8 + 1;
    }
  }

  lemma NextRounds(state: State, n: nat)
    ensures Rounds(state, n + 1) == DiagonalRound(ColumnRound(Rounds(state, n)))
  {
    hide ColumnRound, DiagonalRound;
  }

  /** Every state has its twenty rounds. */
  lemma TwentyRoundsExist(state: State) returns (t: seq<State>)
    ensures IsTwentyRounds(t, state)
  {
    hide IsTurn, TraceState, Rounds;
    t := seq(81, k requires 0 <= k < 81 => TraceState(state, k));
    forall k | 0 <= k < 80
      ensures IsTurn(t[k], k % 8, t[k + 1])
    {
      TraceStep(state, k);
    }
    TraceStart(state);
  }

  lemma TraceStart(state: State)
    ensures TraceState(state, 0) == state
  {
  }

  lemma {:induction false} WordOfBlock(ws: seq<bv32>, i: nat)
    requires i < |ws|
    ensures Serialize(ws)[4 * i..4 * i + 4] == WriteLe32(ws[i])
    decreases |ws|
  {
    hide WriteLe32;
    var n := |ws| - 1;
    if i == n {
    } else {
      WordOfBlock(ws[..n], i);
      assert Serialize(ws)[4 * i..4 * i + 4] == Serialize(ws[..n])[4 * i..4 * i + 4];
    }
  }

  /** A block of the key stream: each word of the state after twenty rounds plus that word before them, modulo 2^32,
      least significant byte first. */
  lemma BlockIsSum(t: seq<State>, state: State, i: nat)
    requires IsTwentyRounds(t, state) && i < 16
    ensures LeValue(Block(state)[4 * i..4 * i + 4]) == (t[80][i] as int + state[i] as int) % 0x1_0000_0000
  {
    hide IsTurn, Rounds, Serialize, Plus, LeValue, WriteLe32;
    TraceRounds(t, state, 10);
    var r := Rounds(state, 10);
    WordOfBlock(AddStates(r, state), i);
    WordValue(Plus(r[i], state[i]));
    PlusIsSum(r[i], state[i]);
  }

  // ---------------------------------------------------------------- the stream

  /** Byte `k` of a message meets byte k % 64 of the block whose counter is k / 64 on, modulo 2^32. */
  lemma CryptAt(data: seq<bv8>, state: State, k: nat, c: bv32)
    requires k < |data| && c as int == (state[12] as int + k / 64) % 0x1_0000_0000
    ensures |Crypt(data, state)| == |data|
    ensures Crypt(data, state)[k] == data[k] ^ Block(state[12 := c])[k % 64]
  {
    hide XorByte, Block, CounterAt;
    CounterIsSum(state[12], k / 64);
    SameNumber(CounterAt(state[12], k / 64), c);
    XorByteIs(data[k], Block(state[12 := c])[k % 64]);
  }
}
