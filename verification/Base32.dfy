/** Numbers as bit strings, most significant bit first. */
module BitStrings {
  import opened Core

  function Power2(k: nat): (p: nat)
    ensures p > 0
  {
    if k == 0 then 1 else 2 * Power2(k - 1)
  }

  /** The low `k` bits of `n`. */
  function LowBits(n: nat, k: nat): (s: seq<bool>)
    ensures |s| == k
  {
    if k == 0 then [] else LowBits(n / 2, k - 1) + [n % 2 == 1]
  }

  function FromBits(s: seq<bool>): (n: nat) {
    if s == [] then 0 else 2 * FromBits(s[..|s| - 1]) + if s[|s| - 1] then 1 else 0
  }

  /** `n` shifted right by `k` bits. */
  function ShiftBits(n: nat, k: nat): nat {
    if k == 0 then n else ShiftBits(n / 2, k - 1)
  }

  lemma {:induction false} FromLowBits(n: nat, k: nat)
    requires n < Power2(k)
    ensures FromBits(LowBits(n, k)) == n
  {
    if k == 0 {
    } else {
      FromLowBits(n / 2, k - 1);
      assert LowBits(n, k)[..k - 1] == LowBits(n / 2, k - 1);
    }
  }

  lemma {:induction false} LowFromBits(s: seq<bool>)
    ensures FromBits(s) < Power2(|s|) && LowBits(FromBits(s), |s|) == s
  {
    if s == [] {
    } else {
      LowFromBits(s[..|s| - 1]);
    }
  }

  /** Bit `i` of the low `k` bits is that of the number, the highest first. */
  lemma {:induction false} LowBitsAt(n: nat, k: nat, i: nat)
    requires i < k
    ensures LowBits(n, k)[i] <==> n / Power2(k - 1 - i) % 2 == 1
    decreases k
  {
    if i == k - 1 {
      assert n / Power2(0) == n;
    } else {
      LowBitsAt(n / 2, k - 1, i);
      DivideTwice(n, 2, Power2(k - 2 - i));
    }
  }

  /** Bits above the lowest `k` do not show. */
  lemma {:induction false} HighPartDropped(n: nat, t: nat, j: nat, k: nat)
    requires k <= j
    ensures LowBits(n + Power2(j) * t, k) == LowBits(n, k)
    decreases k
  {
    if k == 0 {
    } else {
      var w := Power2(j - 1) * t;
      assert Power2(j) * t == 2 * w;
      assert (n + 2 * w) / 2 == n / 2 + w && (n + 2 * w) % 2 == n % 2;
      HighPartDropped(n / 2, t, j - 1, k - 1);
    }
  }

  lemma {:induction false} SplitBits(n: nat, j: nat, k: nat)
    ensures LowBits(n, j + k) == LowBits(ShiftBits(n, k), j) + LowBits(n, k)
    decreases k
  {
    if k > 0 {
      SplitBits(n / 2, j, k - 1);
    } else {
      assert LowBits(n, j) + [] == LowBits(n, j);
    }
  }

  lemma WordWraps(n: nat, k: nat)
    requires k <= 32
    ensures LowBits(n % 0x1_0000_0000, k) == LowBits(n, k)
  {
    assert Power2(8) == 256 && Power2(16) == 0x1_0000 && Power2(24) == 0x100_0000 && Power2(32) == 0x1_0000_0000;
    HighPartDropped(n % 0x1_0000_0000, n / 0x1_0000_0000, 32, k);
  }

  /** Shifting in a byte, in a 32-bit register whose top falls off. */
  lemma ShiftInByte(buffer: nat, b: nat, k: nat)
    requires b < 256 && k <= 24
    ensures LowBits((256 * buffer + b) % 0x1_0000_0000, k + 8) == LowBits(buffer, k) + LowBits(b, 8)
  {
    hide LowBits, ShiftBits;
    var n := 256 * buffer + b;
    WordWraps(n, k + 8);
    SplitBits(n, k, 8);
    assert Power2(8) == 256;
    HighPartDropped(b, buffer, 8, 8);
    Shift8(n);
  }

  lemma ShiftInSymbol(buffer: nat, v: nat, k: nat)
    requires v < 32 && k <= 27
    ensures LowBits((32 * buffer + v) % 0x1_0000_0000, k + 5) == LowBits(buffer, k) + LowBits(v, 5)
  {
    hide LowBits, ShiftBits;
    var n := 32 * buffer + v;
    WordWraps(n, k + 5);
    SplitBits(n, k, 5);
    assert Power2(5) == 32;
    HighPartDropped(v, buffer, 5, 5);
    Shift5(n);
  }

  lemma Shift4(n: nat)
    ensures ShiftBits(n, 4) == n / 16
  {
    assert ShiftBits(n, 4) == ShiftBits(n / 2, 3) == ShiftBits(n / 2 / 2, 2) == ShiftBits(n / 2 / 2 / 2, 1);
  }

  lemma Shift5(n: nat)
    ensures ShiftBits(n, 5) == n / 32
  {
    Shift4(n / 2);
  }

  lemma Shift8(n: nat)
    ensures ShiftBits(n, 8) == n / 256
  {
    Shift4(n / 16);
    assert ShiftBits(n, 8) == ShiftBits(n / 2, 7) == ShiftBits(n / 4, 6) == ShiftBits(n / 8, 5) == ShiftBits(n / 16, 4);
  }

  lemma Mask5(n: nat)
    ensures n % 32 == FromBits(LowBits(n, 5))
  {
    assert Power2(5) == 32;
    HighPartDropped(n % 32, n / 32, 5, 5);
    FromLowBits(n % 32, 5);
  }

  lemma Mask8(n: nat)
    ensures n % 256 == FromBits(LowBits(n, 8))
  {
    assert Power2(8) == 256;
    HighPartDropped(n % 256, n / 256, 8, 8);
    FromLowBits(n % 256, 8);
  }
}

/** Base32, section 6 of RFC 4648, without padding characters. */
module Base32 {
  import opened Core
  import opened BitStrings

  function DataBits(d: seq<bv8>): (s: seq<bool>)
    ensures |s| == 8 * |d|
  {
    if d == [] then [] else LowBits(Value(d[0]), 8) + DataBits(d[1..])
  }

  /** Five bits to a symbol, the last one filled up with zeros. */
  function Groups(bits: seq<bool>): (g: seq<nat>)
    ensures |g| == (|bits| + 4) / 5
    decreases |bits|
  {
    if bits == [] then []
    else if |bits| < 5 then [FromBits(bits + Zeros(5 - |bits|))]
    else [FromBits(bits[..5])] + Groups(bits[5..])
  }

  function SymbolBits(g: seq<nat>): (s: seq<bool>)
    ensures |s| == 5 * |g|
  {
    if g == [] then [] else LowBits(g[0], 5) + SymbolBits(g[1..])
  }

  /** Eight bits to a byte; what is left over is dropped. */
  function Octets(bits: seq<bool>): (d: seq<bv8>)
    ensures |d| == |bits| / 8
    decreases |bits|
  {
    if |bits| < 8 then [] else [Octet(bits[..8])] + Octets(bits[8..])
  }

  function Octet(bits: seq<bool>): bv8
    requires |bits| == 8
  {
    LowFromBits(bits);
    assert Power2(8) == 256;
    ByteOf(FromBits(bits))
  }

  /** The padded bit string. */
  function Padded(bits: seq<bool>): (s: seq<bool>)
    ensures |s| % 5 == 0 && |bits| <= |s| < |bits| + 5
  {
    bits + Zeros((5 - |bits| % 5) % 5)
  }

  /** Symbol `i` is the i-th group of five bits of the padded bit string. */
  lemma {:induction false} GroupAt(bits: seq<bool>, i: nat)
    requires i < |Groups(bits)|
    ensures 5 * i + 5 <= |Padded(bits)| && Groups(bits)[i] == FromBits(Padded(bits)[5 * i..5 * i + 5])
    ensures Groups(bits)[i] < 32
    decreases |bits|
  {
    hide LowBits, FromBits;
    LowFromBits(Padded(bits)[5 * i..5 * i + 5]);
    assert Power2(5) == 32;
    if |bits| < 5 {
      assert Padded(bits)[0..5] == bits + Zeros(5 - |bits|);
    } else if i == 0 {
      assert Padded(bits)[0..5] == bits[..5];
    } else {
      GroupAt(bits[5..], i - 1);
      PaddedNext(bits);
      Behind(bits[..5], Padded(bits[5..]), 5 * (i - 1), 5 * i);
    }
  }

  lemma Behind(a: seq<bool>, b: seq<bool>, from: nat, to: nat)
    requires from <= to <= |b|
    ensures (a + b)[|a| + from..|a| + to] == b[from..to]
  {
  }

  /** Reading the symbols back gives the bits, zero-padded. */
  lemma {:induction false} BitsOfGroups(bits: seq<bool>)
    ensures SymbolBits(Groups(bits)) == Padded(bits)
    decreases |bits|
  {
    hide LowBits, FromBits, SymbolBits;
    if bits == [] {
      NoSymbolBits();
    } else if |bits| < 5 {
      LowFromBits(bits + Zeros(5 - |bits|));
      NoSymbolBits();
      var v := FromBits(bits + Zeros(5 - |bits|));
      SymbolBitsCons(v, []);
      assert Groups(bits) == [v] + [];
    } else {
      LowFromBits(bits[..5]);
      BitsOfGroups(bits[5..]);
      SymbolBitsCons(FromBits(bits[..5]), Groups(bits[5..]));
      PaddedNext(bits);
    }
  }

  lemma NoSymbolBits()
    ensures SymbolBits([]) == []
  {
  }

  lemma SymbolBitsCons(v: nat, g: seq<nat>)
    ensures SymbolBits([v] + g) == LowBits(v, 5) + SymbolBits(g)
  {
    assert ([v] + g)[1..] == g;
  }

  lemma PaddedNext(bits: seq<bool>)
    requires |bits| >= 5
    ensures Padded(bits) == bits[..5] + Padded(bits[5..])
  {
  }

  lemma {:induction false} OctetsOfData(d: seq<bv8>, rest: seq<bool>)
    requires |rest| < 8
    ensures Octets(DataBits(d) + rest) == d
  {
    hide Value, ByteOf;
    if d == [] {
    } else {
      var bits := DataBits(d) + rest;
      var first := LowBits(Value(d[0]), 8);
      assert bits[..8] == first && bits[8..] == DataBits(d[1..]) + rest;
      OctetsOfData(d[1..], rest);
      assert Power2(8) == 256;
      FromLowBits(Value(d[0]), 8);
      ByteOfValue(d[0]);
    }
  }

  // ---------------------------------------------------------------- text

  function Letter(v: nat): bv8
    requires v < 32
  {
    ByteOf(if v < 26 then 0x41 + v else 0x32 + (v - 26))
  }

  /** The value of a character in either case, -1 outside the alphabet. */
  function LetterValue(c: bv8): (v: int)
    ensures -1 <= v < 32
  {
    var n := Value(c);
    if 0x41 <= n <= 0x5a then n - 0x41
    else if 0x32 <= n <= 0x37 then 26 + (n - 0x32)
    else if 0x61 <= n <= 0x7a then n - 0x61
    else -1
  }

  lemma LetterRoundTrip(v: nat)
    requires v < 32
    ensures LetterValue(Letter(v)) == v
  {
    hide ByteOf, Value;
    ValueOfByte(if v < 26 then 0x41 + v else 0x32 + (v - 26));
  }

  /** The alphabet of section 6 of RFC 4648. */
  const ALPHABET: string := "ABCDEFGHIJKLMNOPQRSTUVWXYZ234567"

  /** Each value is written as the character at its place in the alphabet. */
  lemma AlphabetInOrder(v: nat)
    requires v < 32
    ensures Value(Letter(v)) == ALPHABET[v] as int
  {
    hide ByteOf, Value;
    ValueOfByte(if v < 26 then 0x41 + v else 0x32 + (v - 26));
  }

  predicate AreSymbols(g: seq<nat>) {
    forall i :: 0 <= i < |g| ==> g[i] < 32
  }

  function Letters(g: seq<nat>): (t: seq<bv8>)
    requires AreSymbols(g)
    ensures |t| == |g| && forall i :: 0 <= i < |g| ==> t[i] == Letter(g[i])
  {
    seq(|g|, i requires 0 <= i < |g| => Letter(g[i]))
  }

  /** The values of the characters that are in the alphabet; the others are skipped. */
  function Symbols(t: seq<bv8>): (g: seq<nat>)
    ensures AreSymbols(g) && |g| <= |t|
  {
    if t == [] then []
    else
      var g, v := Symbols(t[..|t| - 1]), LetterValue(t[|t| - 1]);
      if v < 0 then g else g + [v]
  }

  lemma GroupsAreSymbols(bits: seq<bool>)
    ensures AreSymbols(Groups(bits))
  {
    hide Groups, FromBits;
    forall i | 0 <= i < |Groups(bits)|
      ensures Groups(bits)[i] < 32
    {
      GroupAt(bits, i);
    }
  }

  /** A bit string as text. */
  function TextOf(bits: seq<bool>): (t: seq<bv8>)
    ensures |t| == (|bits| + 4) / 5
  {
    GroupsAreSymbols(bits);
    Letters(Groups(bits))
  }

  function Encoded(d: seq<bv8>): (t: seq<bv8>)
    ensures |t| == (8 * |d| + 4) / 5
  {
    TextOf(DataBits(d))
  }

  /** Character `i` of an encoding stands for bits 5i to 5i + 4 of the zero-padded data. */
  lemma CharacterAt(d: seq<bv8>, i: nat)
    requires i < |Encoded(d)|
    ensures 5 * i + 5 <= |Padded(DataBits(d))| && FromBits(Padded(DataBits(d))[5 * i..5 * i + 5]) < 32
    ensures Encoded(d)[i] == Letter(FromBits(Padded(DataBits(d))[5 * i..5 * i + 5]))
  {
    hide Groups, DataBits, Letter, FromBits, Padded;
    GroupsAreSymbols(DataBits(d));
    GroupAt(DataBits(d), i);
  }

  /** Bit `n` of the data, the highest of each byte first; zero behind the data. */
  predicate DataBit(d: seq<bv8>, n: nat) {
    n < 8 * |d| && Value(d[n / 8]) / Power2(7 - n % 8) % 2 == 1
  }

  lemma NextByteBit(d: seq<bv8>, n: nat)
    requires d != [] && n >= 8
    ensures DataBit(d, n) == DataBit(d[1..], n - 8)
  {
    hide Value, Power2;
    assert (n - 8) / 8 == n / 8 - 1 && (n - 8) % 8 == n % 8;
  }

  lemma FirstByteBit(d: seq<bv8>, n: nat)
    requires d != [] && n < 8
    ensures DataBit(d, n) <==> Value(d[0]) / Power2(7 - n) % 2 == 1
  {
    hide Value, Power2;
    assert n / 8 == 0 && n % 8 == n;
  }

  lemma {:induction false} DataBitsAt(d: seq<bv8>, n: nat)
    requires n < 8 * |d|
    ensures DataBits(d)[n] == DataBit(d, n)
    decreases |d|
  {
    hide LowBits, Value, DataBit, Power2;
    if n < 8 {
      FirstByteBit(d, n);
      LowBitsAt(Value(d[0]), 8, n);
    } else {
      NextByteBit(d, n);
      DataBitsAt(d[1..], n - 8);
    }
  }

  lemma PaddedAt(d: seq<bv8>, n: nat)
    requires n < |Padded(DataBits(d))|
    ensures Padded(DataBits(d))[n] == DataBit(d, n)
  {
    hide DataBits;
    if n < 8 * |d| {
      DataBitsAt(d, n);
    }
  }

  /** Character `i` of an encoding, bit by bit: its place in the alphabet has for bit `j`, the highest of five first,
      bit 5i + j of the data. */
  lemma CharacterBits(d: seq<bv8>, i: nat, j: nat)
    requires i < (8 * |d| + 4) / 5 && j < 5
    ensures |Encoded(d)| == (8 * |d| + 4) / 5
    ensures var v := LetterValue(Encoded(d)[i]);
            && 0 <= v && Value(Encoded(d)[i]) == ALPHABET[v] as int
            && (v / Power2(4 - j) % 2 == 1 <==> DataBit(d, 5 * i + j))
  {
    hide Encoded, DataBits, Letter, LetterValue, FromBits, LowBits, Padded, Value, DataBit;
    CharacterAt(d, i);
    var bits := Padded(DataBits(d))[5 * i..5 * i + 5];
    var v := FromBits(bits);
    LetterRoundTrip(v);
    AlphabetInOrder(v);
    LowFromBits(bits);
    LowBitsAt(v, 5, j);
    PaddedAt(d, 5 * i + j);
    assert bits[j] == Padded(DataBits(d))[5 * i + j];
  }

  /** A character has the value of its place in the alphabet, a letter in either case; any other has none. */
  lemma LetterValueExactly(c: bv8, k: nat)
    requires k < 32
    ensures LetterValue(c) == k
       <==> Value(c) == ALPHABET[k] as int || (k < 26 && Value(c) == ALPHABET[k] as int + 32)
  {
    hide Value;
    assert k < 26 ==> ALPHABET[k] as int == 0x41 + k;
    assert k >= 26 ==> ALPHABET[k] as int == 0x32 + (k - 26);
  }

  function Decoded(t: seq<bv8>): seq<bv8> {
    Octets(SymbolBits(Symbols(t)))
  }

  /** Bit `m` of a run of symbols, the highest of each first. */
  predicate SymbolBit(g: seq<nat>, m: nat)
    requires m < 5 * |g|
  {
    g[m / 5] / Power2(4 - m % 5) % 2 == 1
  }

  lemma NextSymbolBit(g: seq<nat>, m: nat)
    requires 5 <= m < 5 * |g|
    ensures SymbolBit(g, m) == SymbolBit(g[1..], m - 5)
  {
    hide Power2;
    assert (m - 5) / 5 == m / 5 - 1 && (m - 5) % 5 == m % 5;
  }

  lemma FirstSymbolBit(g: seq<nat>, m: nat)
    requires m < 5 && g != []
    ensures SymbolBit(g, m) <==> g[0] / Power2(4 - m) % 2 == 1
  {
    hide Power2;
    assert m / 5 == 0 && m % 5 == m;
  }

  lemma {:induction false} SymbolBitsAt(g: seq<nat>, m: nat)
    requires m < 5 * |g|
    ensures SymbolBits(g)[m] <==> SymbolBit(g, m)
    decreases |g|
  {
    hide LowBits, SymbolBit, Power2;
    if m < 5 {
      FirstSymbolBit(g, m);
      LowBitsAt(g[0], 5, m);
    } else {
      NextSymbolBit(g, m);
      SymbolBitsAt(g[1..], m - 5);
    }
  }

  lemma {:induction false} OctetAt(bits: seq<bool>, n: nat)
    requires n < |bits| / 8
    ensures Octets(bits)[n] == Octet(bits[8 * n..8 * n + 8])
    decreases |bits|
  {
    hide Octet;
    if n == 0 {
    } else {
      OctetAt(bits[8..], n - 1);
      assert bits[8..][8 * (n - 1)..8 * (n - 1) + 8] == bits[8 * n..8 * n + 8];
    }
  }

  lemma OctetBit(bits: seq<bool>, j: nat)
    requires |bits| == 8 && j < 8
    ensures Value(Octet(bits)) / Power2(7 - j) % 2 == 1 <==> bits[j]
  {
    hide LowBits, FromBits, Value, ByteOf;
    LowFromBits(bits);
    assert Power2(8) == 256;
    ValueOfByte(FromBits(bits));
    LowBitsAt(FromBits(bits), 8, j);
  }

  /** What any text decodes to, bit by bit: the bits of its symbols, eight to a byte, as far as they fill one. */
  lemma DecodedBits(t: seq<bv8>, n: nat, j: nat)
    requires n < 5 * |Symbols(t)| / 8 && j < 8
    ensures |Decoded(t)| == 5 * |Symbols(t)| / 8
    ensures Value(Decoded(t)[n]) / Power2(7 - j) % 2 == 1 <==> SymbolBit(Symbols(t), 8 * n + j)
  {
    hide Symbols, SymbolBits, Octets, Octet, Value, SymbolBit, Power2;
    var bits := SymbolBits(Symbols(t));
    OctetAt(bits, n);
    OctetBit(bits[8 * n..8 * n + 8], j);
    SymbolBitsAt(Symbols(t), 8 * n + j);
  }

  lemma {:induction false} SymbolsOfLetters(g: seq<nat>)
    requires AreSymbols(g)
    ensures Symbols(Letters(g)) == g
  {
    hide Letter, LetterValue;
    if g == [] {
    } else {
      var n := |g| - 1;
      SymbolsOfLetters(g[..n]);
      LetterRoundTrip(g[n]);
      assert Letters(g)[..n] == Letters(g[..n]);
      assert g == g[..n] + [g[n]];
    }
  }

  /** Decoding an encoding gives the data back, and so does decoding any text with the same letters, in whatever case
      and with whatever other characters in between. */
  lemma DecodedEncoded(d: seq<bv8>, t: seq<bv8>)
    requires Symbols(t) == Symbols(Encoded(d))
    ensures Decoded(t) == d
  {
    hide Octets, Groups, DataBits, SymbolBits, Letters, Symbols;
    var bits := DataBits(d);
    GroupsAreSymbols(bits);
    SymbolsOfLetters(Groups(bits));
    BitsOfGroups(bits);
    var rest := Zeros((5 - |bits| % 5) % 5);
    OctetsOfData(d, rest);
  }

  /** Inserting a character outside the alphabet leaves the symbols as they are, */
  lemma {:induction false} InsertedNoise(t: seq<bv8>, i: nat, c: bv8)
    requires i <= |t| && LetterValue(c) < 0
    ensures Symbols(t[..i] + [c] + t[i..]) == Symbols(t)
    decreases |t|
  {
    hide LetterValue;
    var s := t[..i] + [c] + t[i..];
    if i == |t| {
      assert s[..|s| - 1] == t;
    } else {
      var u := t[..|t| - 1];
      assert s[..|s| - 1] == u[..i] + [c] + u[i..];
      InsertedNoise(u, i, c);
    }
  }

  /** and so does replacing a character by one of the same value, such as the same letter in the other case. */
  lemma {:induction false} ChangedCase(t: seq<bv8>, i: nat, c: bv8)
    requires i < |t| && LetterValue(c) == LetterValue(t[i])
    ensures Symbols(t[i := c]) == Symbols(t)
    decreases |t|
  {
    hide LetterValue;
    var s, u := t[i := c], t[..|t| - 1];
    if i == |t| - 1 {
      assert s[..|s| - 1] == u;
    } else {
      assert s[..|s| - 1] == u[i := c];
      ChangedCase(u, i, c);
    }
  }

  lemma LowerCase(v: nat)
    requires v < 26
    ensures LetterValue(ByteOf(0x61 + v)) == LetterValue(ByteOf(0x41 + v)) == v
  {
    hide ByteOf, Value;
    ValueOfByte(0x61 + v);
    ValueOfByte(0x41 + v);
  }

  // ---------------------------------------------------------------- the code

  /** Taking the top five of the pending bits out of the register. */
  lemma TakeSymbol(buffer: nat, bits: nat, rest: seq<bool>)
    ensures TextOf(LowBits(buffer, bits + 5) + rest)
         == [Letter(ShiftBits(buffer, bits) % 32)] + TextOf(LowBits(buffer, bits) + rest)
  {
    hide LowBits, FromBits, ShiftBits, Letter;
    var pending, left := LowBits(buffer, bits + 5), LowBits(buffer, bits);
    SplitBits(buffer, 5, bits);
    Mask5(ShiftBits(buffer, bits));
    assert (pending + rest)[..5] == LowBits(ShiftBits(buffer, bits), 5) && (pending + rest)[5..] == left + rest;
    GroupsAreSymbols(pending + rest);
    GroupsAreSymbols(left + rest);
  }

  /** The last symbol, filled up with zeros. */
  lemma LastSymbol(buffer: nat, bits: nat)
    requires 0 < bits < 5
    ensures TextOf(LowBits(buffer, bits)) == [Letter(Wrap32(buffer * Power2(5 - bits)) % 32)]
  {
    hide LowBits, FromBits, Letter;
    var pending := LowBits(buffer, bits);
    var k := 5 - bits;
    var n := buffer * Power2(k);
    ShiftedUp(buffer, bits, k);
    WordWraps(n, 5);
    Mask5(Wrap32(n));
    GroupsAreSymbols(pending);
  }

  lemma {:induction false} ShiftedUp(buffer: nat, bits: nat, k: nat)
    ensures LowBits(buffer * Power2(k), bits + k) == LowBits(buffer, bits) + Zeros(k)
  {
    if k == 0 {
    } else {
      ShiftedUp(buffer, bits, k - 1);
      var m := buffer * Power2(k - 1);
      assert buffer * Power2(k) == 2 * m;
    }
  }

  /** The inner loop: while five bits are pending, a symbol is written. */
  method EmitSymbols(buffer: nat, bits0: nat, ghost rest: seq<bool>, output: array<bv8>, outIdx0: nat)
    returns (bits: nat, outIdx: nat)
    requires outIdx0 + (bits0 + |rest| + 4) / 5 < output.Length
    modifies output
    ensures bits < 5 && outIdx0 <= outIdx <= outIdx + (bits + |rest| + 4) / 5 == outIdx0 + (bits0 + |rest| + 4) / 5
    ensures output[outIdx..] == old(output[outIdx..])
    ensures output[..outIdx] + TextOf(LowBits(buffer, bits) + rest)
         == old(output[..outIdx0]) + TextOf(LowBits(buffer, bits0) + rest)
  {
    hide LowBits, TextOf, Letter, ShiftBits;
    bits, outIdx := bits0, outIdx0;
    ghost var all := output[..outIdx0] + TextOf(LowBits(buffer, bits0) + rest);
    while bits >= 5
      invariant outIdx0 <= outIdx && outIdx + (bits + |rest| + 4) / 5 == outIdx0 + (bits0 + |rest| + 4) / 5
      invariant output[outIdx..] == old(output[outIdx..])
      invariant output[..outIdx] + TextOf(LowBits(buffer, bits) + rest) == all
    {
      bits := bits - 5;
      TakeSymbol(buffer, bits, rest);
      output[outIdx] := Letter(ShiftBits(buffer, bits) % 32);
      outIdx := outIdx + 1;
    }
  }

  /** The outer loop: all bytes are taken in, fewer than five bits are left pending. */
  method EncodeBytes(input: array<bv8>, inputLen: nat, output: array<bv8>)
    returns (buffer: nat, bits: nat, outIdx: nat)
    requires inputLen <= input.Length && input != output && (8 * inputLen + 4) / 5 < output.Length
    modifies output
    ensures bits < 5 && outIdx + (bits + 4) / 5 == (8 * inputLen + 4) / 5
    ensures output[..outIdx] + TextOf(LowBits(buffer, bits)) == Encoded(input[..inputLen])
    ensures output[outIdx..] == old(output[outIdx..])
  {
    hide LowBits, TextOf, Letter, DataBits;
    ghost var d := input[..inputLen];
    buffer, bits, outIdx := 0, 0, 0;
    assert d[0..] == d && LowBits(0, 0) + DataBits(d) == DataBits(d);
    var i := 0;
    while i < inputLen
      invariant 0 <= i <= inputLen && bits < 5
      invariant outIdx + (bits + 8 * (inputLen - i) + 4) / 5 == (8 * inputLen + 4) / 5
      invariant output[..outIdx] + TextOf(LowBits(buffer, bits) + DataBits(d[i..])) == Encoded(d)
      invariant output[outIdx..] == old(output[outIdx..])
    {
      NextByte(buffer, bits, d, i);
      buffer := Wrap32(256 * buffer + Value(input[i]));
      bits := bits + 8;
      bits, outIdx := EmitSymbols(buffer, bits, DataBits(d[i + 1..]), output, outIdx);
      i := i + 1;
    }
    assert d[inputLen..] == [] && LowBits(buffer, bits) + DataBits(d[inputLen..]) == LowBits(buffer, bits);
  }

  /** Returns the number of characters written, 0 when there is nothing to encode or no room. */
  method Encode(input: array<bv8>, inputLen: nat, output: array<bv8>, outputSize: nat) returns (outIdx: nat)
    requires inputLen <= input.Length && outputSize <= output.Length && input != output
    modifies output
    ensures inputLen == 0 || |Encoded(input[..inputLen])| >= outputSize ==> outIdx == 0 && output[..] == old(output[..])
    ensures inputLen > 0 && |Encoded(input[..inputLen])| < outputSize ==>
              && outIdx == |Encoded(input[..inputLen])| && output[..outIdx] == Encoded(input[..inputLen])
              && output[outIdx] == 0 && output[outIdx + 1..] == old(output[outIdx + 1..])
  {
    hide LowBits, TextOf, Letter, DataBits;
    if inputLen == 0 {
      return 0;
    }
    var outputLen := (inputLen * 8 + 4) / 5;
    if outputLen >= outputSize {
      return 0;
    }
    var buffer, bits;
    buffer, bits, outIdx := EncodeBytes(input, inputLen, output);
    if bits > 0 {
      LastSymbol(buffer, bits);
      buffer := Wrap32(buffer * Power2(5 - bits));
      output[outIdx] := Letter(buffer % 32);
      outIdx := outIdx + 1;
    }
    output[outIdx] := 0;
  }

  lemma NextByte(buffer: nat, bits: nat, d: seq<bv8>, i: nat)
    requires bits < 5 && i < |d|
    ensures LowBits(buffer, bits) + DataBits(d[i..])
         == LowBits(Wrap32(256 * buffer + Value(d[i])), bits + 8) + DataBits(d[i + 1..])
  {
    hide LowBits, Value;
    ShiftInByte(buffer, Value(d[i]), bits);
    assert d[i..][1..] == d[i + 1..];
  }

  lemma {:induction false} SymbolBitsSnoc(g: seq<nat>, v: nat)
    ensures SymbolBits(g + [v]) == SymbolBits(g) + LowBits(v, 5)
  {
    hide LowBits;
    if g == [] {
      assert SymbolBits([v]) == LowBits(v, 5) + SymbolBits([]);
    } else {
      SymbolBitsSnoc(g[1..], v);
      assert (g + [v])[1..] == g[1..] + [v];
    }
  }

  lemma {:induction false} OctetsSnoc(whole: seq<bool>, o: seq<bool>, rest: seq<bool>)
    requires |whole| % 8 == 0 && |o| == 8 && |rest| < 8
    ensures Octets(whole + o) == Octets(whole) + [Octet(o)]
    ensures Octets(whole + rest) == Octets(whole)
    decreases |whole|
  {
    hide Octet;
    if whole == [] {
      assert whole + o == o && whole + rest == rest;
      assert o[..8] == o && Octets(o[8..]) == [];
    } else {
      OctetsSnoc(whole[8..], o, rest);
      assert (whole + o)[..8] == whole[..8] && (whole + o)[8..] == whole[8..] + o;
      assert (whole + rest)[..8] == whole[..8] && (whole + rest)[8..] == whole[8..] + rest;
    }
  }

  /** The top eight of the pending bits make the next byte. */
  lemma TakeOctet(buffer: nat, bits: nat)
    ensures var pending := LowBits(buffer, 8 + bits);
            pending[8..] == LowBits(buffer, bits) && Octet(pending[..8]) == ByteOf(ShiftBits(buffer, bits) % 256)
  {
    hide LowBits, FromBits, ShiftBits, ByteOf;
    SplitBits(buffer, 8, bits);
    Mask8(ShiftBits(buffer, bits));
    assert LowBits(buffer, 8 + bits)[..8] == LowBits(ShiftBits(buffer, bits), 8);
  }

  function Min(a: nat, b: nat): nat {
    if a < b then a else b
  }

  /** One character of the alphabet: five more bits, and a byte when there are enough. */
  method DecodeSymbol(val: nat, buffer0: nat, bits0: nat, output: array<bv8>, outputSize: nat, outIdx0: nat,
                      ghost read: seq<bool>)
    returns (buffer: nat, bits: nat, outIdx: nat)
    requires val < 32 && Pending(read, buffer0, bits0) && outputSize <= output.Length
    requires outIdx0 == Min(|Octets(read)|, outputSize) && output[..outIdx0] == Octets(read)[..outIdx0]
    modifies output
    ensures Pending(read + LowBits(val, 5), buffer, bits)
    ensures outIdx0 <= outIdx == Min(|Octets(read + LowBits(val, 5))|, outputSize)
    ensures output[..outIdx] == Octets(read + LowBits(val, 5))[..outIdx]
    ensures output[outIdx..] == old(output[outIdx..])
  {
    hide LowBits, Octets, ShiftBits, ByteOf, Pending;
    TakeIn(read, buffer0, bits0, val);
    outIdx := outIdx0;
    buffer := Wrap32(32 * buffer0 + val);
    bits := bits0 + 5;
    if bits >= 8 {
      bits := bits - 8;
      if outIdx < outputSize {
        output[outIdx] := ByteOf(ShiftBits(buffer, bits) % 256);
        outIdx := outIdx + 1;
      }
    }
  }

  /** Returns the number of bytes written; what does not fit is dropped. */
  method Decode(input: array<bv8>, inputLen: nat, output: array<bv8>, outputSize: nat) returns (outIdx: nat)
    requires inputLen <= input.Length && outputSize <= output.Length && input != output
    modifies output
    ensures outIdx == Min(|Decoded(input[..inputLen])|, outputSize)
    ensures output[..outIdx] == Decoded(input[..inputLen])[..outIdx] && output[outIdx..] == old(output[outIdx..])
  {
    hide LowBits, Octets, LetterValue, Symbols, SymbolBits, Pending;
    ghost var t, before := input[..inputLen], output[..];
    var buffer: nat, bits: nat := 0, 0;
    outIdx := 0;
    DecodeStart();
    ghost var read := SymbolBits(Symbols(t[..0]));
    var i := 0;
    while i < inputLen
      invariant 0 <= i <= inputLen
      invariant read == SymbolBits(Symbols(t[..i])) && Pending(read, buffer, bits)
      invariant outIdx == Min(|Octets(read)|, outputSize)
      invariant output[..outIdx] == Octets(read)[..outIdx]
      invariant output[..][outIdx..] == before[outIdx..]
    {
      var val := LetterValue(input[i]);
      NextSymbols(t, i);
      i := i + 1;
      if val == -1 {
        continue;
      }
      ghost var now, written := output[..], outIdx;
      buffer, bits, outIdx := DecodeSymbol(val, buffer, bits, output, outputSize, outIdx, read);
      read := read + LowBits(val, 5);
      Suffixes(now, before, written, outIdx);
    }
    assert t[..inputLen] == t;
  }

  lemma Suffixes(s: seq<bv8>, t: seq<bv8>, i: nat, j: nat)
    requires i <= j <= |s| == |t| && s[i..] == t[i..]
    ensures s[j..] == t[j..]
  {
    assert s[j..] == s[i..][j - i..] && t[j..] == t[i..][j - i..];
  }

  /** The register holds the bits read that do not fill a byte yet. */
  ghost predicate Pending(read: seq<bool>, buffer: nat, bits: nat) {
    |read| % 8 == bits && LowBits(buffer, bits) == read[|read| - bits..]
  }

  /** Taking in a symbol, and a byte out when there is one. */
  lemma TakeIn(read: seq<bool>, buffer: nat, bits: nat, v: nat)
    requires v < 32 && Pending(read, buffer, bits)
    ensures var (r, b) := (read + LowBits(v, 5), Wrap32(32 * buffer + v));
            && bits < 8
            && (bits < 3 ==> Octets(r) == Octets(read) && Pending(r, b, bits + 5))
            && (bits >= 3 ==>
                  Octets(r) == Octets(read) + [ByteOf(ShiftBits(b, bits - 3) % 256)] && Pending(r, b, bits - 3))
  {
    hide LowBits, Octets, Octet, ShiftBits, ByteOf;
    var whole := read[..|read| - bits];
    var b := Wrap32(32 * buffer + v);
    var pending := LowBits(b, bits + 5);
    ShiftInSymbol(buffer, v, bits);
    assert read == whole + LowBits(buffer, bits);
    assert read + LowBits(v, 5) == whole + pending;
    OctetsSnoc(whole, Zeros(8), LowBits(buffer, bits));
    if bits < 3 {
      OctetsSnoc(whole, Zeros(8), pending);
    } else {
      TakeOctet(b, bits - 3);
      OctetsSnoc(whole, pending[..8], []);
      assert whole + pending == (whole + pending[..8]) + pending[8..];
      OctetsSnoc(whole + pending[..8], Zeros(8), pending[8..]);
    }
  }

  lemma DecodeStart()
    ensures SymbolBits(Symbols([])) == [] && Pending([], 0, 0) && Octets([]) == []
  {
  }

  lemma NextSymbols(t: seq<bv8>, i: nat)
    requires i < |t|
    ensures var v := LetterValue(t[i]);
            if v < 0 then Symbols(t[..i + 1]) == Symbols(t[..i])
            else SymbolBits(Symbols(t[..i + 1])) == SymbolBits(Symbols(t[..i])) + LowBits(v, 5)
  {
    hide LowBits, LetterValue, SymbolBits;
    assert t[..i + 1][..i] == t[..i];
    var v := LetterValue(t[i]);
    if v >= 0 {
      SymbolBitsSnoc(Symbols(t[..i]), v);
    }
  }
}
