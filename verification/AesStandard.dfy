/** AES-128 in the terms of its standards: what the cipher, the key schedule and the chaining do, byte by byte. */
module AesStandard {
  import opened Core
  import opened Gf256
  import opened SBox
  import opened AesRounds
  import opened AesKeySchedule
  import opened AesCbc

  // ---------------------------------------------------------------- columns as polynomials

  /** What the coefficients a[i] and b[k - i] contribute to coefficient `k` of a product. */
  function Term(a: seq<bv8>, b: seq<bv8>, k: nat, i: nat): bv8
    requires i < |a|
  {
    if i <= k && k - i < |b| then Times(a[i], b[k - i]) else 0
  }

  /** Coefficient `k` of the product of two polynomials over GF(2^8), lowest coefficient first, as far as the first `n`
      coefficients of `a` contribute to it. */
  function Coefficient(a: seq<bv8>, b: seq<bv8>, k: nat, n: nat): bv8
    requires n <= |a|
  {
    if n == 0 then 0 else Add(Coefficient(a, b, k, n - 1), Term(a, b, k, n - 1))
  }

  /** Coefficient `k` of the product of two four-term polynomials modulo x^4 + 1, section 4.3 of FIPS 197. */
  function ModularProduct(a: seq<bv8>, b: seq<bv8>, k: nat): bv8
    requires |a| == |b| == 4 && k < 4
  {
    Add(Coefficient(a, b, k, 4), Coefficient(a, b, k + 4, 4))
  }

  /** {03}x^3 + {01}x^2 + {01}x + {02}, section 5.1.3 of FIPS 197. */
  const MIXING: seq<bv8> := [0x02, 0x01, 0x01, 0x03]

  /** {0b}x^3 + {0d}x^2 + {09}x + {0e}, section 5.3.3 of FIPS 197. */
  const UNMIXING: seq<bv8> := [0x0e, 0x09, 0x0d, 0x0b]

  function Column(s: Block, c: nat): (col: seq<bv8>)
    requires c < 4
    ensures |col| == 4
  {
    s[4 * c..4 * c + 4]
  }

  lemma FourTerms(a: seq<bv8>, b: seq<bv8>, k: nat)
    requires |a| == 4
    ensures Coefficient(a, b, k, 4)
         == Add(Add(Add(Add(0, Term(a, b, k, 0)), Term(a, b, k, 1)), Term(a, b, k, 2)), Term(a, b, k, 3))
  {
    hide Term, Add;
    assert Coefficient(a, b, k, 1) == Add(0, Term(a, b, k, 0));
    assert Coefficient(a, b, k, 2) == Add(Add(0, Term(a, b, k, 0)), Term(a, b, k, 1));
  }

  lemma ZeroAdded(x: bv8)
    ensures Add(x, 0) == x && Add(0, x) == x
  {
  }

  lemma Sum0(x: bv8, y: bv8, v: bv8, w: bv8)
    ensures Add(Add(Add(Add(Add(0, x), 0), 0), 0), Add(Add(Add(Add(0, 0), y), v), w)) == Add4(x, y, v, w)
  {
    hide Add, Add4;
    ZeroAdded(0);
    ZeroAdded(x);
    ZeroAdded(y);
    SumOfThree(y, v, w);
    SumIn(x, Add(Add(y, v), w), x, y ^ v ^ w);
    Sum0Flat(x, y, v, w);
  }

  lemma Sum1(x: bv8, y: bv8, v: bv8, w: bv8)
    ensures Add(Add(Add(Add(Add(0, w), x), 0), 0), Add(Add(Add(Add(0, 0), 0), y), v)) == Add4(x, y, v, w)
  {
    hide Add, Add4;
    ZeroAdded(0);
    ZeroAdded(w);
    ZeroAdded(Add(w, x));
    ZeroAdded(y);
    AddIs(w, x);
    AddIs(y, v);
    Sum1Flat(x, y, v, w);
  }

  lemma Sum2(x: bv8, y: bv8, v: bv8, w: bv8)
    ensures Add(Add(Add(Add(Add(0, v), w), x), 0), Add(Add(Add(Add(0, 0), 0), 0), y)) == Add4(x, y, v, w)
  {
    hide Add, Add4;
    ZeroAdded(0);
    ZeroAdded(v);
    ZeroAdded(Add(Add(v, w), x));
    ZeroAdded(y);
    SumOfThree(v, w, x);
    SumIn(Add(Add(v, w), x), y, v ^ w ^ x, y);
    Sum2Flat(x, y, v, w);
  }

  lemma Sum3(x: bv8, y: bv8, v: bv8, w: bv8)
    ensures Add(Add(Add(Add(Add(0, y), v), w), x), Add(Add(Add(Add(0, 0), 0), 0), 0)) == Add4(x, y, v, w)
  {
    hide Add, Add4;
    ZeroAdded(0);
    ZeroAdded(y);
    ZeroAdded(Add(Add(Add(y, v), w), x));
    Add4Nested(y, v, w, x);
    Add4Turned(x, y, v, w);
  }

  lemma SumOfThree(x: bv8, y: bv8, z: bv8)
    ensures Add(Add(x, y), z) == x ^ y ^ z
  {
    hide Add;
    AddIs(x, y);
    SumOfThreeFlat(x, y, z);
  }

  lemma SumOfThreeFlat(x: bv8, y: bv8, z: bv8)
    ensures Add(x ^ y, z) == x ^ y ^ z
  {
  }

  lemma SumIn(x: bv8, y: bv8, x': bv8, y': bv8)
    requires x == x' && y == y'
    ensures Add(x, y) == Add(x', y')
  {
  }

  lemma Sum0Flat(x: bv8, y: bv8, v: bv8, w: bv8)
    ensures Add(x, y ^ v ^ w) == Add4(x, y, v, w)
  {
  }

  lemma Sum1Flat(x: bv8, y: bv8, v: bv8, w: bv8)
    ensures Add(w ^ x, y ^ v) == Add4(x, y, v, w)
  {
  }

  lemma Sum2Flat(x: bv8, y: bv8, v: bv8, w: bv8)
    ensures Add(v ^ w ^ x, y) == Add4(x, y, v, w)
  {
  }

  lemma Add4Turned(x: bv8, y: bv8, v: bv8, w: bv8)
    ensures Add4(y, v, w, x) == Add4(x, y, v, w)
  {
  }

  /** The product with any four-term polynomial, as a sum of four products. */
  lemma ProductOfColumn(a: seq<bv8>, b: seq<bv8>, k: nat)
    requires |a| == |b| == 4 && k < 4
    ensures ModularProduct(a, b, k)
         == Add4(Times(a[k], b[0]), Times(a[(k + 1) % 4], b[3]),
                 Times(a[(k + 2) % 4], b[2]), Times(a[(k + 3) % 4], b[1]))
  {
    hide Times, Add, Add4;
    FourTerms(a, b, k);
    FourTerms(a, b, k + 4);
    var (x, y) := (Times(a[k], b[0]), Times(a[(k + 1) % 4], b[3]));
    var (v, w) := (Times(a[(k + 2) % 4], b[2]), Times(a[(k + 3) % 4], b[1]));
    if k == 0 {
      Sum0(x, y, v, w);
    } else if k == 1 {
      Sum1(x, y, v, w);
    } else if k == 2 {
      Sum2(x, y, v, w);
    } else {
      Sum3(x, y, v, w);
    }
  }

  /** Mixing multiplies each column by the polynomial of the standard, and unmixing by its inverse. */
  lemma ColumnsAreProducts(s: Block, c: nat, k: nat)
    requires c < 4 && k < 4
    ensures MixColumns(s)[4 * c + k] == ModularProduct(Column(s, c), MIXING, k)
    ensures InvMixColumns(s)[4 * c + k] == ModularProduct(Column(s, c), UNMIXING, k)
  {
    hide Times, Add4, ModularProduct, MixColumns, InvMixColumns;
    MixedAt(s, c, k);
    ProductOfColumn(Column(s, c), MIXING, k);
    ProductOfColumn(Column(s, c), UNMIXING, k);
  }

  // ---------------------------------------------------------------- the cipher as a trace

  /** Column `c` after substitution and row shift: its byte `r` comes from column c + r. */
  function Shifted(s: Block, c: nat): (col: seq<bv8>)
    requires c < 4
    ensures |col| == 4
  {
    [Sub(s[4 * c]), Sub(s[4 * ((c + 1) % 4) + 1]), Sub(s[4 * ((c + 2) % 4) + 2]), Sub(s[4 * ((c + 3) % 4) + 3])]
  }

  /** `t` is `s` with 16 bytes of key added. */
  predicate KeyAdded(s: Block, key: Block, t: Block) {
    forall i :: 0 <= i < 16 ==> t[i] == Add(s[i], key[i])
  }

  /** A round: substitution, row shift, columns times the polynomial, round key. */
  predicate IsRound(s: Block, key: Block, t: Block) {
    forall i :: 0 <= i < 16 ==> t[i] == Add(ModularProduct(Shifted(s, i / 4), MIXING, i % 4), key[i])
  }

  /** The last round multiplies no columns. */
  predicate IsLastRound(s: Block, key: Block, t: Block) {
    forall i :: 0 <= i < 16 ==> t[i] == Add(Shifted(s, i / 4)[i % 4], key[i])
  }

  /** The states of an encryption: the key added, nine rounds, the last round, each with its 16 bytes of the schedule;
      section 5.1 of FIPS 197. */
  predicate IsEncryption(t: seq<Block>, s: Block, w: Schedule) {
    && |t| == 11
    && KeyAdded(s, w[0..16], t[0])
    && (forall r :: 1 <= r <= 9 ==> IsRound(t[r - 1], w[16 * r..16 * r + 16], t[r]))
    && IsLastRound(t[9], w[160..176], t[10])
  }

  lemma ShiftedByte(s: Block, c: nat, r: nat)
    requires c < 4 && r < 4
    ensures ShiftRows(SubBytes(s))[4 * c + r] == Sub(s[4 * ((c + r) % 4) + r])
  {
    hide Sub, ShiftRows;
    ShiftedAt(SubBytes(s), c, r);
  }

  lemma ShiftedColumn(s: Block, c: nat)
    requires c < 4
    ensures Column(ShiftRows(SubBytes(s)), c) == Shifted(s, c)
  {
    hide Sub, ShiftRows, SubBytes;
    var u: seq<bv8> := ShiftRows(SubBytes(s));
    ShiftedByte(s, c, 0);
    ShiftedByte(s, c, 1);
    ShiftedByte(s, c, 2);
    ShiftedByte(s, c, 3);
    FourBytes(u, 4 * c);
  }

  lemma FourBytes(u: seq<bv8>, n: nat)
    requires n + 4 <= |u|
    ensures u[n..n + 4] == [u[n], u[n + 1], u[n + 2], u[n + 3]]
  {
  }

  lemma RoundAt(s: Block, w: Schedule, r: nat, i: nat)
    requires r <= 10 && i < 16
    ensures Round(s, w, r)[i] == Add(ModularProduct(Shifted(s, i / 4), MIXING, i % 4), RoundKey(w, r)[i])
  {
    hide Add, ModularProduct, Shifted, ShiftRows, SubBytes, MixColumns, RoundKey;
    ShiftedColumn(s, i / 4);
    ColumnsAreProducts(ShiftRows(SubBytes(s)), i / 4, i % 4);
    assert i == 4 * (i / 4) + i % 4;
  }

  lemma RoundIsRound(s: Block, w: Schedule, r: nat, t: Block)
    requires r <= 10
    ensures IsRound(s, RoundKey(w, r), t) <==> t == Round(s, w, r)
  {
    hide Add, ModularProduct, Shifted, Round, RoundKey;
    var u := Round(s, w, r);
    forall i | 0 <= i < 16
      ensures u[i] == Add(ModularProduct(Shifted(s, i / 4), MIXING, i % 4), RoundKey(w, r)[i])
    {
      RoundAt(s, w, r, i);
    }
    if IsRound(s, RoundKey(w, r), t) {
      forall i | 0 <= i < 16
        ensures t[i] == u[i]
      {
      }
    }
  }

  lemma LastRoundIs(s: Block, w: Schedule, t: Block)
    requires IsLastRound(s, RoundKey(w, 10), t)
    ensures t == XorBlocks(ShiftRows(SubBytes(s)), RoundKey(w, 10))
  {
    hide Add, Shifted, ShiftRows, SubBytes, RoundKey;
    var u := XorBlocks(ShiftRows(SubBytes(s)), RoundKey(w, 10));
    forall i | 0 <= i < 16
      ensures t[i] == u[i]
    {
      ShiftedColumn(s, i / 4);
      assert Column(ShiftRows(SubBytes(s)), i / 4)[i % 4] == ShiftRows(SubBytes(s))[4 * (i / 4) + i % 4];
    }
  }

  lemma LastRoundReached(s: Block, w: Schedule)
    ensures IsLastRound(s, RoundKey(w, 10), XorBlocks(ShiftRows(SubBytes(s)), RoundKey(w, 10)))
  {
    hide Add, Shifted, ShiftRows, SubBytes, RoundKey;
    forall i | 0 <= i < 16
      ensures ShiftRows(SubBytes(s))[i] == Shifted(s, i / 4)[i % 4]
    {
      ShiftedColumn(s, i / 4);
      assert Column(ShiftRows(SubBytes(s)), i / 4)[i % 4] == ShiftRows(SubBytes(s))[4 * (i / 4) + i % 4];
    }
  }

  lemma {:induction false} TraceRounds(t: seq<Block>, s: Block, w: Schedule, r: nat)
    requires IsEncryption(t, s, w) && r <= 9
    ensures t[r] == Rounds(XorBlocks(s, RoundKey(w, 0)), w, r)
  {
    hide IsRound, IsLastRound, Round, Add;
    if r == 0 {
      assert t[0] == XorBlocks(s, RoundKey(w, 0));
    } else {
      TraceRounds(t, s, w, r - 1);
      RoundIsRound(t[r - 1], w, r, t[r]);
    }
  }

  /** Block encryption is what every such sequence of states ends in, and decryption what it began with. */
  lemma EncryptsAsTrace(t: seq<Block>, s: Block, w: Schedule)
    requires IsEncryption(t, s, w)
    ensures EncryptBlock(s, w) == t[10] && DecryptBlock(t[10], w) == s
  {
    hide IsRound, IsLastRound, KeyAdded, Rounds, XorBlocks, ShiftRows, SubBytes, DecryptBlock;
    TraceRounds(t, s, w, 9);
    LastRoundIs(t[9], w, t[10]);
    DecryptEncrypt(s, w);
  }

  /** There is one for every block and every expanded key. */
  lemma TraceExists(s: Block, w: Schedule) returns (t: seq<Block>)
    ensures IsEncryption(t, s, w)
  {
    hide IsRound, IsLastRound, Round, Add, ShiftRows, SubBytes;
    var u := XorBlocks(s, RoundKey(w, 0));
    t := seq(10, r requires 0 <= r < 10 => Rounds(u, w, r))
         + [XorBlocks(ShiftRows(SubBytes(Rounds(u, w, 9))), RoundKey(w, 10))];
    forall r | 1 <= r <= 9
      ensures IsRound(t[r - 1], w[16 * r..16 * r + 16], t[r])
    {
      RoundIsRound(t[r - 1], w, r, t[r]);
    }
    LastRoundReached(t[9], w);
  }

  // ---------------------------------------------------------------- the key schedule

  /** x^n in the field. */
  function PowerOfX(n: nat): bv8 {
    if n == 0 then 1 else Times(PowerOfX(n - 1), 2)
  }

  lemma {:induction false} RoundConstantIs(n: nat)
    requires n < 10
    ensures RCON[n + 1] == PowerOfX(n)
  {
    hide Times, Xtime;
    if n == 0 {
    } else {
      RoundConstantIs(n - 1);
      RoundConstants(n);
      TimesConstants(RCON[n]);
    }
  }

  /** The expanded key, byte by byte, section 5.2 of FIPS 197: it begins with the key, and each later word adds to the
      word four before it the word before it, every fourth time rotated to the left by a byte, substituted, and with
      the next power of x added to its first byte. */
  lemma ScheduleBytes(key: Block, i: nat, j: nat)
    requires 4 <= i < 44 && j < 4
    ensures ExpandKey(key)[..16] == key
    ensures var w := ExpandKey(key);
            w[4 * i + j] == Add(w[4 * (i - 4) + j],
                                if i % 4 != 0 then w[4 * (i - 1) + j]
                                else if j == 0 then Add(Sub(w[4 * (i - 1) + 1]), PowerOfX(i / 4 - 1))
                                else Sub(w[4 * (i - 1) + (j + 1) % 4]))
  {
    hide Add, Sub, ExpandKey, PowerOfX, WordAt;
    ScheduleStart(key);
    ByteOfWord(key, i, j);
    ByteOfWord(key, i - 4, j);
    ByteOfWord(key, i - 1, j);
    ByteOfWord(key, i - 1, (j + 1) % 4);
    WordByte(key, i, j);
  }

  lemma FeedByte(i: nat, previous: KeyWord, j: nat)
    requires 4 <= i < 44 && j < 4
    ensures Feed(i, previous)[j]
         == if i % 4 != 0 then previous[j]
            else if j == 0 then Add(Sub(previous[1]), PowerOfX(i / 4 - 1))
            else Sub(previous[(j + 1) % 4])
  {
    hide Add, Sub, PowerOfX;
    if i % 4 == 0 {
      RoundConstantIs(i / 4 - 1);
    }
  }

  lemma WordByte(key: Block, i: nat, j: nat)
    requires 4 <= i < 44 && j < 4
    ensures var previous := WordAt(key, i - 1);
            WordAt(key, i)[j] == Add(WordAt(key, i - 4)[j],
                                     if i % 4 != 0 then previous[j]
                                     else if j == 0 then Add(Sub(previous[1]), PowerOfX(i / 4 - 1))
                                     else Sub(previous[(j + 1) % 4]))
  {
    hide Add, Sub, PowerOfX, Feed, WordAt;
    WordIs(key, i);
    FeedByte(i, WordAt(key, i - 1), j);
  }

  lemma WordIs(key: Block, i: nat)
    requires 4 <= i < 44
    ensures WordAt(key, i) == XorWords(WordAt(key, i - 4), Feed(i, WordAt(key, i - 1)))
  {
    hide XorWords, Feed;
  }

  lemma ByteOfWord(key: Block, i: nat, j: nat)
    requires i < 44 && j < 4
    ensures ExpandKey(key)[4 * i + j] == WordAt(key, i)[j]
  {
    hide WordAt;
    WordsAt(key, 44, i);
    KeyWords(key);
    assert ExpandKey(key)[4 * i..4 * i + 4][j] == ExpandKey(key)[4 * i + j];
  }

  lemma ScheduleStart(key: Block)
    ensures ExpandKey(key)[..16] == key
  {
    hide ExpandKey;
    forall n | 0 <= n < 16
      ensures ExpandKey(key)[n] == key[n]
    {
      ByteOfWord(key, n / 4, n % 4);
      assert n == 4 * (n / 4) + n % 4;
    }
  }

  // ---------------------------------------------------------------- messages

  /** Byte `n` of a padded message: behind the message stands the number of bytes that follow. */
  function PaddedByte(p: seq<bv8>, n: nat): bv8 {
    if n < |p| then p[n] else ByteOf(16 - |p| % 16)
  }

  lemma {:induction false} ChainAt(p: seq<bv8>, w: Schedule, previous: Block, j: nat)
    requires Whole(p) && 16 * j + 16 <= |p|
    ensures var c := Chain(p, w, previous);
            BlockAt(c, j)
            == EncryptBlock(XorBlocks(BlockAt(p, j), if j == 0 then previous else BlockAt(c, j - 1)), w)
    decreases j
  {
    hide EncryptBlock, XorBlocks, BlockAt;
    var first := EncryptBlock(XorBlocks(p[..16], previous), w);
    var rest := Chain(p[16..], w, first);
    assert Chain(p, w, previous) == first + rest;
    assert p == p[..16] + p[16..];
    FirstBlock(first, rest);
    FirstBlock(p[..16], p[16..]);
    if j == 0 {
    } else {
      ChainAt(p[16..], w, first, j - 1);
      BlockBehind(first, rest, j);
      BlockBehind(p[..16], p[16..], j);
      if j > 1 {
        BlockBehind(first, rest, j - 1);
      }
    }
  }

  /** Every block of an encrypted message: the padded message added to the block of ciphertext before it, or to the last
      16 bytes of the key buffer, and encrypted under the first 16. */
  lemma EncryptedAt(p: seq<bv8>, key: seq<bv8>, j: nat, x: Block)
    requires |key| == 32 && j <= |p| / 16
    requires forall i :: 0 <= i < 16 ==>
               x[i] == Add(PaddedByte(p, 16 * j + i),
                           if j == 0 then key[16 + i] else Encrypted(p, key)[16 * (j - 1) + i])
    ensures |Encrypted(p, key)| == 16 * (|p| / 16 + 1)
    ensures Encrypted(p, key)[16 * j..16 * j + 16] == EncryptBlock(x, ExpandKey(key[..16]))
  {
    hide EncryptBlock, ExpandKey, Chain, Add;
    var (s, w, iv) := (Pad(p), ExpandKey(key[..16]), key[16..]);
    ChainAt(s, w, iv, j);
    var previous: Block := if j == 0 then iv else BlockAt(Encrypted(p, key), j - 1);
    var y := XorBlocks(BlockAt(s, j), previous);
    forall i | 0 <= i < 16
      ensures x[i] == y[i]
    {
      assert s[16 * j + i] == PaddedByte(p, 16 * j + i);
      assert BlockAt(s, j)[i] == s[16 * j + i];
    }
    assert x == y;
  }
}
