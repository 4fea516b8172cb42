/** The AES-128 block cipher, sections 5.1 to 5.3 of FIPS 197, on sequences of 16 bytes (column by column). */
module AesRounds {
  import opened Gf256
  import opened SBox

  type Block = s: seq<bv8> | |s| == 16 witness seq(16, i => 0)

  function SubBytes(s: Block): Block {
    seq(16, i requires 0 <= i < 16 => Sub(s[i]))
  }

  function InvSubBytes(s: Block): Block {
    seq(16, i requires 0 <= i < 16 => InvSub(s[i]))
  }

  /** Row r moves left by r columns: byte (r, c) comes from column c + r. */
  function ShiftRows(s: Block): Block {
    seq(16, i requires 0 <= i < 16 => s[i % 4 + 4 * ((i / 4 + i % 4) % 4)])
  }

  function InvShiftRows(s: Block): Block {
    seq(16, i requires 0 <= i < 16 => s[i % 4 + 4 * ((i / 4 + 4 - i % 4) % 4)])
  }

  function MixAt(s: Block, c: nat, r: nat): bv8
    requires c < 4 && r < 4
  {
    Mix(s[4 * c + r], s[4 * c + (r + 1) % 4], s[4 * c + (r + 2) % 4], s[4 * c + (r + 3) % 4])
  }

  function UnmixAt(s: Block, c: nat, r: nat): bv8
    requires c < 4 && r < 4
  {
    Unmix(s[4 * c + r], s[4 * c + (r + 1) % 4], s[4 * c + (r + 2) % 4], s[4 * c + (r + 3) % 4])
  }

  function MixColumns(s: Block): Block {
    seq(16, i requires 0 <= i < 16 => MixAt(s, i / 4, i % 4))
  }

  function InvMixColumns(s: Block): Block {
    seq(16, i requires 0 <= i < 16 => UnmixAt(s, i / 4, i % 4))
  }

  /** Bytewise exclusive or: AddRoundKey, and the chaining of CBC. */
  function XorBlocks(s: Block, t: Block): Block {
    seq(16, i requires 0 <= i < 16 => Add(s[i], t[i]))
  }

  // ---------------------------------------------------------------- each transformation has its inverse

  lemma SubBytesInverse(s: Block)
    ensures InvSubBytes(SubBytes(s)) == s && SubBytes(InvSubBytes(s)) == s
  {
    hide Sub, InvSub;
    forall i | 0 <= i < 16
      ensures InvSub(Sub(s[i])) == s[i] && Sub(InvSub(s[i])) == s[i]
    {
      SubUndone(s[i]);
      SubReached(s[i]);
    }
  }

  lemma Index(c: nat, r: nat)
    requires c < 4 && r < 4
    ensures (4 * c + r) / 4 == c && (4 * c + r) % 4 == r && 4 * c + r < 16
  {
  }

  lemma ShiftedAt(s: Block, c: nat, r: nat)
    requires c < 4 && r < 4
    ensures ShiftRows(s)[4 * c + r] == s[4 * ((c + r) % 4) + r]
    ensures InvShiftRows(s)[4 * c + r] == s[4 * ((c + 4 - r) % 4) + r]
  {
    Index(c, r);
  }

  lemma TurnBack(c: nat, r: nat)
    requires c < 4 && r < 4
    ensures ((c + 4 - r) % 4 + r) % 4 == c && ((c + r) % 4 + 4 - r) % 4 == c
  {
  }

  lemma ShiftRowsInverse(s: Block)
    ensures InvShiftRows(ShiftRows(s)) == s && ShiftRows(InvShiftRows(s)) == s
  {
    hide ShiftRows, InvShiftRows;
    forall i | 0 <= i < 16
      ensures InvShiftRows(ShiftRows(s))[i] == s[i] && ShiftRows(InvShiftRows(s))[i] == s[i]
    {
      var c, r := i / 4, i % 4;
      TurnBack(c, r);
      ShiftedBack(s, c, r, (c + 4 - r) % 4, (c + r) % 4);
      assert i == 4 * (i / 4) + i % 4;
    }
  }

  lemma ShiftedBack(s: Block, c: nat, r: nat, before: nat, after: nat)
    requires c < 4 && r < 4 && before < 4 && after < 4
    requires before == (c + 4 - r) % 4 && after == (c + r) % 4
    requires (before + r) % 4 == c && (after + 4 - r) % 4 == c
    ensures InvShiftRows(ShiftRows(s))[4 * c + r] == s[4 * c + r]
    ensures ShiftRows(InvShiftRows(s))[4 * c + r] == s[4 * c + r]
  {
    hide ShiftRows, InvShiftRows;
    ShiftedAt(ShiftRows(s), c, r);
    ShiftedAt(s, before, r);
    ShiftedAt(InvShiftRows(s), c, r);
    ShiftedAt(s, after, r);
  }

  lemma ColumnAt(s: Block, c: nat)
    requires c < 4
    ensures var (p, q, v, w) := (s[4 * c], s[4 * c + 1], s[4 * c + 2], s[4 * c + 3]);
            var m, u := MixColumns(s), InvMixColumns(s);
            && m[4 * c] == Mix(p, q, v, w) && m[4 * c + 1] == Mix(q, v, w, p)
            && m[4 * c + 2] == Mix(v, w, p, q) && m[4 * c + 3] == Mix(w, p, q, v)
            && u[4 * c] == Unmix(p, q, v, w) && u[4 * c + 1] == Unmix(q, v, w, p)
            && u[4 * c + 2] == Unmix(v, w, p, q) && u[4 * c + 3] == Unmix(w, p, q, v)
  {
    hide Mix, Unmix, MixColumns, InvMixColumns;
    MixedAt(s, c, 0);
    MixedAt(s, c, 1);
    MixedAt(s, c, 2);
    MixedAt(s, c, 3);
  }

  lemma MixedAt(s: Block, c: nat, r: nat)
    requires c < 4 && r < 4
    ensures MixColumns(s)[4 * c + r] == MixAt(s, c, r) && InvMixColumns(s)[4 * c + r] == UnmixAt(s, c, r)
  {
    hide Mix, Unmix;
    Index(c, r);
  }

  lemma MixColumnsInverse(s: Block)
    ensures InvMixColumns(MixColumns(s)) == s && MixColumns(InvMixColumns(s)) == s
  {
    hide Mix, Unmix, MixColumns, InvMixColumns;
    forall i | 0 <= i < 16
      ensures InvMixColumns(MixColumns(s))[i] == s[i] && MixColumns(InvMixColumns(s))[i] == s[i]
    {
      ColumnInverse(s, i / 4);
    }
  }

  lemma ColumnInverse(s: Block, c: nat)
    requires c < 4
    ensures var a, b := InvMixColumns(MixColumns(s)), MixColumns(InvMixColumns(s));
            forall r :: 4 * c <= r < 4 * c + 4 ==> a[r] == s[r] && b[r] == s[r]
  {
    hide Mix, Unmix, MixColumns, InvMixColumns;
    var (p, q, v, w) := (s[4 * c], s[4 * c + 1], s[4 * c + 2], s[4 * c + 3]);
    ColumnAt(s, c);
    ColumnAt(MixColumns(s), c);
    ColumnAt(InvMixColumns(s), c);
    UnmixMix(p, q, v, w);
    UnmixMix(q, v, w, p);
    UnmixMix(v, w, p, q);
    UnmixMix(w, p, q, v);
    MixUnmix(p, q, v, w);
    MixUnmix(q, v, w, p);
    MixUnmix(v, w, p, q);
    MixUnmix(w, p, q, v);
  }

  lemma XorBlocksInverse(s: Block, t: Block)
    ensures XorBlocks(XorBlocks(s, t), t) == s
  {
    hide Add;
    forall i | 0 <= i < 16
      ensures Add(Add(s[i], t[i]), t[i]) == s[i]
    {
      AddTwice(s[i], t[i]);
    }
  }

  lemma AddTwice(x: bv8, y: bv8)
    ensures Add(Add(x, y), y) == x
  {
  }

  // ---------------------------------------------------------------- rounds

  type Schedule = w: seq<bv8> | |w| == 176 witness seq(176, i => 0)

  function RoundKey(w: Schedule, r: nat): Block
    requires r <= 10
  {
    w[16 * r..16 * r + 16]
  }

  function Round(s: Block, w: Schedule, r: nat): Block
    requires r <= 10
  {
    XorBlocks(MixColumns(ShiftRows(SubBytes(s))), RoundKey(w, r))
  }

  function InvRound(s: Block, w: Schedule, r: nat): Block
    requires r <= 10
  {
    InvMixColumns(XorBlocks(InvSubBytes(InvShiftRows(s)), RoundKey(w, r)))
  }

  /** Rounds 1 to `r` of encryption. */
  function Rounds(s: Block, w: Schedule, r: nat): Block
    requires r <= 10
  {
    if r == 0 then s else Round(Rounds(s, w, r - 1), w, r)
  }

  /** Rounds `r` down to 1 of decryption. */
  function InvRounds(s: Block, w: Schedule, r: nat): Block
    requires r <= 10
    decreases r
  {
    if r == 0 then s else InvRounds(InvRound(s, w, r), w, r - 1)
  }

  function EncryptBlock(s: Block, w: Schedule): Block {
    XorBlocks(ShiftRows(SubBytes(Rounds(XorBlocks(s, RoundKey(w, 0)), w, 9))), RoundKey(w, 10))
  }

  function DecryptBlock(s: Block, w: Schedule): Block {
    XorBlocks(InvSubBytes(InvShiftRows(InvRounds(XorBlocks(s, RoundKey(w, 10)), w, 9))), RoundKey(w, 0))
  }

  /** Undoing a round the way the equivalent decryption is laid out: across the S-box of the next round. */
  lemma RoundUndone(s: Block, w: Schedule, r: nat)
    requires r <= 10
    ensures InvRound(ShiftRows(SubBytes(Round(s, w, r))), w, r) == ShiftRows(SubBytes(s))
  {
    hide SubBytes, InvSubBytes, ShiftRows, InvShiftRows, MixColumns, InvMixColumns, XorBlocks, RoundKey;
    var t := Round(s, w, r);
    ShiftRowsInverse(SubBytes(t));
    SubBytesInverse(t);
    XorBlocksInverse(MixColumns(ShiftRows(SubBytes(s))), RoundKey(w, r));
    MixColumnsInverse(ShiftRows(SubBytes(s)));
  }

  lemma {:induction false} RoundsUndone(s: Block, w: Schedule, r: nat)
    requires r <= 10
    ensures InvRounds(ShiftRows(SubBytes(Rounds(s, w, r))), w, r) == ShiftRows(SubBytes(s))
  {
    hide SubBytes, ShiftRows, Round, InvRound;
    if r == 0 {
    } else {
      RoundUndone(Rounds(s, w, r - 1), w, r);
      RoundsUndone(s, w, r - 1);
    }
  }

  lemma RoundReached(s: Block, w: Schedule, r: nat)
    requires r <= 10
    ensures Round(InvSubBytes(InvShiftRows(InvRound(s, w, r))), w, r) == InvSubBytes(InvShiftRows(s))
  {
    hide SubBytes, InvSubBytes, ShiftRows, InvShiftRows, MixColumns, InvMixColumns, XorBlocks, RoundKey;
    var t := InvRound(s, w, r);
    SubBytesInverse(InvShiftRows(t));
    ShiftRowsInverse(t);
    MixColumnsInverse(XorBlocks(InvSubBytes(InvShiftRows(s)), RoundKey(w, r)));
    XorBlocksInverse(InvSubBytes(InvShiftRows(s)), RoundKey(w, r));
  }

  lemma {:induction false} RoundsReached(s: Block, w: Schedule, r: nat)
    requires r <= 10
    ensures Rounds(InvSubBytes(InvShiftRows(InvRounds(s, w, r))), w, r) == InvSubBytes(InvShiftRows(s))
    decreases r
  {
    hide InvSubBytes, InvShiftRows, Round, InvRound;
    if r == 0 {
    } else {
      RoundsReached(InvRound(s, w, r), w, r - 1);
      RoundReached(s, w, r);
    }
  }

  /** Block encryption and decryption are inverse to each other under every schedule. */
  lemma DecryptEncrypt(s: Block, w: Schedule)
    ensures DecryptBlock(EncryptBlock(s, w), w) == s
  {
    hide SubBytes, InvSubBytes, ShiftRows, InvShiftRows, XorBlocks, RoundKey, Rounds, InvRounds;
    var t := XorBlocks(s, RoundKey(w, 0));
    XorBlocksInverse(ShiftRows(SubBytes(Rounds(t, w, 9))), RoundKey(w, 10));
    RoundsUndone(t, w, 9);
    ShiftRowsInverse(SubBytes(t));
    SubBytesInverse(t);
    XorBlocksInverse(s, RoundKey(w, 0));
  }

  lemma EncryptDecrypt(s: Block, w: Schedule)
    ensures EncryptBlock(DecryptBlock(s, w), w) == s
  {
    hide SubBytes, InvSubBytes, ShiftRows, InvShiftRows, XorBlocks, RoundKey, Rounds, InvRounds;
    var t := XorBlocks(s, RoundKey(w, 10));
    var u := InvSubBytes(InvShiftRows(InvRounds(t, w, 9)));
    XorBlocksInverse(u, RoundKey(w, 0));
    RoundsReached(t, w, 9);
    SubBytesInverse(InvShiftRows(t));
    ShiftRowsInverse(t);
    XorBlocksInverse(s, RoundKey(w, 10));
  }
}
