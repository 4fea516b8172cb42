/** The AES-128 key schedule, section 5.2 of FIPS 197. */
module AesKeySchedule {
  import opened Core
  import opened Gf256
  import opened SBox
  import opened AesRounds

  type KeyWord = s: seq<bv8> | |s| == 4 witness [0, 0, 0, 0]

  const RCON: seq<bv8> := [0x00, 0x01, 0x02, 0x04, 0x08, 0x10, 0x20, 0x40, 0x80, 0x1b, 0x36]

  /** Each round constant is the one before it times x. */
  lemma RoundConstants(i: nat)
    requires 1 <= i < 10
    ensures RCON[1] == 1 && RCON[i + 1] == Xtime(RCON[i])
  {
    assert Xtime(1) == 2 && Xtime(2) == 4 && Xtime(4) == 8 && Xtime(8) == 0x10 && Xtime(0x10) == 0x20;
    assert Xtime(0x20) == 0x40 && Xtime(0x40) == 0x80 && Xtime(0x80) == 0x1b && Xtime(0x1b) == 0x36;
  }

  function XorWords(s: KeyWord, t: KeyWord): KeyWord {
    [Add(s[0], t[0]), Add(s[1], t[1]), Add(s[2], t[2]), Add(s[3], t[3])]
  }

  /** What word `i` adds to the word four before it, given the word before it. */
  function Feed(i: nat, previous: KeyWord): KeyWord
    requires 4 <= i < 44
  {
    if i % 4 == 0
    then [Add(Sub(previous[1]), RCON[i / 4]), Sub(previous[2]), Sub(previous[3]), Sub(previous[0])]
    else previous
  }

  function WordAt(key: Block, i: nat): KeyWord
    requires i < 44
  {
    if i < 4 then key[4 * i..4 * i + 4] else XorWords(WordAt(key, i - 4), Feed(i, WordAt(key, i - 1)))
  }

  /** Words 0 to n - 1, one after the other. */
  function Words(key: Block, n: nat): (w: seq<bv8>)
    requires n <= 44
    ensures |w| == 4 * n
  {
    if n == 0 then [] else Words(key, n - 1) + WordAt(key, n - 1)
  }

  function ExpandKey(key: Block): Schedule {
    Words(key, 44)
  }

  lemma {:induction false} WordsAt(key: Block, n: nat, i: nat)
    requires i < n <= 44
    ensures Words(key, n)[4 * i..4 * i + 4] == WordAt(key, i)
  {
    if i == n - 1 {
    } else {
      WordsAt(key, n - 1, i);
      assert Words(key, n)[4 * i..4 * i + 4] == Words(key, n - 1)[4 * i..4 * i + 4];
    }
  }

  lemma XorWordsTwice(s: KeyWord, t: KeyWord)
    ensures XorWords(XorWords(s, t), t) == s
  {
    hide Add;
    AddTwice(s[0], t[0]);
    AddTwice(s[1], t[1]);
    AddTwice(s[2], t[2]);
    AddTwice(s[3], t[3]);
  }

  /** Four consecutive words determine the word before them, */
  lemma {:induction false} WordsGoBack(k: Block, l: Block, i: nat)
    requires i <= 40 && forall j :: i <= j < i + 4 ==> WordAt(k, j) == WordAt(l, j)
    ensures forall j :: 0 <= j < i + 4 ==> WordAt(k, j) == WordAt(l, j)
  {
    hide XorWords, Feed;
    if i == 0 {
    } else {
      var j := i + 3;
      assert WordAt(k, j - 1) == WordAt(l, j - 1) && WordAt(k, j) == WordAt(l, j);
      assert WordAt(k, j) == XorWords(WordAt(k, j - 4), Feed(j, WordAt(k, j - 1)));
      assert WordAt(l, j) == XorWords(WordAt(l, j - 4), Feed(j, WordAt(l, j - 1)));
      XorWordsTwice(WordAt(k, j - 4), Feed(j, WordAt(k, j - 1)));
      XorWordsTwice(WordAt(l, j - 4), Feed(j, WordAt(l, j - 1)));
      assert WordAt(k, i - 1) == WordAt(l, i - 1);
      WordsGoBack(k, l, i - 1);
    }
  }

  /** so any single round key determines the cipher key. */
  lemma RoundKeyDeterminesKey(k: Block, l: Block, r: nat)
    requires r <= 10 && RoundKey(ExpandKey(k), r) == RoundKey(ExpandKey(l), r)
    ensures k == l
  {
    hide WordAt, ExpandKey;
    KeyWords(k);
    KeyWords(l);
    forall j | 4 * r <= j < 4 * r + 4
      ensures WordAt(k, j) == WordAt(l, j)
    {
      WordsAt(k, 44, j);
      WordsAt(l, 44, j);
      var at := 4 * (j - 4 * r);
      SliceOfSlice(ExpandKey(k), 16 * r, 16 * r + 16, at, at + 4);
      SliceOfSlice(ExpandKey(l), 16 * r, 16 * r + 16, at, at + 4);
    }
    WordsGoBack(k, l, 4 * r);
    KeyIsFirstWords(k);
    KeyIsFirstWords(l);
  }

  lemma KeyWords(k: Block)
    ensures ExpandKey(k) == Words(k, 44)
  {
  }

  lemma KeyIsFirstWords(k: Block)
    ensures k == WordAt(k, 0) + WordAt(k, 1) + WordAt(k, 2) + WordAt(k, 3)
  {
  }
}

/** Cipher block chaining, section 6.2 of NIST SP 800-38A, and padding, section 6.3 of RFC 5652. */
module AesCbc {
  import opened Core
  import opened Gf256
  import opened AesRounds
  import opened AesKeySchedule

  predicate Whole(s: seq<bv8>) {
    |s| % 16 == 0
  }

  function Chain(p: seq<bv8>, w: Schedule, previous: Block): (c: seq<bv8>)
    requires Whole(p)
    ensures |c| == |p|
  {
    if p == [] then []
    else
      var c := EncryptBlock(XorBlocks(p[..16], previous), w);
      c + Chain(p[16..], w, c)
  }

  function Unchain(c: seq<bv8>, w: Schedule, previous: Block): (p: seq<bv8>)
    requires Whole(c)
    ensures |p| == |c|
  {
    if c == [] then [] else XorBlocks(DecryptBlock(c[..16], w), previous) + Unchain(c[16..], w, c[..16])
  }

  lemma {:induction false} UnchainChain(p: seq<bv8>, w: Schedule, previous: Block)
    requires Whole(p)
    ensures Unchain(Chain(p, w, previous), w, previous) == p
    decreases |p|
  {
    hide EncryptBlock, DecryptBlock, XorBlocks;
    if p == [] {
    } else {
      var x := XorBlocks(p[..16], previous);
      var c: Block := EncryptBlock(x, w);
      var rest: seq<bv8> := Chain(p[16..], w, c);
      var whole: seq<bv8> := c + rest;
      assert whole[..16] == c && whole[16..] == rest;
      DecryptEncrypt(x, w);
      XorBlocksInverse(p[..16], previous);
      UnchainChain(p[16..], w, c);
      assert p == p[..16] + p[16..];
    }
  }

  lemma {:induction false} ChainUnchain(c: seq<bv8>, w: Schedule, previous: Block)
    requires Whole(c)
    ensures Chain(Unchain(c, w, previous), w, previous) == c
    decreases |c|
  {
    hide EncryptBlock, DecryptBlock, XorBlocks;
    if c == [] {
    } else {
      var d := DecryptBlock(c[..16], w);
      var p := XorBlocks(d, previous);
      var rest: seq<bv8> := Unchain(c[16..], w, c[..16]);
      var whole: seq<bv8> := p + rest;
      assert whole[..16] == p && whole[16..] == rest;
      XorBlocksInverse(d, previous);
      EncryptDecrypt(c[..16], w);
      ChainUnchain(c[16..], w, c[..16]);
      assert c == c[..16] + c[16..];
    }
  }

  // ---------------------------------------------------------------- locality

  function BlockAt(s: seq<bv8>, j: nat): Block
    requires 16 * j + 16 <= |s|
  {
    s[16 * j..16 * j + 16]
  }

  /** A decrypted block depends on its own ciphertext block and the one before it. */
  lemma {:induction false} UnchainAt(c: seq<bv8>, w: Schedule, previous: Block, j: nat)
    requires Whole(c) && 16 * j + 16 <= |c|
    ensures BlockAt(Unchain(c, w, previous), j)
         == XorBlocks(DecryptBlock(BlockAt(c, j), w), if j == 0 then previous else BlockAt(c, j - 1))
    decreases j
  {
    hide DecryptBlock, XorBlocks, BlockAt;
    var p := XorBlocks(DecryptBlock(c[..16], w), previous);
    var rest := Unchain(c[16..], w, c[..16]);
    assert Unchain(c, w, previous) == p + rest;
    assert c == c[..16] + c[16..];
    FirstBlock(p, rest);
    FirstBlock(c[..16], c[16..]);
    if j == 0 {
    } else {
      UnchainAt(c[16..], w, c[..16], j - 1);
      BlockBehind(p, rest, j);
      BlockBehind(c[..16], c[16..], j);
      if j > 1 {
        BlockBehind(c[..16], c[16..], j - 1);
      }
    }
  }

  lemma FirstBlock(b: Block, rest: seq<bv8>)
    ensures BlockAt(b + rest, 0) == b
  {
    assert (b + rest)[..16] == b;
  }

  lemma BlockBehind(b: Block, rest: seq<bv8>, j: nat)
    requires 0 < j && 16 * j <= |rest|
    ensures BlockAt(b + rest, j) == BlockAt(rest, j - 1)
  {
  }

  /** Replacing ciphertext block `j` leaves every decrypted block other than `j` and `j + 1` alone, and changes block
      `j + 1` by the difference of the old and the new block. */
  lemma ReplacedBlock(c: seq<bv8>, b: Block, w: Schedule, iv: Block, j: nat, k: nat)
    requires Whole(c) && 16 * j + 16 <= |c| && 16 * k + 16 <= |c|
    ensures var before, after := Unchain(c, w, iv), Unchain(Splice(c, 16 * j, b), w, iv);
            && (k != j && k != j + 1 ==> BlockAt(after, k) == BlockAt(before, k))
            && (k == j + 1 ==> BlockAt(after, k) == XorBlocks(BlockAt(before, k), XorBlocks(BlockAt(c, j), b)))
  {
    hide DecryptBlock, XorBlocks, Unchain;
    var c' := Splice(c, 16 * j, b);
    UnchainAt(c, w, iv, k);
    UnchainAt(c', w, iv, k);
    assert BlockAt(c', j) == b;
    if k != j {
      BlockKept(c, b, j, k);
    }
    if k > 0 && k - 1 != j {
      BlockKept(c, b, j, k - 1);
    }
    if k == j + 1 {
      XorBlocksSwap(DecryptBlock(BlockAt(c, k), w), BlockAt(c, j), b);
    }
  }

  lemma BlockKept(c: seq<bv8>, b: Block, j: nat, k: nat)
    requires 16 * j + 16 <= |c| && 16 * k + 16 <= |c| && k != j
    ensures BlockAt(Splice(c, 16 * j, b), k) == BlockAt(c, k)
  {
  }

  lemma XorBlocksSwap(d: Block, s: Block, t: Block)
    ensures XorBlocks(d, t) == XorBlocks(XorBlocks(d, s), XorBlocks(s, t))
  {
    hide Add;
    forall i | 0 <= i < 16
      ensures Add(d[i], t[i]) == Add(Add(d[i], s[i]), Add(s[i], t[i]))
    {
      AddThrough(d[i], s[i], t[i]);
    }
  }

  lemma AddThrough(x: bv8, y: bv8, z: bv8)
    ensures Add(x, z) == Add(Add(x, y), Add(y, z))
  {
    hide Add;
    AddIs(x, y);
    AddIs(y, z);
    AddIs(x, z);
    AddThroughFlat(x, y, z);
  }

  lemma AddThroughFlat(x: bv8, y: bv8, z: bv8)
    ensures Add(x ^ y, y ^ z) == x ^ z
  {
  }

  // ---------------------------------------------------------------- padding

  function PadLength(n: nat): (k: nat)
    ensures 1 <= k <= 16 && (n + k) % 16 == 0
  {
    16 - n % 16
  }

  function Repeat(b: bv8, n: nat): (s: seq<bv8>)
    ensures |s| == n && forall i :: 0 <= i < n ==> s[i] == b
  {
    seq(n, i => b)
  }

  function Pad(p: seq<bv8>): (s: seq<bv8>)
    ensures Whole(s) && |s| == 16 * (|p| / 16 + 1) == |p| + PadLength(|p|)
  {
    p + Repeat(ByteOf(PadLength(|p|)), PadLength(|p|))
  }

  /** The last byte tells how many bytes, all of them equal to it, are padding. */
  predicate Padded(s: seq<bv8>) {
    && s != [] && Whole(s)
    && var k := Value(s[|s| - 1]);
    && 1 <= k <= 16
    && forall i :: |s| - k <= i < |s| ==> s[i] == s[|s| - 1]
  }

  function Unpad(s: seq<bv8>): (p: seq<bv8>)
    requires Padded(s)
  {
    s[..|s| - Value(s[|s| - 1])]
  }

  lemma UnpadPad(p: seq<bv8>)
    ensures Padded(Pad(p)) && Unpad(Pad(p)) == p
  {
    hide ByteOf, Value;
    ValueOfByte(PadLength(|p|));
  }

  lemma PadUnpad(s: seq<bv8>)
    requires Padded(s)
    ensures Pad(Unpad(s)) == s
  {
    hide ByteOf, Value;
    var p, last := Unpad(s), s[|s| - 1];
    assert PadLength(|p|) == Value(last);
    ByteOfValue(last);
    assert s == p + s[|p|..];
  }

  // ---------------------------------------------------------------- messages

  predicate KeyOk(key: seq<bv8>) {
    |key| == 32
  }

  /** 16 bytes of key, then 16 bytes of initialization vector. */
  function Encrypted(p: seq<bv8>, key: seq<bv8>): (c: seq<bv8>)
    requires KeyOk(key)
    ensures |c| == 16 * (|p| / 16 + 1)
  {
    Chain(Pad(p), ExpandKey(key[..16]), key[16..])
  }

  function PlainBlocks(c: seq<bv8>, key: seq<bv8>): (d: seq<bv8>)
    requires KeyOk(key) && Whole(c)
    ensures |d| == |c|
  {
    Unchain(c, ExpandKey(key[..16]), key[16..])
  }

  /** What decryption returns on whole blocks; None stands for ERR_CRYPTO. A message of one block whose padding is
      malformed comes out as the empty message: src/crypto/aes.cpp:385-389. */
  function Decrypted(c: seq<bv8>, key: seq<bv8>): Option<seq<bv8>>
    requires KeyOk(key) && Whole(c) && c != []
  {
    var d := PlainBlocks(c, key);
    if Padded(d) then Some(Unpad(d)) else if |c| == 16 then Some([]) else None
  }

  /** Decryption gives back every message, whatever its length. */
  lemma DecryptedEncrypted(p: seq<bv8>, key: seq<bv8>)
    requires KeyOk(key)
    ensures Whole(Encrypted(p, key)) && Encrypted(p, key) != []
    ensures Decrypted(Encrypted(p, key), key) == Some(p)
  {
    hide Chain, Unchain, ExpandKey, Pad, Unpad, Padded;
    UnchainChain(Pad(p), ExpandKey(key[..16]), key[16..]);
    UnpadPad(p);
  }

  /** A ciphertext is what encrypting its decryption gives exactly when its last block ends in padding. */
  lemma EncryptedDecrypted(c: seq<bv8>, key: seq<bv8>)
    requires KeyOk(key) && Whole(c) && c != []
    ensures Padded(PlainBlocks(c, key)) <==>
            Decrypted(c, key).Some? && Encrypted(Decrypted(c, key).value, key) == c
  {
    hide Chain, Unchain, ExpandKey, Pad, Unpad, Padded;
    var d := PlainBlocks(c, key);
    ChainUnchain(c, ExpandKey(key[..16]), key[16..]);
    if Padded(d) {
      PadUnpad(d);
    } else if Decrypted(c, key).Some? && Encrypted(Decrypted(c, key).value, key) == c {
      var p := Decrypted(c, key).value;
      UnchainChain(Pad(p), ExpandKey(key[..16]), key[16..]);
      UnpadPad(p);
      assert false;
    }
  }

  /** Decryption fails exactly on bad padding in more than one block; a single block never fails. */
  lemma DecryptionFails(c: seq<bv8>, key: seq<bv8>)
    requires KeyOk(key) && Whole(c) && c != []
    ensures Decrypted(c, key) == None <==> |c| > 16 && !Padded(PlainBlocks(c, key))
    ensures Decrypted(c, key) == Some([]) <==>
              |c| == 16 && (!Padded(PlainBlocks(c, key)) || PlainBlocks(c, key) == Repeat(0x10, 16))
  {
    hide Unchain, ExpandKey;
    var d := PlainBlocks(c, key);
    if Padded(d) && Unpad(d) == [] {
      assert Value(d[|d| - 1]) == |d| == 16;
      ValueInjective(d[|d| - 1], 0x10);
      assert d == Repeat(0x10, 16);
    }
    if d == Repeat(0x10, 16) {
      assert Padded(d) && Unpad(d) == [];
    }
  }

  /** There are single blocks that decrypt to the empty message although no message encrypts to them. */
  lemma SingleBlockDeviation(key: seq<bv8>)
    requires KeyOk(key)
    ensures var c := Chain(Repeat(0x00, 16), ExpandKey(key[..16]), key[16..]);
            Decrypted(c, key) == Some([]) && forall p :: Encrypted(p, key) != c
  {
    hide Chain, Unchain, ExpandKey, Pad, Unpad;
    var zeros := Repeat(0x00, 16);
    var c := Chain(zeros, ExpandKey(key[..16]), key[16..]);
    UnchainChain(zeros, ExpandKey(key[..16]), key[16..]);
    forall p
      ensures Encrypted(p, key) != c
    {
      UnchainChain(Pad(p), ExpandKey(key[..16]), key[16..]);
      UnpadPad(p);
    }
  }
}
