/** src/crypto/aes.cpp as written: loops over state arrays, proved against the sequences of the other modules. */
module AesCode {
  import opened Core
  import opened Gf256
  import opened SBox
  import opened AesRounds
  import opened AesKeySchedule
  import opened AesCbc

  lemma AddAssociative(x: bv8, y: bv8, z: bv8)
    ensures Add(x, Add(y, z)) == Add(Add(x, y), z)
  {
    hide Add;
    AddIs(y, z);
    AddIs(x, y);
    AddAssociativeFlat(x, y, z);
  }

  lemma AddAssociativeFlat(x: bv8, y: bv8, z: bv8)
    ensures Add(x, y ^ z) == Add(x ^ y, z)
  {
  }

  lemma ZeroAdd(x: bv8)
    ensures Add(0, x) == x
  {
  }

  /** Shift and add over the bits of `b`. */
  method Gmul(a: bv8, b: bv8) returns (p: bv8)
    ensures p == Times(a, b)
  {
    hide Add, High, Double, Reduce;
    p := 0;
    var x, y, i := a, b, 0;
    ZeroAdd(Times(a, b));
    while i < 8
      invariant 0 <= i <= 8
      invariant Times(a, b) == Add(p, Product(x, y, 8 - i))
    {
      if y & 1 == 1 {
        AddAssociative(p, x, Product(Xtime(x), y >> 1, 7 - i));
        p := Add(p, x);
      }
      var hiBitSet := High(x);
      x := Double(x);
      if hiBitSet {
        x := Reduce(x);
      }
      y := y >> 1;
      i := i + 1;
    }
    AddZero();
  }

  method SubBytesInPlace(state: array<bv8>)
    requires state.Length == 16
    modifies state
    ensures state[..] == SubBytes(old(state[..]))
  {
    hide Sub;
    var i := 0;
    while i < 16
      invariant 0 <= i <= 16
      invariant forall j :: 0 <= j < i ==> state[j] == Sub(old(state[j]))
      invariant forall j :: i <= j < 16 ==> state[j] == old(state[j])
    {
      state[i] := Sub(state[i]);
      i := i + 1;
    }
  }

  method InvSubBytesInPlace(state: array<bv8>)
    requires state.Length == 16
    modifies state
    ensures state[..] == InvSubBytes(old(state[..]))
  {
    hide InvSub;
    var i := 0;
    while i < 16
      invariant 0 <= i <= 16
      invariant forall j :: 0 <= j < i ==> state[j] == InvSub(old(state[j]))
      invariant forall j :: i <= j < 16 ==> state[j] == old(state[j])
    {
      state[i] := InvSub(state[i]);
      i := i + 1;
    }
  }

  lemma ShiftedRows(s: Block)
    ensures ShiftRows(s) == [s[0], s[5], s[10], s[15], s[4], s[9], s[14], s[3],
                             s[8], s[13], s[2], s[7], s[12], s[1], s[6], s[11]]
  {
  }

  lemma UnshiftedRows(s: Block)
    ensures InvShiftRows(s) == [s[0], s[13], s[10], s[7], s[4], s[1], s[14], s[11],
                                s[8], s[5], s[2], s[15], s[12], s[9], s[6], s[3]]
  {
  }

  /** Moves the bytes at `a`, `b`, `c`, `d` around: each takes the value of the next, the last that of the first. */
  method Cycle(state: array<bv8>, a: nat, b: nat, c: nat, d: nat)
    requires state.Length == 16 && a < 16 && b < 16 && c < 16 && d < 16
    requires a != b && a != c && a != d && b != c && b != d && c != d
    modifies state
    ensures state[a] == old(state[b]) && state[b] == old(state[c]) && state[c] == old(state[d])
    ensures state[d] == old(state[a])
    ensures forall i :: 0 <= i < 16 && i != a && i != b && i != c && i != d ==> state[i] == old(state[i])
  {
    var temp := state[a];
    state[a] := state[b];
    state[b] := state[c];
    state[c] := state[d];
    state[d] := temp;
  }

  method Swap(state: array<bv8>, a: nat, b: nat)
    requires state.Length == 16 && a < 16 && b < 16 && a != b
    modifies state
    ensures state[a] == old(state[b]) && state[b] == old(state[a])
    ensures forall i :: 0 <= i < 16 && i != a && i != b ==> state[i] == old(state[i])
  {
    var temp := state[a];
    state[a] := state[b];
    state[b] := temp;
  }

  method ShiftRowsInPlace(state: array<bv8>)
    requires state.Length == 16
    modifies state
    ensures state[..] == ShiftRows(old(state[..]))
  {
    hide ShiftRows;
    ShiftedRows(state[..]);
    Cycle(state, 1, 5, 9, 13);
    Swap(state, 2, 10);
    Swap(state, 6, 14);
    Cycle(state, 15, 11, 7, 3);
  }

  method InvShiftRowsInPlace(state: array<bv8>)
    requires state.Length == 16
    modifies state
    ensures state[..] == InvShiftRows(old(state[..]))
  {
    hide InvShiftRows;
    UnshiftedRows(state[..]);
    Cycle(state, 13, 9, 5, 1);
    Swap(state, 2, 10);
    Swap(state, 6, 14);
    Cycle(state, 3, 7, 11, 15);
  }

  method AddRoundKey(state: array<bv8>, keys: array<bv8>, offset: nat)
    requires state.Length == 16 && offset + 16 <= keys.Length && state != keys
    modifies state
    ensures state[..] == XorBlocks(old(state[..]), keys[offset..offset + 16])
  {
    hide Add;
    var i := 0;
    while i < 16
      invariant 0 <= i <= 16
      invariant forall j :: 0 <= j < i ==> state[j] == Add(old(state[j]), keys[offset + j])
      invariant forall j :: i <= j < 16 ==> state[j] == old(state[j])
    {
      state[i] := Add(state[i], keys[offset + i]);
      i := i + 1;
    }
  }

  /** The four bytes of a mixed column, in the order of terms of the source. */
  method MixOne(a: bv8, b: bv8, c: bv8, d: bv8) returns (p: bv8, q: bv8, r: bv8, s: bv8)
    ensures p == Mix(a, b, c, d) && q == Mix(b, c, d, a) && r == Mix(c, d, a, b) && s == Mix(d, a, b, c)
  {
    hide Times, Add4;
    TimesUnit(a);
    TimesUnit(b);
    TimesUnit(c);
    TimesUnit(d);
    var a2 := Gmul(a, 2);
    var b2 := Gmul(b, 2);
    var c2 := Gmul(c, 2);
    var d2 := Gmul(d, 2);
    var a3 := Gmul(a, 3);
    var b3 := Gmul(b, 3);
    var c3 := Gmul(c, 3);
    var d3 := Gmul(d, 3);
    p := Add4(a2, b3, c, d);
    Rotate(b2, c3, d, a);
    q := Add4(a, b2, c3, d);
    Rotate(c2, d3, a, b);
    Rotate(b, c2, d3, a);
    r := Add4(a, b, c2, d3);
    Rotate(a3, b, c, d2);
    s := Add4(a3, b, c, d2);
  }

  lemma TimesUnit(a: bv8)
    ensures Times(a, 1) == a
  {
    hide Xtime, Times, Add;
    TimesConstants(a);
  }

  method UnmixOne(a: bv8, b: bv8, c: bv8, d: bv8) returns (p: bv8, q: bv8, r: bv8, s: bv8)
    ensures p == Unmix(a, b, c, d) && q == Unmix(b, c, d, a) && r == Unmix(c, d, a, b) && s == Unmix(d, a, b, c)
  {
    hide Times, Add4;
    var a14 := Gmul(a, 14);
    var a9 := Gmul(a, 9);
    var a13 := Gmul(a, 13);
    var a11 := Gmul(a, 11);
    var b11 := Gmul(b, 11);
    var b14 := Gmul(b, 14);
    var b9 := Gmul(b, 9);
    var b13 := Gmul(b, 13);
    var c13 := Gmul(c, 13);
    var c11 := Gmul(c, 11);
    var c14 := Gmul(c, 14);
    var c9 := Gmul(c, 9);
    var d9 := Gmul(d, 9);
    var d13 := Gmul(d, 13);
    var d11 := Gmul(d, 11);
    var d14 := Gmul(d, 14);
    p := Add4(a14, b11, c13, d9);
    assert p == Unmix(a, b, c, d);
    Rotate(b14, c11, d13, a9);
    q := Add4(a9, b14, c11, d13);
    assert q == Unmix(b, c, d, a);
    Rotate(c14, d11, a13, b9);
    Rotate(b9, c14, d11, a13);
    r := Add4(a13, b9, c14, d11);
    assert r == Unmix(c, d, a, b);
    Rotate(d14, a11, b13, c9);
    Rotate(c9, d14, a11, b13);
    Rotate(b13, c9, d14, a11);
    s := Add4(a11, b13, c9, d14);
  }

  lemma MixedColumn(s: Block, c: nat)
    requires c < 4
    ensures var m := MixColumns(s);
            && m[4 * c] == Mix(s[4 * c], s[4 * c + 1], s[4 * c + 2], s[4 * c + 3])
            && m[4 * c + 1] == Mix(s[4 * c + 1], s[4 * c + 2], s[4 * c + 3], s[4 * c])
            && m[4 * c + 2] == Mix(s[4 * c + 2], s[4 * c + 3], s[4 * c], s[4 * c + 1])
            && m[4 * c + 3] == Mix(s[4 * c + 3], s[4 * c], s[4 * c + 1], s[4 * c + 2])
  {
    hide Mix, Unmix, MixColumns, InvMixColumns;
    ColumnAt(s, c);
  }

  lemma UnmixedColumn(s: Block, c: nat)
    requires c < 4
    ensures var u := InvMixColumns(s);
            && u[4 * c] == Unmix(s[4 * c], s[4 * c + 1], s[4 * c + 2], s[4 * c + 3])
            && u[4 * c + 1] == Unmix(s[4 * c + 1], s[4 * c + 2], s[4 * c + 3], s[4 * c])
            && u[4 * c + 2] == Unmix(s[4 * c + 2], s[4 * c + 3], s[4 * c], s[4 * c + 1])
            && u[4 * c + 3] == Unmix(s[4 * c + 3], s[4 * c], s[4 * c + 1], s[4 * c + 2])
  {
    hide Mix, Unmix, MixColumns, InvMixColumns;
    ColumnAt(s, c);
  }

  method MixColumnsAt(state: array<bv8>, i: nat)
    requires state.Length == 16 && i < 4
    modifies state
    ensures forall j :: 0 <= j < 16 && (j < 4 * i || j >= 4 * i + 4) ==> state[j] == old(state[j])
    ensures forall j :: 4 * i <= j < 4 * i + 4 ==> state[j] == MixColumns(old(state[..]))[j]
  {
    hide Mix, Unmix, MixColumns;
    MixedColumn(state[..], i);
    var a, b, c, d := state[4 * i], state[4 * i + 1], state[4 * i + 2], state[4 * i + 3];
    a, b, c, d := MixOne(a, b, c, d);
    state[4 * i] := a;
    state[4 * i + 1] := b;
    state[4 * i + 2] := c;
    state[4 * i + 3] := d;
  }

  method MixColumnsInPlace(state: array<bv8>)
    requires state.Length == 16
    modifies state
    ensures state[..] == MixColumns(old(state[..]))
  {
    hide MixColumns;
    ghost var s, m := state[..], MixColumns(state[..]);
    var i := 0;
    while i < 4
      invariant 0 <= i <= 4
      invariant forall j :: 0 <= j < 4 * i ==> state[j] == m[j]
      invariant forall j :: 4 * i <= j < 16 ==> state[j] == s[j]
    {
      ghost var t := state[..];
      MixColumnsAt(state, i);
      MixedColumn(s, i);
      MixedColumn(t, i);
      i := i + 1;
    }
  }

  method InvMixColumnsAt(state: array<bv8>, i: nat)
    requires state.Length == 16 && i < 4
    modifies state
    ensures forall j :: 0 <= j < 16 && (j < 4 * i || j >= 4 * i + 4) ==> state[j] == old(state[j])
    ensures forall j :: 4 * i <= j < 4 * i + 4 ==> state[j] == InvMixColumns(old(state[..]))[j]
  {
    hide Mix, Unmix, InvMixColumns;
    UnmixedColumn(state[..], i);
    var a, b, c, d := state[4 * i], state[4 * i + 1], state[4 * i + 2], state[4 * i + 3];
    a, b, c, d := UnmixOne(a, b, c, d);
    state[4 * i] := a;
    state[4 * i + 1] := b;
    state[4 * i + 2] := c;
    state[4 * i + 3] := d;
  }

  method InvMixColumnsInPlace(state: array<bv8>)
    requires state.Length == 16
    modifies state
    ensures state[..] == InvMixColumns(old(state[..]))
  {
    hide InvMixColumns;
    ghost var s, m := state[..], InvMixColumns(state[..]);
    var i := 0;
    while i < 4
      invariant 0 <= i <= 4
      invariant forall j :: 0 <= j < 4 * i ==> state[j] == m[j]
      invariant forall j :: 4 * i <= j < 16 ==> state[j] == s[j]
    {
      ghost var t := state[..];
      InvMixColumnsAt(state, i);
      UnmixedColumn(s, i);
      UnmixedColumn(t, i);
      i := i + 1;
    }
  }

  method EncryptBlockInto(input: array<bv8>, keys: array<bv8>, output: array<bv8>)
    requires input.Length == 16 && keys.Length == 176 && output.Length == 16
    requires output != keys && output != input
    modifies output
    ensures output[..] == EncryptBlock(input[..], keys[..])
  {
    hide SubBytes, ShiftRows, MixColumns, XorBlocks;
    ghost var w := keys[..];
    Memcpy(output, 0, input, 0, 16);
    assert output[..] == input[..];
    RoundKeyAt(keys, 0);
    AddRoundKey(output, keys, 0);
    ghost var start := output[..];
    var round := 1;
    while round < 10
      invariant 1 <= round <= 10
      invariant output[..] == Rounds(start, w, round - 1)
    {
      SubBytesInPlace(output);
      ShiftRowsInPlace(output);
      MixColumnsInPlace(output);
      RoundKeyAt(keys, round);
      AddRoundKey(output, keys, round * 16);
      round := round + 1;
    }
    SubBytesInPlace(output);
    ShiftRowsInPlace(output);
    RoundKeyAt(keys, 10);
    AddRoundKey(output, keys, 10 * 16);
  }

  lemma RoundKeyAt(keys: array<bv8>, r: nat)
    requires keys.Length == 176 && r <= 10
    ensures keys[r * 16..r * 16 + 16] == RoundKey(keys[..], r)
  {
  }

  method DecryptBlockInto(input: array<bv8>, keys: array<bv8>, output: array<bv8>)
    requires input.Length == 16 && keys.Length == 176 && output.Length == 16
    requires output != keys && output != input
    modifies output
    ensures output[..] == DecryptBlock(input[..], keys[..])
  {
    hide InvSubBytes, InvShiftRows, InvMixColumns, XorBlocks;
    ghost var w := keys[..];
    Memcpy(output, 0, input, 0, 16);
    assert output[..] == input[..];
    RoundKeyAt(keys, 10);
    AddRoundKey(output, keys, 10 * 16);
    ghost var start := output[..];
    var round := 9;
    while round > 0
      invariant 0 <= round <= 9
      invariant InvRounds(output[..], w, round) == InvRounds(start, w, 9)
    {
      InvShiftRowsInPlace(output);
      InvSubBytesInPlace(output);
      RoundKeyAt(keys, round);
      AddRoundKey(output, keys, round * 16);
      InvMixColumnsInPlace(output);
      round := round - 1;
    }
    InvShiftRowsInPlace(output);
    InvSubBytesInPlace(output);
    RoundKeyAt(keys, 0);
    AddRoundKey(output, keys, 0);
  }

  // ---------------------------------------------------------------- key schedule

  /** What word `i` adds, computed from the word before it. */
  method FeedFrom(expanded: array<bv8>, i: nat) returns (temp: array<bv8>)
    requires expanded.Length == 176 && 4 <= i < 44
    ensures fresh(temp) && temp.Length == 4
    ensures temp[..] == Feed(i, expanded[4 * (i - 1)..4 * (i - 1) + 4])
  {
    hide Sub, Add;
    temp := new bv8[4](_ => 0);
    Memcpy(temp, 0, expanded, (i - 1) * 4, 4);
    ghost var previous := expanded[4 * (i - 1)..4 * (i - 1) + 4];
    assert temp[..] == previous;
    if i % 4 == 0 {
      var t := temp[0];
      temp[0] := temp[1];
      temp[1] := temp[2];
      temp[2] := temp[3];
      temp[3] := t;
      temp[0] := Sub(temp[0]);
      temp[1] := Sub(temp[1]);
      temp[2] := Sub(temp[2]);
      temp[3] := Sub(temp[3]);
      temp[0] := Add(temp[0], RCON[i / 4]);
    }
  }

  method KeyExpansion(key: array<bv8>, expanded: array<bv8>)
    requires key.Length >= 16 && expanded.Length == 176 && key != expanded
    modifies expanded
    ensures expanded[..] == ExpandKey(key[..16])
  {
    hide Sub, Add, Feed;
    ghost var k: Block := key[..16];
    Memcpy(expanded, 0, key, 0, 16);
    FirstWords(k);
    assert expanded[..16] == k;
    var i := 4;
    while i < 44
      invariant 4 <= i <= 44
      invariant expanded[..4 * i] == Words(k, i)
    {
      ExpandWord(expanded, i, k);
      i := i + 1;
    }
    assert expanded[..4 * 44] == expanded[..];
  }

  method ExpandWord(expanded: array<bv8>, i: nat, ghost k: Block)
    requires expanded.Length == 176 && 4 <= i < 44 && expanded[..4 * i] == Words(k, i)
    modifies expanded
    ensures expanded[..4 * (i + 1)] == Words(k, i + 1)
  {
    hide Feed, Words, WordAt, XorWords;
    ghost var done := expanded[..4 * i];
    WordsAt(k, i, i - 1);
    WordsAt(k, i, i - 4);
    assert expanded[4 * (i - 1)..4 * (i - 1) + 4] == done[4 * (i - 1)..4 * (i - 1) + 4];
    assert expanded[4 * (i - 4)..4 * (i - 4) + 4] == done[4 * (i - 4)..4 * (i - 4) + 4];
    var temp := FeedFrom(expanded, i);
    NextWord(expanded, i, temp);
    WordsNext(k, i);
    assert expanded[..4 * (i + 1)] == expanded[..4 * i] + expanded[4 * i..4 * i + 4];
  }

  lemma WordsNext(k: Block, i: nat)
    requires 4 <= i < 44
    ensures Words(k, i + 1) == Words(k, i) + XorWords(WordAt(k, i - 4), Feed(i, WordAt(k, i - 1)))
  {
    hide Feed, XorWords;
  }

  lemma FirstWords(k: Block)
    ensures Words(k, 4) == k
  {
    hide WordAt;
    KeyIsFirstWords(k);
    assert Words(k, 1) == WordAt(k, 0);
    assert Words(k, 2) == Words(k, 1) + WordAt(k, 1);
    assert Words(k, 3) == Words(k, 2) + WordAt(k, 2);
  }

  /** Word `i` is the word four before it, changed by `temp`. */
  method NextWord(expanded: array<bv8>, i: nat, temp: array<bv8>)
    requires expanded.Length == 176 && 4 <= i < 44 && temp.Length == 4 && temp != expanded
    modifies expanded
    ensures expanded[4 * i..4 * i + 4] == XorWords(old(expanded[4 * (i - 4)..4 * (i - 4) + 4]), temp[..])
    ensures expanded[..4 * i] == old(expanded[..4 * i])
  {
    hide Add;
    ghost var before := expanded[4 * (i - 4)..4 * (i - 4) + 4];
    var j := 0;
    while j < 4
      invariant 0 <= j <= 4
      invariant forall k :: 0 <= k < j ==> expanded[4 * i + k] == Add(before[k], temp[k])
      invariant forall k :: 0 <= k < 4 * i ==> expanded[k] == old(expanded[k])
    {
      assert expanded[(i - 4) * 4 + j] == before[j];
      expanded[i * 4 + j] := Add(expanded[(i - 4) * 4 + j], temp[j]);
      j := j + 1;
    }
  }

  // ---------------------------------------------------------------- padding

  lemma PadAt(p: seq<bv8>)
    ensures forall k :: 0 <= k < |p| ==> Pad(p)[k] == p[k]
    ensures forall k :: |p| <= k < |Pad(p)| ==> Pad(p)[k] == ByteOf(PadLength(|p|))
  {
    hide ByteOf, PadLength;
  }

  /** 0 stands for failure, as in the source. */
  method AddPadding(input: array?<bv8>, inputLen: nat, output: array<bv8>, outputCapacity: nat)
    returns (outputLen: nat)
    requires (input == null ==> inputLen == 0) && (input != null ==> inputLen <= input.Length)
    requires outputCapacity <= output.Length && input != output
    modifies output
    ensures var s := Pad(if input == null then [] else input[..inputLen]);
            if outputCapacity < |s| then outputLen == 0 && output[..] == old(output[..])
            else outputLen == |s| && output[..outputLen] == s
  {
    hide ByteOf, PadLength, Pad, Splice;
    ghost var p := if input == null then [] else input[..inputLen];
    ghost var s := Pad(p);
    PadAt(p);
    var paddingLen := PadLength(inputLen);
    outputLen := inputLen + paddingLen;
    if outputLen > outputCapacity {
      return 0;
    }
    if inputLen > 0 && input != null {
      SpliceFront(output[..], p);
      Memcpy(output, 0, input, 0, inputLen);
    }
    assert output[..inputLen] == p == s[..inputLen];
    var i := 0;
    while i < paddingLen
      invariant 0 <= i <= paddingLen
      invariant output[..inputLen + i] == s[..inputLen + i]
    {
      output[inputLen + i] := ByteOf(paddingLen);
      assert s[..inputLen + i + 1] == s[..inputLen + i] + [ByteOf(paddingLen)];
      i := i + 1;
    }
    assert s[..outputLen] == s;
  }

  /** The length of the message, or 0 when the padding is malformed, when there is nothing but padding, or when the
      message does not fit. */
  method RemovePadding(input: array<bv8>, inputLen: nat, output: array<bv8>, outputCapacity: nat)
    returns (outputLen: nat)
    requires inputLen <= input.Length && outputCapacity <= output.Length && input != output
    modifies output
    ensures outputLen <= inputLen && outputLen <= outputCapacity
    ensures !Padded(input[..inputLen]) || |Unpad(input[..inputLen])| > outputCapacity ==>
              outputLen == 0 && output[..] == old(output[..])
    ensures Padded(input[..inputLen]) && |Unpad(input[..inputLen])| <= outputCapacity ==>
              outputLen == |Unpad(input[..inputLen])| && output[..outputLen] == Unpad(input[..inputLen])
  {
    hide Value;
    if inputLen == 0 || inputLen % 16 != 0 {
      return 0;
    }
    var last := input[inputLen - 1];
    var paddingLen := Value(last);
    if paddingLen == 0 || paddingLen > 16 {
      return 0;
    }
    var i := inputLen - paddingLen;
    while i < inputLen
      invariant inputLen - paddingLen <= i <= inputLen
      invariant forall k :: inputLen - paddingLen <= k < i ==> input[k] == last
    {
      if input[i] != last {
        assert input[..inputLen][i] != last;
        return 0;
      }
      i := i + 1;
    }
    outputLen := inputLen - paddingLen;
    if outputLen > outputCapacity {
      return 0;
    }
    Memcpy(output, 0, input, 0, outputLen);
  }

  // ---------------------------------------------------------------- messages

  method XorInto(a: array<bv8>, offset: nat, b: array<bv8>, block: array<bv8>)
    requires offset + 16 <= a.Length && b.Length == block.Length == 16 && block != a && block != b
    modifies block
    ensures block[..] == XorBlocks(a[offset..offset + 16], b[..])
  {
    hide Add;
    var j := 0;
    while j < 16
      invariant 0 <= j <= 16
      invariant forall k :: 0 <= k < j ==> block[k] == Add(a[offset + k], b[k])
    {
      block[j] := Add(a[offset + j], b[j]);
      j := j + 1;
    }
  }

  lemma ChainNext(p: seq<bv8>, i: nat, w: Schedule, previous: Block)
    requires Whole(p) && i % 16 == 0 && i + 16 <= |p|
    ensures var c := EncryptBlock(XorBlocks(p[i..i + 16], previous), w);
            Chain(p[i..], w, previous) == c + Chain(p[i + 16..], w, c)
  {
    hide EncryptBlock, XorBlocks;
    assert p[i..][..16] == p[i..i + 16] && p[i..][16..] == p[i + 16..];
  }

  lemma UnchainNext(c: seq<bv8>, i: nat, w: Schedule, previous: Block)
    requires Whole(c) && i % 16 == 0 && i + 16 <= |c|
    ensures Unchain(c[i..], w, previous)
         == XorBlocks(DecryptBlock(c[i..i + 16], w), previous) + Unchain(c[i + 16..], w, c[i..i + 16])
  {
    hide DecryptBlock, XorBlocks;
    assert c[i..][..16] == c[i..i + 16] && c[i..][16..] == c[i + 16..];
  }

  /** One pass of the encryption loop. */
  method ChainBlock(padded: array<bv8>, i: nat, keys: array<bv8>, prevBlock: array<bv8>, output: array<bv8>)
    requires i + 16 <= padded.Length && i + 16 <= output.Length && keys.Length == 176 && prevBlock.Length == 16
    requires output != padded && output != keys && prevBlock != padded && prevBlock != keys && prevBlock != output
    modifies prevBlock, output
    ensures prevBlock[..] == EncryptBlock(XorBlocks(padded[i..i + 16], old(prevBlock[..])), keys[..])
    ensures output[..i + 16] == old(output[..i]) + prevBlock[..]
  {
    hide EncryptBlock, XorBlocks;
    var block, cipher := new bv8[16], new bv8[16];
    XorInto(padded, i, prevBlock, block);
    EncryptBlockInto(block, keys, cipher);
    Memcpy(output, i, cipher, 0, 16);
    Memcpy(prevBlock, 0, cipher, 0, 16);
    assert prevBlock[..] == cipher[..];
  }

  /** The CBC loop of encryption. */
  method ChainInto(padded: array<bv8>, n: nat, keys: array<bv8>, iv: seq<bv8>, output: array<bv8>)
    requires n % 16 == 0 && n <= padded.Length && output.Length == n && keys.Length == 176 && |iv| == 16
    requires output != padded && output != keys
    modifies output
    ensures output[..] == Chain(padded[..n], keys[..], iv)
  {
    hide EncryptBlock, XorBlocks, Chain;
    ghost var w, p := keys[..], padded[..n];
    var prevBlock := new bv8[16](k requires 0 <= k < 16 => iv[k]);
    assert prevBlock[..] == iv;
    assert p[0..] == p;
    ChainNothing(w);
    var i := 0;
    while i < n
      invariant 0 <= i <= n && i % 16 == 0
      invariant output[..i] + Chain(p[i..], w, prevBlock[..]) == Chain(p, w, iv)
    {
      ChainNext(p, i, w, prevBlock[..]);
      assert p[i..i + 16] == padded[i..i + 16];
      ChainBlock(padded, i, keys, prevBlock, output);
      i := i + 16;
    }
    assert p[n..] == [];
    assert output[..n] == output[..];
  }

  lemma ChainNothing(w: Schedule)
    ensures forall b :: Chain([], w, b) == [] && Unchain([], w, b) == []
  {
  }

  /** One pass of the decryption loop. */
  method UnchainBlock(cipher: array<bv8>, i: nat, keys: array<bv8>, prevBlock: array<bv8>, decrypted: array<bv8>)
    requires i + 16 <= cipher.Length && i + 16 <= decrypted.Length && keys.Length == 176 && prevBlock.Length == 16
    requires decrypted != cipher && decrypted != keys
    requires prevBlock != cipher && prevBlock != keys && prevBlock != decrypted
    modifies prevBlock, decrypted
    ensures prevBlock[..] == cipher[i..i + 16]
    ensures decrypted[..i + 16]
         == old(decrypted[..i]) + XorBlocks(DecryptBlock(cipher[i..i + 16], keys[..]), old(prevBlock[..]))
  {
    hide DecryptBlock, XorBlocks;
    var input, block, plain := new bv8[16], new bv8[16], new bv8[16];
    Memcpy(input, 0, cipher, i, 16);
    assert input[..] == cipher[i..i + 16];
    DecryptBlockInto(input, keys, block);
    XorInto(block, 0, prevBlock, plain);
    assert block[0..16] == block[..];
    Memcpy(decrypted, i, plain, 0, 16);
    Memcpy(prevBlock, 0, cipher, i, 16);
    assert prevBlock[..] == cipher[i..i + 16];
  }

  /** The CBC loop of decryption. */
  method UnchainInto(cipher: array<bv8>, n: nat, keys: array<bv8>, iv: seq<bv8>, decrypted: array<bv8>)
    requires n % 16 == 0 && n <= cipher.Length && decrypted.Length == n && keys.Length == 176 && |iv| == 16
    requires decrypted != cipher && decrypted != keys
    modifies decrypted
    ensures decrypted[..] == Unchain(cipher[..n], keys[..], iv)
  {
    hide DecryptBlock, XorBlocks, Unchain;
    ghost var w, c := keys[..], cipher[..n];
    var prevBlock := new bv8[16](k requires 0 <= k < 16 => iv[k]);
    assert prevBlock[..] == iv;
    assert c[0..] == c;
    ChainNothing(w);
    var i := 0;
    while i < n
      invariant 0 <= i <= n && i % 16 == 0
      invariant decrypted[..i] + Unchain(c[i..], w, prevBlock[..]) == Unchain(c, w, iv)
    {
      UnchainNext(c, i, w, prevBlock[..]);
      assert c[i..i + 16] == cipher[i..i + 16];
      UnchainBlock(cipher, i, keys, prevBlock, decrypted);
      i := i + 16;
    }
    assert c[n..] == [];
    assert decrypted[..n] == decrypted[..];
  }

  method Encrypt(plaintext: Buffer, key: Buffer, ciphertext: Buffer) returns (err: ErrorCode)
    requires plaintext.Valid() && key.Valid() && ciphertext.Valid() && plaintext.size + 16 < SIZE_LIMIT
    modifies ciphertext
    ensures ciphertext.Valid()
    ensures old(key.size) != 32 && old(key.size) != 48 ==> err == ERR_INVALID_ARG
    ensures old(key.size) == 48 ==> err == ERR_UNSUPPORTED
    ensures old(key.size) == 32 ==>
              && err == OK && ciphertext.data != null && fresh(ciphertext.data)
              && ciphertext.data[..] == ciphertext.Contents()
              && ciphertext.Contents() == Encrypted(old(plaintext.Contents()), old(key.Contents()))
    ensures err != OK ==> ciphertext.data == old(ciphertext.data) && ciphertext.size == old(ciphertext.size)
  {
    hide Chain, ExpandKey, Pad;
    if key.size != 32 && key.size != 48 {
      return ERR_INVALID_ARG;
    }
    var isAes128 := key.size == 32;
    ghost var p, k := plaintext.Contents(), key.Contents();
    var maxPaddedSize := plaintext.size + 16;
    var padded := new bv8[maxPaddedSize](_ => 0);
    var paddedSize := AddPadding(plaintext.data, plaintext.size, padded, maxPaddedSize);
    assert padded[..paddedSize] == Pad(p);
    if !isAes128 {
      return ERR_UNSUPPORTED;
    }
    var iv := key.data[16..32];
    assert iv == k[16..] && key.data[..16] == k[..16];
    var expandedKey := new bv8[176](_ => 0);
    KeyExpansion(key.data, expandedKey);
    ciphertext.data := new bv8[paddedSize](_ => 0);
    ciphertext.size := paddedSize;
    ChainInto(padded, paddedSize, expandedKey, iv, ciphertext.data);
    return OK;
  }

  method Decrypt(ciphertext: Buffer, key: Buffer, plaintext: Buffer) returns (err: ErrorCode)
    requires ciphertext.Valid() && key.Valid() && plaintext.Valid() && ciphertext != plaintext
    modifies plaintext
    ensures err == OK ==> plaintext.Valid()
    ensures old(key.size) != 32 && old(key.size) != 48 ==> err == ERR_INVALID_ARG
    ensures old(key.size == 32 || key.size == 48) && (ciphertext.size == 0 || ciphertext.size % 16 != 0) ==>
              err == ERR_FORMAT
    ensures old(key.size) == 48 && ciphertext.size > 0 && ciphertext.size % 16 == 0 ==> err == ERR_UNSUPPORTED
    ensures old(key.size) == 32 && ciphertext.size > 0 && ciphertext.size % 16 == 0 ==>
              match Decrypted(ciphertext.Contents(), old(key.Contents()))
              case Some(p) => err == OK && plaintext.data != null && fresh(plaintext.data) && plaintext.Contents() == p
              case None => err == ERR_CRYPTO && plaintext.data == null
    ensures err != OK ==> plaintext.size == old(plaintext.size)
    ensures err != OK && err != ERR_CRYPTO ==> plaintext.data == old(plaintext.data)
  {
    hide Unchain, ExpandKey, Padded, Unpad;
    if key.size != 32 && key.size != 48 {
      return ERR_INVALID_ARG;
    }
    if ciphertext.size == 0 || ciphertext.size % 16 != 0 {
      return ERR_FORMAT;
    }
    if key.size != 32 {
      return ERR_UNSUPPORTED;
    }
    ghost var c, k := ciphertext.Contents(), key.Contents();
    var iv := key.data[16..32];
    assert iv == k[16..] && key.data[..16] == k[..16];
    var expandedKey := new bv8[176](_ => 0);
    KeyExpansion(key.data, expandedKey);
    var decrypted := new bv8[ciphertext.size](_ => 0);
    UnchainInto(ciphertext.data, ciphertext.size, expandedKey, iv, decrypted);
    assert decrypted[..ciphertext.size] == PlainBlocks(c, k);
    UnpadLength(PlainBlocks(c, k));
    plaintext.data := new bv8[ciphertext.size](_ => 0);
    var plaintextSize := RemovePadding(decrypted, ciphertext.size, plaintext.data, ciphertext.size);
    if plaintextSize == 0 && ciphertext.size == 16 {
      plaintext.size := 0;
      return OK;
    }
    if plaintextSize == 0 {
      plaintext.data := null;
      return ERR_CRYPTO;
    }
    plaintext.size := plaintextSize;
    return OK;
  }

  lemma UnpadLength(s: seq<bv8>)
    ensures Padded(s) ==> |Unpad(s)| <= |s| && (|s| > 16 ==> Unpad(s) != [])
  {
    hide Value;
  }
}
