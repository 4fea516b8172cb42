/** Frames of a four-byte length, a payload and its CRC-32. */
module CrcFramer {
  import opened Core
  import opened Crc32

  /** A length that fits 32 bits, in network byte order. */
  function LengthField(n: nat): (s: seq<bv8>)
    requires n <= UINT32_MAX
    ensures |s| == 4
  {
    [ByteOf(n / 0x100_0000), ByteOf(n / 0x1_0000 % 0x100), ByteOf(n / 0x100 % 0x100), ByteOf(n % 0x100)]
  }

  function ReadLength(s: seq<bv8>): (n: nat)
    requires |s| == 4
    ensures n <= UINT32_MAX
  {
    Value(s[0]) * 0x100_0000 + Value(s[1]) * 0x1_0000 + Value(s[2]) * 0x100 + Value(s[3])
  }

  function ChecksumField(crc: bv32): (s: seq<bv8>)
    ensures |s| == 4
  {
    [(crc >> 24) as bv8, ((crc >> 16) & 0xFF) as bv8, ((crc >> 8) & 0xFF) as bv8, (crc & 0xFF) as bv8]
  }

  function ReadChecksum(s: seq<bv8>): bv32
    requires |s| == 4
  {
    (s[0] as bv32 << 24) | (s[1] as bv32 << 16) | (s[2] as bv32 << 8) | s[3] as bv32
  }

  lemma LengthRoundTrip(n: nat)
    requires n <= UINT32_MAX
    ensures ReadLength(LengthField(n)) == n
  {
    hide ByteOf, Value;
    var n1, n2, n3 := n / 0x100, n / 0x1_0000, n / 0x100_0000;
    assert n2 == n1 / 0x100 && n3 == n2 / 0x100;
    ValueOfByte(n3);
    ValueOfByte(n2 % 0x100);
    ValueOfByte(n1 % 0x100);
    ValueOfByte(n % 0x100);
  }

  lemma FieldRoundTrip(s: seq<bv8>)
    requires |s| == 4
    ensures LengthField(ReadLength(s)) == s
  {
    hide ByteOf, Value;
    Digits(Value(s[0]), Value(s[1]), Value(s[2]), Value(s[3]));
    ByteOfValue(s[0]);
    ByteOfValue(s[1]);
    ByteOfValue(s[2]);
    ByteOfValue(s[3]);
  }

  lemma Digits(a: nat, b: nat, c: nat, d: nat)
    requires a < 0x100 && b < 0x100 && c < 0x100 && d < 0x100
    ensures var n := a * 0x100_0000 + b * 0x1_0000 + c * 0x100 + d;
            n / 0x100_0000 == a && n / 0x1_0000 % 0x100 == b && n / 0x100 % 0x100 == c && n % 0x100 == d
  {
    var n := a * 0x100_0000 + b * 0x1_0000 + c * 0x100 + d;
    assert n / 0x100 == a * 0x1_0000 + b * 0x100 + c;
    assert n / 0x1_0000 == a * 0x100 + b;
  }

  lemma ChecksumRoundTrip(crc: bv32)
    ensures ReadChecksum(ChecksumField(crc)) == crc
  {
  }

  lemma ChecksumFieldRoundTrip(s: seq<bv8>)
    requires |s| == 4
    ensures ChecksumField(ReadChecksum(s)) == s
  {
  }

  // ---------------------------------------------------------------- what the framer computes

  predicate Encodable(p: seq<bv8>) {
    |p| <= UINT32_MAX - 8
  }

  /** The frame of a payload: length, payload, checksum. */
  function Frame(p: seq<bv8>): (f: seq<bv8>)
    requires Encodable(p)
    ensures |f| == |p| + 8
  {
    Assemble(|p|, p, Checksum(p))
  }

  function Assemble(n: nat, p: seq<bv8>, crc: bv32): (f: seq<bv8>)
    requires n <= UINT32_MAX
    ensures |f| == |p| + 8
  {
    LengthField(n) + p + ChecksumField(crc)
  }

  /** What decoding a frame into a buffer of `capacity` bytes yields; None stands for ERR_FORMAT. */
  function Decoded(f: seq<bv8>, capacity: nat): Option<seq<bv8>> {
    if |f| < 8 then None
    else
      var n := ReadLength(f[..4]);
      if n > UINT32_MAX - 8 || |f| < n + 8 || capacity < n then None
      else if ReadChecksum(f[4 + n..8 + n]) != Checksum(f[4..4 + n]) then None
      else Some(f[4..4 + n])
  }

  /** Decoding accepts exactly what starts with the frame of a payload that fits, and yields that payload; bytes after
      the checksum are not looked at. */
  lemma DecodesExactlyFrames(f: seq<bv8>, capacity: nat, p: seq<bv8>)
    ensures Decoded(f, capacity) == Some(p) <==> |p| <= 0xFFFF_FFF7 && |p| <= capacity && Frame(p) <= f
  {
    hide LengthField, ReadLength, ChecksumField, ReadChecksum, Checksum;
    if Encodable(p) && Frame(p) <= f {
      assert f[..4] == Frame(p)[..4] == LengthField(|p|);
      LengthRoundTrip(|p|);
      var n := |p|;
      assert f[4..4 + n] == Frame(p)[4..4 + n] == p;
      assert f[4 + n..8 + n] == Frame(p)[4 + n..8 + n] == ChecksumField(Checksum(p));
      ChecksumRoundTrip(Checksum(p));
    }
    if Decoded(f, capacity) == Some(p) {
      var n := ReadLength(f[..4]);
      FieldRoundTrip(f[..4]);
      ChecksumFieldRoundTrip(f[4 + n..8 + n]);
      assert f[..8 + n] == f[..4] + f[4..4 + n] + f[4 + n..8 + n];
    }
  }

  /** Decoding whatever stands behind the right length. */
  lemma DecodedAssembled(q: seq<bv8>, crc: bv32, rest: seq<bv8>, capacity: nat)
    requires Encodable(q)
    ensures Decoded(Assemble(|q|, q, crc) + rest, capacity)
         == if |q| <= capacity && crc == Checksum(q) then Some(q) else None
  {
    hide LengthField, ReadLength, ChecksumField, ReadChecksum, Checksum;
    ThreeFields(LengthField(|q|), q, ChecksumField(crc), rest);
    LengthRoundTrip(|q|);
    ChecksumRoundTrip(crc);
  }

  lemma ThreeFields(a: seq<bv8>, b: seq<bv8>, c: seq<bv8>, rest: seq<bv8>)
    requires |a| == |c| == 4
    ensures var f := a + b + c + rest;
            f[..4] == a && f[4..4 + |b|] == b && f[4 + |b|..8 + |b|] == c
  {
  }

  /** Decoding a frame whose payload suffered a nonempty burst of at most 32 bits, its length and checksum being
      intact, is refused. Bits are taken in transmission order. */
  lemma BurstIsRefused(p: seq<bv8>, q: seq<bv8>, start: nat, rest: seq<bv8>, capacity: nat)
    requires Encodable(p) && |p| == |q| && p != q
    requires DifferWithin(MessageBits(p), MessageBits(q), start)
    ensures Decoded(Assemble(|p|, q, Checksum(p)) + rest, capacity) == None
  {
    hide Assemble, Decoded, Checksum, MessageBits, DifferWithin;
    DecodedAssembled(q, Checksum(p), rest, capacity);
    BurstChangesChecksum(p, q, start);
  }

  /** In particular any change within four adjacent payload bytes is refused. */
  lemma FourByteChangeIsRefused(p: seq<bv8>, q: seq<bv8>, k: nat, rest: seq<bv8>, capacity: nat)
    requires Encodable(p) && |p| == |q| && p != q
    requires forall i :: 0 <= i < |p| && (i < k || i >= k + 4) ==> p[i] == q[i]
    ensures Decoded(Assemble(|p|, q, Checksum(p)) + rest, capacity) == None
  {
    FourBytesAreABurst(p, q, k);
    BurstIsRefused(p, q, 8 * k, rest, capacity);
  }

  /** The next wider burst shows why it is 32: a payload changed within 33 bits is refused unless the change is the
      generator itself. */
  lemma WiderBurstIsRefused(p: seq<bv8>, q: seq<bv8>, start: nat, rest: seq<bv8>, capacity: nat)
    requires Encodable(p) && |p| == |q| <= capacity
    requires DifferFirstAt(MessageBits(p), MessageBits(q), start)
    ensures Decoded(Assemble(|p|, q, Checksum(p)) + rest, capacity)
         == if DifferByGenerator(MessageBits(p), MessageBits(q), start) then Some(q) else None
  {
    hide Assemble, Decoded, Checksum, MessageBits, DifferFirstAt, DifferByGenerator;
    DecodedAssembled(q, Checksum(p), rest, capacity);
    ChecksumMissesGenerator(p, q, start);
  }

  /** Four bytes as a number, most significant byte first. */
  function BeValue(p: seq<bv8>): (n: nat)
    requires |p| == 4
    ensures n < 0x1_0000_0000
  {
    Value(p[0]) * 0x100_0000 + Value(p[1]) * 0x1_0000 + Value(p[2]) * 0x100 + Value(p[3])
  }

  /** The bytes of a frame: the length of the payload in network byte order, the payload, its checksum in network byte
      order. */
  lemma FrameLayout(p: seq<bv8>)
    requires Encodable(p)
    ensures |Frame(p)| == |p| + 8 && Frame(p)[4..4 + |p|] == p
    ensures BeValue(Frame(p)[..4]) == |p|
    ensures BeValue(Frame(p)[4 + |p|..]) == Checksum(p) as int
  {
    hide LengthField, ChecksumField, Checksum, BeValue;
    ThreeFields(LengthField(|p|), p, ChecksumField(Checksum(p)), []);
    assert Frame(p) + [] == Frame(p) && Frame(p)[4 + |p|..] == Frame(p)[4 + |p|..8 + |p|];
    LengthFieldValue(|p|);
    ChecksumFieldValue(Checksum(p));
  }

  lemma LengthFieldValue(n: nat)
    requires n <= UINT32_MAX
    ensures BeValue(LengthField(n)) == n
  {
    hide ByteOf, Value;
    LengthRoundTrip(n);
  }

  lemma ChecksumFieldValue(crc: bv32)
    ensures BeValue(ChecksumField(crc)) == crc as int
  {
    hide Value, ChecksumField;
    var s := ChecksumField(crc);
    ChecksumRoundTrip(crc);
    NumberOfBytes(s[0], s[1], s[2], s[3]);
  }

  lemma NumberOfBytes(a: bv8, b: bv8, c: bv8, d: bv8)
    ensures ((a as bv32 << 24) | (b as bv32 << 16) | (c as bv32 << 8) | d as bv32) as int
         == Value(a) * 0x100_0000 + Value(b) * 0x1_0000 + Value(c) * 0x100 + Value(d)
  {
  }

  // ---------------------------------------------------------------- bursts across payload and checksum

  function Difference(x: bv32, y: bv32): bv32 {
    x ^ y
  }

  /** A frame changed in payload and checksum, be it by one burst across both, is accepted exactly when the checksum
      changed as the register did. */
  lemma ChangedFrame(p: seq<bv8>, q: seq<bv8>, crc: bv32, rest: seq<bv8>, capacity: nat)
    requires Encodable(p) && |p| == |q| <= capacity
    ensures Decoded(Assemble(|p|, q, crc) + rest, capacity)
         == if Difference(Register(p), Register(q)) == Difference(Checksum(p), crc) then Some(q) else None
  {
    hide Assemble, Decoded, Checksum, Register, IsXor, Difference;
    DecodedAssembled(q, crc, rest, capacity);
    ChecksumInverts(p);
    ChecksumInverts(q);
    var (x, y, c, d) := (Register(p), Register(q), Checksum(p), Checksum(q));
    SameDifference(x, y, c, d);
    if Difference(c, d) == Difference(c, crc) {
      DifferenceDetermines(c, d, crc);
    }
  }

  lemma SameDifference(x: bv32, y: bv32, c: bv32, d: bv32)
    requires IsXor(x, ALL_ONES, c) && IsXor(y, ALL_ONES, d)
    ensures Difference(x, y) == Difference(c, d)
  {
  }

  lemma DifferenceDetermines(c: bv32, d: bv32, e: bv32)
    requires Difference(c, d) == Difference(c, e)
    ensures d == e
  {
  }

  /** The frame of a payload that ends in `b`, with the last bit of the payload and those bits of the checksum turned
      over that make up the generator. */
  function Straddled(p: seq<bv8>, b: bv8): (f: seq<bv8>)
    requires Encodable(p + [b])
    ensures |f| == |p| + 9
  {
    Assemble(|p| + 1, p + [FlipTop(b)], Fold(Checksum(p + [b])))
  }

  /** One such burst of 32 bits is accepted on every payload that is not empty: behind the last payload bit the
      checksum goes out most significant byte first, its bytes least significant bit first, which leaves the generator
      within the 31 bits that follow. */
  lemma StraddlingBurstIsAccepted(p: seq<bv8>, b: bv8, rest: seq<bv8>, capacity: nat)
    requires Encodable(p + [b]) && |p| < capacity
    ensures Decoded(Straddled(p, b) + rest, capacity) == Some(p + [FlipTop(b)]) && FlipTop(b) != b
    ensures DifferWithin(MessageBits(Frame(p + [b])), MessageBits(Straddled(p, b)), 8 * (4 + |p|) + 7)
  {
    hide Assemble, Decoded, Checksum, MessageBits, DifferWithin, IsXor, Fold, FlipTop;
    var (q, crc) := (p + [FlipTop(b)], Checksum(p + [b]));
    LastBitFlips(p, b);
    FoldIsXor(crc);
    XorIsUnique(crc, 0xEDB88320, Fold(crc), Checksum(q));
    DecodedAssembled(q, Fold(crc), rest, capacity);
    TopFlips(b);
    StraddledWithin(p, b, crc);
  }

  lemma TopFlips(b: bv8)
    ensures FlipTop(b) != b
  {
  }

  lemma StraddledWithin(p: seq<bv8>, b: bv8, crc: bv32)
    requires |p| < UINT32_MAX
    ensures DifferWithin(MessageBits(Assemble(|p| + 1, p + [b], crc)),
                         MessageBits(Assemble(|p| + 1, p + [FlipTop(b)], Fold(crc))), 8 * (4 + |p|) + 7)
  {
    hide LengthField, ChecksumField, MessageBits, Bit, Fold, FlipTop, Widen;
    var (f, g) := (Assemble(|p| + 1, p + [b], crc), Assemble(|p| + 1, p + [FlipTop(b)], Fold(crc)));
    var start := 8 * (4 + |p|) + 7;
    forall i | 0 <= i < 8 * |f| && (i < start || i >= start + 32)
      ensures MessageBits(f)[i] == MessageBits(g)[i]
    {
      var (k, j) := (i / 8, i % 8);
      MessageBitsAt(f, k, j);
      MessageBitsAt(g, k, j);
      if k < 4 + |p| {
        assert f[k] == g[k];
      } else if k == 4 + |p| {
        assert f[k] == b && g[k] == FlipTop(b);
        FlippedBits(b);
        assert ByteBits(b)[..7][j] == Bit(Widen(b), j) && ByteBits(FlipTop(b))[..7][j] == Bit(Widen(FlipTop(b)), j);
      } else {
        assert k == 8 + |p| && j == 7;
        assert f[k] == ChecksumField(crc)[3] && g[k] == ChecksumField(Fold(crc))[3];
        LastChecksumBit(crc);
      }
    }
  }

  lemma LastChecksumBit(crc: bv32)
    ensures Bit(Widen(ChecksumField(crc)[3]), 7) == Bit(Widen(ChecksumField(Fold(crc))[3]), 7)
  {
    hide Bit;
    LowByte(Widen(ChecksumField(crc)[3]));
    LowByte(Widen(ChecksumField(Fold(crc))[3]));
    LastChecksumMask(crc);
  }

  lemma LastChecksumMask(crc: bv32)
    ensures (Widen(ChecksumField(crc)[3]) & 128 != 0) == (Widen(ChecksumField(Fold(crc))[3]) & 128 != 0)
  {
  }

  lemma RegisterStart()
    ensures Register([]) == ALL_ONES
  {
  }

  lemma LookUp(crc: bv32, b: bv8, index: bv8, entry: bv32)
    requires index == LowByteOf(crc ^ Widen(b)) && entry == TableEntry(index)
    ensures ByteStep(crc, b) == DropByte(crc) ^ entry
  {
    hide LowByteOf, DropByte, TableEntry;
  }

  // ---------------------------------------------------------------- the framer

  /** The framer with its lazily filled table. */
  class Framer {
    var table: array<bv32>
    var initialized: bool

    constructor ()
      ensures Valid() && !initialized && fresh(table)
    {
      table := new bv32[256](_ => 0);
      initialized := false;
    }

    ghost predicate Valid()
      reads this, table
    {
      table.Length == 256 && (initialized ==> forall k: bv8 :: table[Value(k)] == TableEntry(k))
    }

    method InitTable()
      requires Valid()
      modifies this, table
      ensures Valid() && initialized && table == old(table)
    {
      if initialized {
        return;
      }
      var i := 0;
      while i < 256
        invariant 0 <= i <= 256 && table == old(table) && table.Length == 256 && !initialized
        invariant forall k: bv8 :: Value(k) < i ==> table[Value(k)] == TableEntry(k)
      {
        hide Value, ByteOf, ShiftBit;
        var start := Widen(ByteOf(i));
        var crc := start;
        var j := 0;
        while j < 8
          invariant 0 <= j <= 8 && crc == ShiftBits(start, j)
        {
          crc := ShiftBit(crc);
          j := j + 1;
        }
        table[i] := crc;
        forall k: bv8 | Value(k) == i
          ensures crc == TableEntry(k)
        {
          ByteOfValue(k);
        }
        i := i + 1;
      }
      initialized := true;
    }

    method Compute(data: array?<bv8>, offset: nat, length: nat) returns (crc: bv32)
      requires Valid()
      requires length > 0 ==> data != null && offset + length <= data.Length
      modifies this, table
      ensures Valid() && initialized && table == old(table)
      ensures crc == Checksum(if length == 0 then [] else data[offset..offset + length])
    {
      hide Value, Register, ByteStep, Widen, LowByteOf, DropByte, TableEntry;
      InitTable();
      RegisterStart();
      crc := ALL_ONES;
      ghost var all := if length == 0 then [] else data[offset..offset + length];
      var i := 0;
      while i < length
        invariant 0 <= i <= length && Valid() && initialized && table == old(table)
        invariant crc == Register(all[..i])
      {
        var b := data[offset + i];
        assert all[..i + 1] == all[..i] + [b];
        RegisterStep(all[..i], b);
        var index := LowByteOf(crc ^ Widen(b));
        LookUp(crc, b, index, table[Value(index)]);
        crc := DropByte(crc) ^ table[Value(index)];
        i := i + 1;
      }
      assert all[..i] == all;
      crc := crc ^ ALL_ONES;
    }

    method Encode(payload: Buffer, output: Buffer) returns (err: ErrorCode)
      requires Valid() && payload.Valid() && output.Valid()
      requires payload != output && (output.data == null || payload.data != output.data)
      modifies this, table, output, output.data
      ensures Valid() && table == old(table) && output.Valid() && output.data == old(output.data)
      ensures err == OK <==> payload.size <= 0xFFFF_FFF7 && old(output.size) >= payload.size + 8
      ensures err == OK ==> output.Contents() == Frame(payload.Contents())
      ensures err == OK ==> Bytes(output.data)[output.size..] == old(Bytes(output.data))[output.size..]
      ensures err != OK ==> err == ERR_FORMAT && output.size == old(output.size)
      ensures err != OK ==> Bytes(output.data) == old(Bytes(output.data))
    {
      hide LengthField, ChecksumField, Checksum, Splice;
      if payload.size > UINT32_MAX - 8 {
        return ERR_FORMAT;
      }
      if output.size < payload.size + 8 {
        return ERR_FORMAT;
      }
      var n := payload.size;
      ghost var p, before, head := payload.Contents(), output.data[..], LengthField(n);
      Store(output.data, 0, LengthField(n));
      Memcpy(output.data, 4, payload.data, 0, n);
      SpliceThen(before, 0, head, p);
      var crc := Compute(payload.data, 0, n);
      Store(output.data, 4 + n, ChecksumField(crc));
      SpliceThen(before, 0, head + p, ChecksumField(crc));
      SpliceFront(before, head + p + ChecksumField(crc));
      output.size := n + 8;
      return OK;
    }

    method Decode(frame: Buffer, output: Buffer) returns (err: ErrorCode)
      requires Valid() && frame.Valid() && output.Valid()
      requires frame != output && (output.data == null || frame.data != output.data)
      modifies this, table, output, output.data
      ensures Valid() && table == old(table) && output.Valid() && output.data == old(output.data)
      ensures match Decoded(frame.Contents(), old(output.size))
              case Some(p) =>
                && err == OK && output.Contents() == p
                && Bytes(output.data)[|p|..] == old(Bytes(output.data))[|p|..]
              case None =>
                && err == ERR_FORMAT && output.size == old(output.size)
                && Bytes(output.data) == old(Bytes(output.data))
    {
      hide ReadLength, ReadChecksum, Checksum;
      ghost var f := frame.Contents();
      if frame.size < 8 {
        return ERR_FORMAT;
      }
      var length := ReadLength(frame.data[..4]);
      FrontSlice(frame.data, frame.size, 0, 4);
      if length > UINT32_MAX - 8 {
        return ERR_FORMAT;
      }
      if frame.size < length + 8 {
        return ERR_FORMAT;
      }
      if output.size < length {
        return ERR_FORMAT;
      }
      var receivedCrc := ReadChecksum(frame.data[4 + length..8 + length]);
      FrontSlice(frame.data, frame.size, 4 + length, 8 + length);
      var computedCrc := Compute(frame.data, 4, length);
      FrontSlice(frame.data, frame.size, 4, 4 + length);
      if receivedCrc != computedCrc {
        return ERR_FORMAT;
      }
      Memcpy(output.data, 0, frame.data, 4, length);
      output.size := length;
      return OK;
    }
  }

  lemma FrontSlice(a: array<bv8>, size: nat, i: nat, j: nat)
    requires i <= j <= size <= a.Length
    ensures a[..size][i..j] == a[i..j]
  {
    var (s, t) := (a[..size][i..j], a[i..j]);
    forall k | 0 <= k < j - i
      ensures s[k] == t[k]
    {
      assert s[k] == a[..size][i + k] == a[i + k];
      assert t[k] == a[i + k];
    }
  }

  /** Writes a field over four bytes of a buffer. */
  method Store(dst: array<bv8>, offset: nat, field: seq<bv8>)
    requires |field| == 4 && offset + 4 <= dst.Length
    modifies dst
    ensures dst[..] == Splice(old(dst[..]), offset, field)
  {
    dst[offset], dst[offset + 1], dst[offset + 2], dst[offset + 3] := field[0], field[1], field[2], field[3];
  }
}
