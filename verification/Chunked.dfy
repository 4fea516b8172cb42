/** Hexadecimal chunk sizes: the printer and the scanner of src/framer/chunked.cpp. */
module HexSizes {
  import opened Core

  const CR: bv8 := 0x0d
  const LF: bv8 := 0x0a
  const CRLF: seq<bv8> := [CR, LF]

  /** The value of a hexadecimal digit in either case, -1 for any other byte. */
  function HexToValue(c: bv8): (v: int)
    ensures -1 <= v < 16
  {
    var n := Value(c);
    if 0x30 <= n <= 0x39 then n - 0x30
    else if 0x61 <= n <= 0x66 then n - 0x61 + 10
    else if 0x41 <= n <= 0x46 then n - 0x41 + 10
    else -1
  }

  /** A lower-case hexadecimal digit. */
  function ValueToHex(v: nat): bv8
    requires v < 16
  {
    ByteOf(if v < 10 then 0x30 + v else 0x61 + (v - 10))
  }

  /** The digits in order: read in either case, written in lower case. */
  lemma HexDigits(c: bv8, v: nat)
    requires v < 16
    ensures HexToValue(c) == v
       <==> Value(c) == "0123456789abcdef"[v] as int || Value(c) == "0123456789ABCDEF"[v] as int
    ensures Value(ValueToHex(v)) == "0123456789abcdef"[v] as int
  {
    hide ByteOf, Value;
    ValueOfByte(if v < 10 then 0x30 + v else 0x61 + (v - 10));
    assert v < 10 ==> "0123456789abcdef"[v] as int == 0x30 + v && "0123456789ABCDEF"[v] as int == 0x30 + v;
    assert v >= 10 ==> "0123456789abcdef"[v] as int == 0x57 + v && "0123456789ABCDEF"[v] as int == 0x37 + v;
  }

  lemma DigitRoundTrip(v: nat)
    requires v < 16
    ensures HexToValue(ValueToHex(v)) == v && ValueToHex(v) != CR
  {
    hide ByteOf, Value;
    ValueOfByte(if v < 10 then 0x30 + v else 0x61 + (v - 10));
    ValueOfCr();
  }

  lemma ValueOfCr()
    ensures Value(CR) == 0x0d
  {
  }

  lemma CrIsNoDigit()
    ensures HexToValue(CR) == -1
  {
  }

  predicate AllHex(s: seq<bv8>) {
    forall i :: 0 <= i < |s| ==> HexToValue(s[i]) >= 0
  }

  /** The number a string of digits denotes. */
  function Number(s: seq<bv8>): (n: nat)
    requires AllHex(s)
  {
    if s == [] then 0 else 16 * Number(s[..|s| - 1]) + HexToValue(s[|s| - 1])
  }

  function Power16(k: nat): (p: nat)
    ensures p > 0
  {
    if k == 0 then 1 else 16 * Power16(k - 1)
  }

  /** Each digit counts by its place, the last one least. */
  lemma {:induction false} NumberDigitAt(s: seq<bv8>, i: nat)
    requires AllHex(s) && i < |s|
    ensures Number(s) / Power16(|s| - 1 - i) % 16 == HexToValue(s[i])
    decreases |s|
  {
    hide HexToValue;
    var n := Number(s[..|s| - 1]);
    assert Number(s) / 16 == n && Number(s) % 16 == HexToValue(s[|s| - 1]);
    if i == |s| - 1 {
      assert Number(s) / Power16(0) == Number(s);
    } else {
      NumberDigitAt(s[..|s| - 1], i);
      DivideTwice(Number(s), 16, Power16(|s| - 2 - i));
    }
  }

  /** The shortest representation of `n`. */
  function Hex(n: nat): (s: seq<bv8>)
    ensures |s| > 0
  {
    if n < 16 then [ValueToHex(n)] else Hex(n / 16) + [ValueToHex(n % 16)]
  }

  lemma {:induction false} NumberHex(n: nat)
    ensures AllHex(Hex(n)) && Number(Hex(n)) == n
  {
    hide HexToValue, ValueToHex;
    DigitRoundTrip(n % 16);
    if n >= 16 {
      NumberHex(n / 16);
      assert Hex(n)[..|Hex(n)| - 1] == Hex(n / 16);
    } else {
      assert Number([ValueToHex(n)]) == 16 * Number([]) + n;
    }
  }

  /** `n` shifted right by `k` hexadecimal digits. */
  function ShiftDigits(n: nat, k: nat): nat {
    if k == 0 then n else ShiftDigits(n / 16, k - 1)
  }

  /** Digit `i` is what shifting and masking picks out. */
  lemma {:induction false} HexDigitAt(n: nat, i: nat)
    requires i < |Hex(n)|
    ensures Hex(n)[i] == ValueToHex(ShiftDigits(n, |Hex(n)| - 1 - i) % 16)
  {
    hide ValueToHex;
    if n < 16 || i == |Hex(n)| - 1 {
    } else {
      HexDigitAt(n / 16, i);
    }
  }

  predicate IsLowerHex(c: bv8) {
    0x30 <= Value(c) <= 0x39 || 0x61 <= Value(c) <= 0x66
  }

  lemma ValueToHexIsLower(v: nat)
    requires v < 16
    ensures IsLowerHex(ValueToHex(v)) && (v > 0 ==> ValueToHex(v) != 0x30)
  {
    hide ByteOf, Value;
    ValueOfByte(if v < 10 then 0x30 + v else 0x61 + (v - 10));
    ValueOfZero();
  }

  lemma ValueOfZero()
    ensures Value(0x30) == 0x30
  {
  }

  /** The digits are 0 to 9 and a to f, and the first is not zero unless the number is. */
  lemma {:induction false} HexIsCanonical(n: nat, i: nat)
    requires i < |Hex(n)|
    ensures IsLowerHex(Hex(n)[i]) && (n > 0 && i == 0 ==> Hex(n)[i] != 0x30)
  {
    hide ValueToHex, IsLowerHex;
    ValueToHexIsLower(n % 16);
    if n < 16 || i == |Hex(n)| - 1 {
    } else {
      HexIsCanonical(n / 16, i);
    }
  }

  // ---------------------------------------------------------------- scanning a size

  datatype Scanned = Bad | Size(end: nat, value: nat)

  /** Reads digits up to the next CR or the end. Every digit is checked, and so is that the value stays below 2^32. */
  function Scan(f: seq<bv8>, i: nat, n: nat): (r: Scanned)
    requires i <= |f|
    ensures r.Size? ==> i <= r.end <= |f| && (n <= UINT32_MAX ==> r.value <= UINT32_MAX)
    decreases |f| - i
  {
    if i == |f| || f[i] == CR then Size(i, n)
    else if HexToValue(f[i]) < 0 then Bad
    else if n > UINT32_MAX / 16 then Bad
    else Scan(f, i + 1, 16 * n + HexToValue(f[i]))
  }

  lemma NumberAppend(s: seq<bv8>, c: bv8)
    requires AllHex(s) && HexToValue(c) >= 0
    ensures AllHex(s + [c]) && Number(s + [c]) == 16 * Number(s) + HexToValue(c)
  {
    hide HexToValue;
    assert (s + [c])[..|s|] == s;
  }

  /** Scanning finds a run of digits and its number. */
  lemma {:induction false} ScanFinds(f: seq<bv8>, start: nat, i: nat)
    requires start <= i <= |f| && AllHex(f[start..i]) && Number(f[start..i]) <= UINT32_MAX
    ensures var r := Scan(f, i, Number(f[start..i]));
            r.Size? ==>
              && AllHex(f[start..r.end]) && Number(f[start..r.end]) == r.value <= UINT32_MAX
              && (r.end == |f| || f[r.end] == CR)
    decreases |f| - i
  {
    hide HexToValue, Number, AllHex;
    var n := Number(f[start..i]);
    if i == |f| || f[i] == CR || HexToValue(f[i]) < 0 || n > UINT32_MAX / 16 {
    } else {
      NumberAppend(f[start..i], f[i]);
      assert f[start..i + 1] == f[start..i] + [f[i]];
      ScanFinds(f, start, i + 1);
    }
  }

  /** and it finds every run of digits up to a CR or the end whose number fits 32 bits. */
  lemma {:induction false} ScanReaches(f: seq<bv8>, start: nat, i: nat, end: nat)
    requires start <= i <= end <= |f| && (end == |f| || f[end] == CR)
    requires AllHex(f[start..end]) && Number(f[start..end]) <= UINT32_MAX
    ensures AllHex(f[start..i])
    ensures Scan(f, i, Number(f[start..i])) == Size(end, Number(f[start..end]))
    decreases end - i
  {
    hide HexToValue, Number;
    assert forall k :: 0 <= k < i - start ==> f[start..i][k] == f[start..end][k];
    if i >= end {
    } else {
      assert f[start..end][i - start] == f[i];
      CrIsNoDigit();
      NumberAppend(f[start..i], f[i]);
      assert f[start..i + 1] == f[start..i] + [f[i]];
      ScanReaches(f, start, i + 1, end);
      NumberGrows(f[start..end], i + 1 - start);
      assert f[start..end][..i + 1 - start] == f[start..i + 1];
    }
  }

  lemma {:induction false} NumberGrows(s: seq<bv8>, k: nat)
    requires AllHex(s) && k <= |s|
    ensures Number(s[..k]) <= Number(s)
    decreases |s|
  {
    hide HexToValue;
    if k == |s| {
      assert s[..k] == s;
    } else {
      NumberGrows(s[..|s| - 1], k);
      assert s[..|s| - 1][..k] == s[..k];
    }
  }
}

/** The chunked transfer coding, section 7.1 of RFC 9112, as this code writes and reads it. */
module ChunkedCoding {
  import opened Core
  import opened HexSizes

  const MAX_CHUNK_SIZE: nat := 1024

  // ---------------------------------------------------------------- the language of accepted frames

  /** A chunk as it stands in a frame: digits of its size, then its data. */
  datatype Chunk = Chunk(digits: seq<bv8>, data: seq<bv8>)

  /** Either case, leading zeros allowed, at least one digit, below 2^32. */
  predicate SizeLine(digits: seq<bv8>, n: nat) {
    digits != [] && AllHex(digits) && Number(digits) == n <= UINT32_MAX
  }

  predicate ValidChunk(c: Chunk) {
    c.data != [] && SizeLine(c.digits, |c.data|)
  }

  function ChunkBytes(c: Chunk): (s: seq<bv8>)
    ensures |s| == |c.digits| + |c.data| + 4
  {
    c.digits + CRLF + c.data + CRLF
  }

  function Body(chunks: seq<Chunk>): seq<bv8> {
    if chunks == [] then [] else ChunkBytes(chunks[0]) + Body(chunks[1..])
  }

  function Data(chunks: seq<Chunk>): seq<bv8> {
    if chunks == [] then [] else chunks[0].data + Data(chunks[1..])
  }

  /** A frame ends in a zero chunk, or simply after a chunk. */
  ghost predicate Ending(e: seq<bv8>) {
    e == [] || exists digits :: IsLastChunk(digits, e)
  }

  predicate IsLastChunk(digits: seq<bv8>, e: seq<bv8>) {
    SizeLine(digits, 0) && e == digits + CRLF + CRLF
  }

  ghost predicate IsFrame(f: seq<bv8>, chunks: seq<Chunk>, e: seq<bv8>) {
    && (forall i :: 0 <= i < |chunks| ==> ValidChunk(chunks[i]))
    && Ending(e)
    && f == Body(chunks) + e
  }

  // ---------------------------------------------------------------- the decoder, in unbounded arithmetic

  predicate HasCrlf(f: seq<bv8>, i: nat) {
    i + 2 <= |f| && f[i] == CR && f[i + 1] == LF
  }

  /** What the decoder makes of the frame from `pos` on, having produced `produced` bytes for a buffer of `capacity`.
      None stands for ERR_FORMAT. */
  function DecodeFrom(f: seq<bv8>, pos: nat, produced: nat, capacity: nat): Option<seq<bv8>>
    requires pos <= |f|
    decreases |f| - pos
  {
    if pos == |f| then Some([])
    else
      match Scan(f, pos, 0)
      case Bad => None
      case Size(end, n) =>
        if end == pos || !HasCrlf(f, end) then None
        else
          var start := end + 2;
          if n == 0 then
            if HasCrlf(f, start) && start + 2 == |f| then Some([]) else None
          else if start + n > |f| || produced + n > capacity || !HasCrlf(f, start + n) then None
          else
            match DecodeFrom(f, start + n + 2, produced + n, capacity)
            case None => None
            case Some(rest) => Some(f[start..start + n] + rest)
  }

  function Decoded(f: seq<bv8>, capacity: nat): Option<seq<bv8>> {
    DecodeFrom(f, 0, 0, capacity)
  }

  // ---------------------------------------------------------------- the decoder, in the arithmetic of the code

  datatype LineEnd = Present | Missing | Beyond

  /** What the two guards at src/framer/chunked.cpp:165-170 make of offset `i`. The sums are 32-bit ones; when the first
      wraps they look past the end of the frame. */
  function LineEndAt(f: seq<bv8>, i: nat): LineEnd {
    if Wrap32(i + 2) > |f| then Missing
    else if i >= |f| then Beyond
    else if f[i] != CR then Missing
    else if Wrap32(i + 1) >= |f| then Beyond
    else if f[Wrap32(i + 1)] != LF then Missing
    else Present
  }

  /** A run of the code ends with a result or leaves one of its buffers. */
  datatype Outcome<T> = Result(value: Option<T>) | Overrun

  function Behind(data: seq<bv8>, o: Outcome<seq<bv8>>): Outcome<seq<bv8>> {
    if o.Result? && o.value.Some? then Result(Some(data + o.value.value)) else o
  }

  /** The decoder as written, all sums of offsets and sizes taken modulo 2^32. */
  function CodeFrom(f: seq<bv8>, pos: nat, produced: nat, capacity: nat): Outcome<seq<bv8>>
    requires pos <= |f| <= UINT32_MAX
    decreases |f| - pos
  {
    if pos == |f| then Result(Some([]))
    else
      match Scan(f, pos, 0)
      case Bad => Result(None)
      case Size(end, n) =>
        if end == pos || LineEndAt(f, end) == Missing then Result(None)
        else if LineEndAt(f, end) == Beyond then Overrun
        else
          var start := end + 2;
          if n == 0 then
            match LineEndAt(f, start)
            case Missing => Result(None)
            case Beyond => Overrun
            case Present => Result(if Wrap32(start + 2) == |f| then Some([]) else None)
          else if Wrap32(start + n) > |f| || Wrap32(produced + n) > capacity then Result(None)
          else if start + n > |f| || produced + n > capacity then Overrun
          else
            match LineEndAt(f, start + n)
            case Missing => Result(None)
            case Beyond => Overrun
            case Present => Behind(f[start..start + n], CodeFrom(f, start + n + 2, produced + n, capacity))
  }

  /** A line end is looked for so close to 2^32 that the sum in its guard wraps. */
  predicate GuardWraps(f: seq<bv8>, i: nat) {
    i <= |f| < i + 2 && i + 2 > UINT32_MAX && (i < |f| ==> f[i] == CR)
  }

  /** A chunk is reached whose size wraps the frame's sum, while the output's sum wraps too or fits; or the guard of a
      line end wraps. */
  predicate Overruns(f: seq<bv8>, pos: nat, produced: nat, capacity: nat)
    requires pos <= |f| <= UINT32_MAX
    decreases |f| - pos
  {
    pos < |f| &&
    match Scan(f, pos, 0)
    case Bad => false
    case Size(end, n) =>
      end > pos &&
      (GuardWraps(f, end) ||
       (HasCrlf(f, end) &&
        if n == 0 then GuardWraps(f, end + 2)
        else if end + 2 + n > UINT32_MAX then produced + n > UINT32_MAX || produced + n <= capacity
        else
          && end + 2 + n <= |f| && produced + n <= capacity
          && (GuardWraps(f, end + 2 + n) ||
              (HasCrlf(f, end + 2 + n) && Overruns(f, end + 2 + n + 2, produced + n, capacity)))))
  }

  lemma LineEndExactly(f: seq<bv8>, i: nat)
    requires i <= |f| <= UINT32_MAX
    ensures LineEndAt(f, i) == Beyond <==> GuardWraps(f, i)
    ensures LineEndAt(f, i) == Present <==> HasCrlf(f, i)
  {
  }

  lemma WrapsOnce(a: nat, b: nat)
    requires a <= UINT32_MAX && b <= UINT32_MAX
    ensures Wrap32(a + b) == if a + b > UINT32_MAX then a + b - UINT32_MAX - 1 else a + b
  {
  }

  /** On every frame that 32-bit offsets can address, the code overruns exactly under that condition, and otherwise
      does what the decoder in unbounded arithmetic does. */
  lemma {:induction false} CodeDecodesUnlessOverrun(f: seq<bv8>, pos: nat, produced: nat, capacity: nat)
    requires pos <= |f| <= UINT32_MAX && produced <= pos && produced <= capacity
    ensures CodeFrom(f, pos, produced, capacity)
         == if Overruns(f, pos, produced, capacity) then Overrun else Result(DecodeFrom(f, pos, produced, capacity))
    decreases |f| - pos
  {
    hide Scan, HasCrlf, LineEndAt, GuardWraps, Wrap32;
    if pos == |f| || Scan(f, pos, 0).Bad? {
    } else {
      var end, n := Scan(f, pos, 0).end, Scan(f, pos, 0).value;
      var next := end + 2 + n;
      LineEndExactly(f, end);
      if HasCrlf(f, end) {
        CrlfSlice(f, end);
        LineEndExactly(f, end + 2);
        WrapsOnce(end + 2, n);
        WrapsOnce(produced, n);
        if n == 0 && HasCrlf(f, end + 2) {
          CrlfSlice(f, end + 2);
        }
        if n > 0 && next <= |f| {
          LineEndExactly(f, next);
          if HasCrlf(f, next) && produced + n <= capacity {
            CrlfSlice(f, next);
            CodeDecodesUnlessOverrun(f, next + 2, produced + n, capacity);
          }
        }
      }
    }
  }

  /** Along the chunk sizes that the decoder reads, no 32-bit sum of an offset and a size wraps. */
  predicate SumsFit(f: seq<bv8>, pos: nat)
    requires pos <= |f|
    decreases |f| - pos
  {
    pos == |f| ||
    match Scan(f, pos, 0)
    case Bad => true
    case Size(end, n) =>
      end == pos || !HasCrlf(f, end) || n == 0 ||
      (end + 2 + n <= UINT32_MAX &&
       (end + 2 + n <= |f| && HasCrlf(f, end + 2 + n) ==> SumsFit(f, end + 2 + n + 2)))
  }

  /** Slicing a sequence that is put together from parts. */
  lemma Parts(f: seq<bv8>, pos: nat, a: seq<bv8>, b: seq<bv8>)
    requires pos <= |f| && f[pos..] == a + b
    ensures pos + |a| <= |f| && f[pos..pos + |a|] == a && f[pos + |a|..] == b
  {
    assert f[pos..][..|a|] == a && f[pos..][|a|..] == b;
  }

  lemma FourParts(f: seq<bv8>, pos: nat, a: seq<bv8>, b: seq<bv8>, c: seq<bv8>, d: seq<bv8>, rest: seq<bv8>)
    requires pos <= |f| && f[pos..] == a + (b + (c + (d + rest)))
    ensures var (p, q, r) := (pos + |a|, pos + |a| + |b|, pos + |a| + |b| + |c|);
            && r + |d| <= |f|
            && f[pos..p] == a && f[p..q] == b && f[q..r] == c && f[r..r + |d|] == d && f[r + |d|..] == rest
  {
    var tail := d + rest;
    var more := c + tail;
    Parts(f, pos, a, b + more);
    Parts(f, pos + |a|, b, more);
    Parts(f, pos + |a| + |b|, c, tail);
    Parts(f, pos + |a| + |b| + |c|, d, rest);
  }

  lemma CrlfAt(f: seq<bv8>, i: nat)
    requires i + 2 <= |f| && f[i..i + 2] == CRLF
    ensures HasCrlf(f, i)
  {
    assert f[i] == f[i..i + 2][0] && f[i + 1] == f[i..i + 2][1];
  }

  lemma CrlfSlice(f: seq<bv8>, i: nat)
    requires HasCrlf(f, i)
    ensures i + 2 <= |f| && f[i] == CR && f[i..i + 2] == CRLF
  {
  }

  /** One chunk at `pos` is read as a chunk. */
  lemma ReadsChunk(f: seq<bv8>, pos: nat, c: Chunk, rest: seq<bv8>)
    requires pos <= |f| && ValidChunk(c) && f[pos..] == ChunkBytes(c) + rest
    ensures var end := pos + |c.digits|;
            && Scan(f, pos, 0) == Size(end, |c.data|) && HasCrlf(f, end) && HasCrlf(f, end + 2 + |c.data|)
            && end + 2 + |c.data| + 2 <= |f|
            && f[end + 2..end + 2 + |c.data|] == c.data && f[end + 2 + |c.data| + 2..] == rest
  {
    hide Scan, Number, AllHex, HasCrlf, ChunkBytes;
    var end, n := pos + |c.digits|, |c.data|;
    ChunkShape(c, rest);
    FourParts(f, pos, c.digits, CRLF, c.data, CRLF, rest);
    CrlfAt(f, end);
    CrlfSlice(f, end);
    CrlfAt(f, end + 2 + n);
    ScansDigits(f, pos, end, n);
  }

  lemma ChunkShape(c: Chunk, rest: seq<bv8>)
    ensures ChunkBytes(c) + rest == c.digits + (CRLF + (c.data + (CRLF + rest)))
  {
  }

  lemma ScansDigits(f: seq<bv8>, pos: nat, end: nat, n: nat)
    requires pos < end < |f| && f[end] == CR && SizeLine(f[pos..end], n)
    ensures Scan(f, pos, 0) == Size(end, n)
  {
    ScanReaches(f, pos, pos, end);
    assert f[pos..pos] == [];
  }

  lemma DecodesChunk(f: seq<bv8>, pos: nat, produced: nat, capacity: nat, end: nat, n: nat)
    requires pos < end && n > 0 && end + 2 + n + 2 <= |f| && Scan(f, pos, 0) == Size(end, n)
    requires HasCrlf(f, end) && HasCrlf(f, end + 2 + n)
    ensures DecodeFrom(f, pos, produced, capacity)
         == if produced + n > capacity then None
            else match DecodeFrom(f, end + 2 + n + 2, produced + n, capacity)
                 case None => None
                 case Some(rest) => Some(f[end + 2..end + 2 + n] + rest)
    ensures end + 2 + n <= UINT32_MAX && SumsFit(f, end + 2 + n + 2) ==> SumsFit(f, pos)
    ensures |f| <= UINT32_MAX && Overruns(f, pos, produced, capacity) ==>
              produced + n <= capacity && Overruns(f, end + 2 + n + 2, produced + n, capacity)
  {
    hide Scan;
  }

  lemma {:induction false} ReadsChunks(f: seq<bv8>, pos: nat, produced: nat, capacity: nat,
                                       chunks: seq<Chunk>, e: seq<bv8>)
    requires pos <= |f| && IsFrame(f[pos..], chunks, e)
    ensures |f| <= UINT32_MAX ==> SumsFit(f, pos) && !Overruns(f, pos, produced, capacity)
    ensures DecodeFrom(f, pos, produced, capacity)
         == if produced + |Data(chunks)| <= capacity || chunks == [] then Some(Data(chunks)) else None
    decreases |chunks|
  {
    hide Scan, ChunkBytes, HasCrlf, SizeLine, DecodeFrom, SumsFit, Overruns, Ending, IsFrame;
    if chunks == [] {
      FrameEnds(f[pos..], e);
      ReadsEnding(f, pos, produced, capacity, e);
    } else {
      var c, n := chunks[0], |chunks[0].data|;
      var rest := Body(chunks[1..]) + e;
      FrameNext(f[pos..], chunks, e);
      ReadsChunk(f, pos, c, rest);
      var end := pos + |c.digits|;
      DigitsNonempty(c);
      DecodesChunk(f, pos, produced, capacity, end, n);
      ReadsChunks(f, end + 2 + n + 2, produced + n, capacity, chunks[1..], e);
    }
  }

  lemma FrameEnds(f: seq<bv8>, e: seq<bv8>)
    requires IsFrame(f, [], e)
    ensures f == e && Ending(e)
  {
    hide Ending;
  }

  lemma FrameNext(f: seq<bv8>, chunks: seq<Chunk>, e: seq<bv8>)
    requires IsFrame(f, chunks, e) && chunks != []
    ensures ValidChunk(chunks[0]) && f == ChunkBytes(chunks[0]) + (Body(chunks[1..]) + e)
    ensures IsFrame(Body(chunks[1..]) + e, chunks[1..], e)
  {
    hide ValidChunk, ChunkBytes, Ending;
    assert forall i :: 0 <= i < |chunks[1..]| ==> chunks[1..][i] == chunks[i + 1];
    assert ChunkBytes(chunks[0]) + Body(chunks[1..]) + e == ChunkBytes(chunks[0]) + (Body(chunks[1..]) + e);
  }

  lemma DigitsNonempty(c: Chunk)
    requires ValidChunk(c)
    ensures c.digits != []
  {
  }

  lemma ReadsEnding(f: seq<bv8>, pos: nat, produced: nat, capacity: nat, e: seq<bv8>)
    requires pos <= |f| && f[pos..] == e && Ending(e)
    ensures SumsFit(f, pos) && DecodeFrom(f, pos, produced, capacity) == Some([])
    ensures |f| <= UINT32_MAX ==> !Overruns(f, pos, produced, capacity)
  {
    hide Scan;
    if e != [] {
      var digits :| IsLastChunk(digits, e);
      var end := pos + |digits|;
      assert forall i :: 0 <= i < |e| ==> f[pos + i] == e[i];
      assert f[pos..end] == digits;
      assert f[end] == e[|digits|] && f[end + 1] == e[|digits| + 1];
      assert f[end + 2] == e[|digits| + 2] && f[end + 3] == e[|digits| + 3];
      ScanReaches(f, pos, pos, end);
      assert f[pos..pos] == [];
    }
  }

  /** An accepted frame has the shape of one. */
  lemma {:induction false} FrameOf(f: seq<bv8>, pos: nat, produced: nat, capacity: nat)
    returns (chunks: seq<Chunk>, e: seq<bv8>)
    requires pos <= |f| && DecodeFrom(f, pos, produced, capacity).Some?
    ensures IsFrame(f[pos..], chunks, e) && DecodeFrom(f, pos, produced, capacity) == Some(Data(chunks))
    ensures chunks == [] || produced + |Data(chunks)| <= capacity
    decreases |f| - pos
  {
    hide Scan, ChunkBytes, HasCrlf, SizeLine, DecodeFrom, IsLastChunk;
    chunks, e := [], f[pos..];
    if pos == |f| {
      DecodeNothing(f, produced, capacity);
    } else if Scan(f, pos, 0).Size? && Scan(f, pos, 0).value == 0 {
      AcceptedEnd(f, pos, produced, capacity);
    } else {
      var c, next := AcceptedChunk(f, pos, produced, capacity);
      var more;
      more, e := FrameOf(f, next, produced + |c.data|, capacity);
      chunks := [c] + more;
      assert f[pos..] == f[pos..next] + f[next..];
      assert Body(chunks) + e == ChunkBytes(c) + (Body(more) + e);
    }
  }

  lemma DecodeNothing(f: seq<bv8>, produced: nat, capacity: nat)
    ensures DecodeFrom(f, |f|, produced, capacity) == Some([])
  {
  }

  lemma SizeLineRead(f: seq<bv8>, pos: nat)
    requires pos < |f| && Scan(f, pos, 0).Size? && Scan(f, pos, 0).end > pos
    ensures SizeLine(f[pos..Scan(f, pos, 0).end], Scan(f, pos, 0).value)
  {
    hide Scan;
    ScanFinds(f, pos, pos);
    assert f[pos..pos] == [];
  }

  lemma AcceptedEnd(f: seq<bv8>, pos: nat, produced: nat, capacity: nat)
    requires pos < |f| && Scan(f, pos, 0).Size? && Scan(f, pos, 0).value == 0
    requires DecodeFrom(f, pos, produced, capacity).Some?
    ensures Ending(f[pos..]) && DecodeFrom(f, pos, produced, capacity) == Some([])
  {
    hide Scan, SizeLine, HasCrlf;
    var end := Scan(f, pos, 0).end;
    SizeLineRead(f, pos);
    CrlfSlice(f, end);
    CrlfSlice(f, end + 2);
    assert f[pos..] == f[pos..end] + f[end..end + 2] + f[end + 2..end + 4];
    assert IsLastChunk(f[pos..end], f[pos..]);
  }

  lemma AcceptedParts(f: seq<bv8>, pos: nat, produced: nat, capacity: nat)
    requires pos < |f| && (Scan(f, pos, 0).Size? ==> Scan(f, pos, 0).value > 0)
    requires DecodeFrom(f, pos, produced, capacity).Some?
    ensures Scan(f, pos, 0).Size?
    ensures var (end, n) := (Scan(f, pos, 0).end, Scan(f, pos, 0).value);
            && end > pos && HasCrlf(f, end) && HasCrlf(f, end + 2 + n) && end + 2 + n + 2 <= |f|
            && produced + n <= capacity && DecodeFrom(f, end + 2 + n + 2, produced + n, capacity).Some?
            && DecodeFrom(f, pos, produced, capacity)
               == Some(f[end + 2..end + 2 + n] + DecodeFrom(f, end + 2 + n + 2, produced + n, capacity).value)
  {
    hide Scan;
  }

  lemma AcceptedChunk(f: seq<bv8>, pos: nat, produced: nat, capacity: nat) returns (c: Chunk, next: nat)
    requires pos < |f| && (Scan(f, pos, 0).Size? ==> Scan(f, pos, 0).value > 0)
    requires DecodeFrom(f, pos, produced, capacity).Some?
    ensures pos < next <= |f| && ValidChunk(c) && f[pos..next] == ChunkBytes(c)
    ensures produced + |c.data| <= capacity && DecodeFrom(f, next, produced + |c.data|, capacity).Some?
    ensures DecodeFrom(f, pos, produced, capacity)
         == Some(c.data + DecodeFrom(f, next, produced + |c.data|, capacity).value)
  {
    hide Scan, SizeLine, HasCrlf, DecodeFrom;
    AcceptedParts(f, pos, produced, capacity);
    var end, n := Scan(f, pos, 0).end, Scan(f, pos, 0).value;
    SizeLineRead(f, pos);
    var start := end + 2;
    c, next := Chunk(f[pos..end], f[start..start + n]), start + n + 2;
    CrlfSlice(f, end);
    CrlfSlice(f, start + n);
    FourPieces(f, pos, end, start, start + n, next);
  }

  lemma FourPieces(f: seq<bv8>, a: nat, b: nat, c: nat, d: nat, e: nat)
    requires a <= b <= c <= d <= e <= |f|
    ensures f[a..e] == f[a..b] + f[b..c] + f[c..d] + f[d..e]
  {
    TwoPieces(f, a, b, c);
    TwoPieces(f, a, c, d);
    TwoPieces(f, a, d, e);
  }

  lemma TwoPieces(f: seq<bv8>, a: nat, b: nat, c: nat)
    requires a <= b <= c <= |f|
    ensures f[a..c] == f[a..b] + f[b..c]
  {
  }

  /** Decoding succeeds exactly on frames whose data fit, and yields their data. */
  lemma DecodesExactlyFrames(f: seq<bv8>, capacity: nat, out: seq<bv8>)
    ensures Decoded(f, capacity) == Some(out) <==>
            |out| <= capacity && exists chunks, e :: IsFrame(f, chunks, e) && Data(chunks) == out
  {
    hide DecodeFrom, IsFrame;
    assert f[0..] == f;
    if Decoded(f, capacity) == Some(out) {
      var chunks, e := FrameOf(f, 0, 0, capacity);
      assert IsFrame(f, chunks, e) && Data(chunks) == out;
    }
    if |out| <= capacity && exists chunks, e :: IsFrame(f, chunks, e) && Data(chunks) == out {
      var chunks, e :| IsFrame(f, chunks, e) && Data(chunks) == out;
      ReadsChunks(f, 0, 0, capacity, chunks, e);
    }
  }

  /** On a frame that is accepted, no sum wraps, so nothing is overrun. */
  lemma AcceptedSumsFit(f: seq<bv8>, capacity: nat)
    requires |f| <= UINT32_MAX && Decoded(f, capacity).Some?
    ensures SumsFit(f, 0) && !Overruns(f, 0, 0, capacity)
  {
    hide DecodeFrom, IsFrame, SumsFit, Overruns;
    assert f[0..] == f;
    var chunks, e := FrameOf(f, 0, 0, capacity);
    ReadsChunks(f, 0, 0, capacity, chunks, e);
  }

  /** The accepted language of the code, wrapping sums and all: it returns `out` exactly on frames whose data are `out`
      and fit. Every other input is refused or overruns. */
  lemma CodeAcceptsExactlyFrames(f: seq<bv8>, capacity: nat, out: seq<bv8>)
    requires |f| <= UINT32_MAX
    ensures CodeFrom(f, 0, 0, capacity) == Result(Some(out)) <==>
            |out| <= capacity && exists chunks, e :: IsFrame(f, chunks, e) && Data(chunks) == out
  {
    hide CodeFrom, DecodeFrom, IsFrame, SumsFit, Overruns;
    CodeDecodesUnlessOverrun(f, 0, 0, capacity);
    DecodesExactlyFrames(f, capacity, out);
    if Decoded(f, capacity).Some? {
      AcceptedSumsFit(f, capacity);
    }
  }

  // ---------------------------------------------------------------- one turn at a time

  /** The decoder on frames of any length, one turn of its loops at a time. While it reads digits it knows its two
      offsets, the size so far and whether there was a digit; `out` is what the output buffer holds. */
  datatype Machine =
    | Reading(offset: nat, produced: nat, size: nat, foundHex: bool, out: seq<bv8>)
    | Refused(out: seq<bv8>)
    | Accepted(produced: nat, out: seq<bv8>)
    | Outside

  function Start(out: seq<bv8>): Machine {
    Reading(0, 0, 0, false, out)
  }

  /** It returned, and stayed inside its buffers. */
  predicate Returned(s: Machine) {
    s.Refused? || s.Accepted?
  }

  /** Offsets are 32-bit numbers, and the output buffer is as large as it is said to be. */
  predicate InRange(s: Machine, capacity: nat) {
    && (s.Reading? ==> s.offset <= UINT32_MAX && s.produced <= UINT32_MAX && s.size <= UINT32_MAX)
    && (s.Reading? || s.Accepted? ==> s.produced <= capacity)
    && (!s.Outside? ==> capacity <= |s.out|)
  }

  /** One turn of the digit loop, or all that follows it up to the next size: src/framer/chunked.cpp:130-216. */
  function Turn(f: seq<bv8>, s: Machine, capacity: nat): (t: Machine)
    requires InRange(s, capacity)
    ensures InRange(t, capacity)
  {
    if !s.Reading? then s
    else if !s.foundHex && s.offset >= |f| then Accepted(s.produced, s.out)
    else if s.offset < |f| && f[s.offset] != CR then
      var v := HexToValue(f[s.offset]);
      if v < 0 || s.size > UINT32_MAX / 16 then Refused(s.out)
      else Reading(Wrap32(s.offset + 1), s.produced, 16 * s.size + v, true, s.out)
    else if !s.foundHex then Refused(s.out)
    else
      match LineEndAt(f, s.offset)
      case Missing => Refused(s.out)
      case Beyond => Outside
      case Present => BehindSize(f, Wrap32(s.offset + 2), s.produced, s.size, capacity, s.out)
  }

  function BehindSize(f: seq<bv8>, start: nat, produced: nat, n: nat, capacity: nat, out: seq<bv8>): (t: Machine)
    requires produced <= capacity <= |out|
    ensures InRange(t, capacity)
  {
    if n == 0 then
      match LineEndAt(f, start)
      case Missing => Refused(out)
      case Beyond => Outside
      case Present => if Wrap32(start + 2) != |f| then Refused(out) else Accepted(produced, out)
    else if Wrap32(start + n) > |f| || Wrap32(produced + n) > capacity then Refused(out)
    else if start + n > |f| || produced + n > capacity then Outside
    else BehindData(f, Wrap32(start + n), Wrap32(produced + n), Splice(out, produced, f[start..start + n]))
  }

  function BehindData(f: seq<bv8>, end: nat, produced: nat, out: seq<bv8>): Machine {
    match LineEndAt(f, end)
    case Missing => Refused(out)
    case Beyond => Outside
    case Present => Reading(Wrap32(end + 2), produced, 0, false, out)
  }

  function Turns(f: seq<bv8>, s: Machine, capacity: nat, turns: nat): (t: Machine)
    requires InRange(s, capacity)
    ensures InRange(t, capacity)
    decreases turns
  {
    if turns == 0 then s else Turns(f, Turn(f, s, capacity), capacity, turns - 1)
  }

  lemma {:induction false} TurnsAdd(f: seq<bv8>, s: Machine, capacity: nat, m: nat, n: nat)
    requires InRange(s, capacity)
    ensures Turns(f, s, capacity, m + n) == Turns(f, Turns(f, s, capacity, m), capacity, n)
    decreases m
  {
    hide Turn;
    if m == 0 {
    } else {
      TurnsAdd(f, Turn(f, s, capacity), capacity, m - 1, n);
    }
  }

  lemma {:induction false} StaysStopped(f: seq<bv8>, s: Machine, capacity: nat, turns: nat)
    requires InRange(s, capacity) && !s.Reading?
    ensures Turns(f, s, capacity, turns) == s
    decreases turns
  {
    if turns == 0 {
    } else {
      StaysStopped(f, s, capacity, turns - 1);
    }
  }

  /** However many turns it is given, it stops in one state. */
  lemma StopsOnce(f: seq<bv8>, s: Machine, capacity: nat, m: nat, n: nat)
    requires InRange(s, capacity)
    requires !Turns(f, s, capacity, m).Reading? && !Turns(f, s, capacity, n).Reading?
    ensures Turns(f, s, capacity, m) == Turns(f, s, capacity, n)
  {
    hide Turns;
    TurnsAdd(f, s, capacity, m, n);
    TurnsAdd(f, s, capacity, n, m);
    StaysStopped(f, Turns(f, s, capacity, m), capacity, n);
    StaysStopped(f, Turns(f, s, capacity, n), capacity, m);
  }

  /** Nothing is written behind the capacity. */
  lemma {:induction false} TurnsKeepRest(f: seq<bv8>, s: Machine, capacity: nat, turns: nat)
    requires InRange(s, capacity) && Returned(Turns(f, s, capacity, turns)) && !s.Outside?
    ensures |Turns(f, s, capacity, turns).out| == |s.out|
    ensures Turns(f, s, capacity, turns).out[capacity..] == s.out[capacity..]
    decreases turns
  {
    hide Turn;
    if turns == 0 {
    } else {
      var t := Turn(f, s, capacity);
      if t.Outside? {
        StaysStopped(f, t, capacity, turns - 1);
        assert false;
      } else {
        TurnKeepsRest(f, s, capacity);
        TurnsKeepRest(f, t, capacity, turns - 1);
      }
    }
  }

  lemma TurnKeepsRest(f: seq<bv8>, s: Machine, capacity: nat)
    requires InRange(s, capacity) && !s.Outside? && !Turn(f, s, capacity).Outside?
    ensures |Turn(f, s, capacity).out| == |s.out| && Turn(f, s, capacity).out[capacity..] == s.out[capacity..]
  {
    hide LineEndAt, Wrap32, HexToValue, Splice;
    var t := Turn(f, s, capacity);
    if t.out != s.out {
      var (start, n) := (Wrap32(s.offset + 2), s.size);
      SpliceKeepsRest(s.out, s.produced, f[start..start + n], capacity);
    }
  }

  lemma SpliceKeepsRest(out: seq<bv8>, off: nat, t: seq<bv8>, capacity: nat)
    requires off + |t| <= capacity <= |out|
    ensures Splice(out, off, t)[capacity..] == out[capacity..]
  {
  }

  /** The state in which an outcome of decoding behind `produced` bytes leaves the machine. */
  predicate Ends(s: Machine, o: Outcome<seq<bv8>>, produced: nat, out: seq<bv8>) {
    match o
    case Overrun => s == Outside
    case Result(None) => s.Refused?
    case Result(Some(data)) =>
      produced + |data| <= |out| && s == Accepted(produced + |data|, Splice(out, produced, data))
  }

  lemma EndsBehind(s: Machine, o: Outcome<seq<bv8>>, produced: nat, out: seq<bv8>, data: seq<bv8>)
    requires produced + |data| <= |out| && Ends(s, o, produced + |data|, Splice(out, produced, data))
    ensures Ends(s, Behind(data, o), produced, out)
  {
    hide Splice;
    if o.Result? && o.value.Some? {
      SpliceThen(out, produced, data, o.value.value);
    }
  }

  /** The digit loop: a turn for each digit, and one more where it stops short. */
  lemma {:induction false} DigitTurns(f: seq<bv8>, s: Machine, capacity: nat) returns (turns: nat)
    requires InRange(s, capacity) && s.Reading? && s.offset <= |f| <= UINT32_MAX
    requires !s.foundHex ==> s.offset < |f|
    ensures Turns(f, s, capacity, turns)
         == match Scan(f, s.offset, s.size)
            case Bad => Refused(s.out)
            case Size(end, size) => Reading(end, s.produced, size, s.foundHex || end > s.offset, s.out)
    decreases |f| - s.offset
  {
    hide HexToValue, LineEndAt, BehindSize;
    var i := s.offset;
    if i == |f| || f[i] == CR {
      turns := 0;
    } else if HexToValue(f[i]) < 0 || s.size > UINT32_MAX / 16 {
      turns := 1;
      OneTurn(f, s, capacity);
    } else {
      turns := DigitTurns(f, Turn(f, s, capacity), capacity);
      turns := turns + 1;
    }
  }

  /** The machine does what CodeFrom says, on every frame that 32-bit offsets can address. */
  lemma {:induction false} MachineIsCode(f: seq<bv8>, pos: nat, produced: nat, capacity: nat, out: seq<bv8>)
    returns (turns: nat)
    requires pos <= |f| <= UINT32_MAX && produced <= pos && produced <= capacity <= |out|
    ensures Ends(Turns(f, Reading(pos, produced, 0, false, out), capacity, turns),
                 CodeFrom(f, pos, produced, capacity), produced, out)
    decreases |f| - pos
  {
    hide Scan, CodeFrom, Turn, Turns, Splice, Ends;
    var s := Reading(pos, produced, 0, false, out);
    if pos == |f| {
      turns := 1;
      EndOfFrame(f, produced, capacity, out);
    } else {
      turns := DigitTurns(f, s, capacity);
      if Scan(f, pos, 0).Bad? {
        BadSizeInCode(f, pos, produced, capacity, out);
      } else {
        var end, n := Scan(f, pos, 0).end, Scan(f, pos, 0).value;
        var t := Reading(end, produced, n, end > pos, out);
        TurnsAdd(f, s, capacity, turns, 1);
        OneTurn(f, t, capacity);
        turns := turns + 1;
        if Turn(f, t, capacity).Reading? {
          TurnToNext(f, pos, end, produced, n, capacity, out);
          var data, next := f[end + 2..end + 2 + n], end + 2 + n + 2;
          var more := MachineIsCode(f, next, produced + n, capacity, Splice(out, produced, data));
          TurnsAdd(f, s, capacity, turns, more);
          turns := turns + more;
          EndsBehind(Turns(f, s, capacity, turns), CodeFrom(f, next, produced + n, capacity), produced, out, data);
        } else {
          TurnToEnd(f, pos, end, produced, n, capacity, out);
        }
      }
    }
  }

  lemma OneTurn(f: seq<bv8>, s: Machine, capacity: nat)
    requires InRange(s, capacity)
    ensures Turns(f, s, capacity, 1) == Turn(f, s, capacity)
  {
    hide Turn;
    assert Turns(f, Turn(f, s, capacity), capacity, 0) == Turn(f, s, capacity);
  }

  lemma EndOfFrame(f: seq<bv8>, produced: nat, capacity: nat, out: seq<bv8>)
    requires |f| <= UINT32_MAX && produced <= |f| && produced <= capacity <= |out|
    ensures Ends(Turns(f, Reading(|f|, produced, 0, false, out), capacity, 1),
                 CodeFrom(f, |f|, produced, capacity), produced, out)
  {
    OneTurn(f, Reading(|f|, produced, 0, false, out), capacity);
    SpliceNothing(out, produced);
  }

  lemma BadSizeInCode(f: seq<bv8>, pos: nat, produced: nat, capacity: nat, out: seq<bv8>)
    requires pos < |f| <= UINT32_MAX && Scan(f, pos, 0).Bad?
    ensures Ends(Refused(out), CodeFrom(f, pos, produced, capacity), produced, out)
  {
    hide Scan;
  }

  lemma SizeStops(f: seq<bv8>, pos: nat)
    requires pos < |f| && Scan(f, pos, 0).Size?
    ensures var end := Scan(f, pos, 0).end;
            (end == |f| || f[end] == CR) && Scan(f, pos, 0).value <= UINT32_MAX
  {
    hide Scan;
    NumberOfNothing(f[pos..pos]);
    ScanFinds(f, pos, pos);
  }

  /** A turn behind a size that goes on to the next chunk, */
  lemma TurnToNext(f: seq<bv8>, pos: nat, end: nat, produced: nat, n: nat, capacity: nat, out: seq<bv8>)
    requires pos < |f| <= UINT32_MAX && Scan(f, pos, 0) == Size(end, n)
    requires produced <= pos && produced <= capacity <= |out|
    requires Turn(f, Reading(end, produced, n, end > pos, out), capacity).Reading?
    ensures end + 2 + n + 2 <= |f| && produced + n <= end + 2 + n + 2 && produced + n <= capacity
    ensures Turn(f, Reading(end, produced, n, end > pos, out), capacity)
         == Reading(end + 2 + n + 2, produced + n, 0, false, Splice(out, produced, f[end + 2..end + 2 + n]))
    ensures CodeFrom(f, pos, produced, capacity)
         == Behind(f[end + 2..end + 2 + n], CodeFrom(f, end + 2 + n + 2, produced + n, capacity))
  {
    hide Scan, LineEndAt, Wrap32, Splice;
    SizeStops(f, pos);
    LineEndInside(f, end);
    WrapsOnce(end + 2, n);
    WrapsOnce(produced, n);
    if end + 2 + n <= |f| {
      LineEndInside(f, end + 2 + n);
    }
  }

  /** and one that does not. */
  lemma TurnToEnd(f: seq<bv8>, pos: nat, end: nat, produced: nat, n: nat, capacity: nat, out: seq<bv8>)
    requires pos < |f| <= UINT32_MAX && Scan(f, pos, 0) == Size(end, n)
    requires produced <= pos && produced <= capacity <= |out|
    requires !Turn(f, Reading(end, produced, n, end > pos, out), capacity).Reading?
    ensures Ends(Turn(f, Reading(end, produced, n, end > pos, out), capacity),
                 CodeFrom(f, pos, produced, capacity), produced, out)
  {
    hide Scan, LineEndAt, Wrap32, Splice;
    SizeStops(f, pos);
    LineEndInside(f, end);
    WrapsOnce(produced, n);
    SpliceNothing(out, produced);
    if LineEndAt(f, end) == Present {
      WrapsOnce(end + 2, n);
    }
    if end + 2 + n <= |f| {
      LineEndInside(f, end + 2 + n);
    }
  }

  lemma LineEndInside(f: seq<bv8>, i: nat)
    requires i <= |f| <= UINT32_MAX
    ensures LineEndAt(f, i) == Present ==> i + 2 <= |f| && Wrap32(i + 2) == i + 2
  {
  }

  /** On frames that 32-bit offsets can address the decoder always stops, inside its buffers exactly when nothing
      overruns, and then as decoding in unbounded arithmetic says. */
  lemma ReturnsExactly(f: seq<bv8>, capacity: nat, out: seq<bv8>)
    requires |f| <= UINT32_MAX && capacity <= |out|
    ensures (exists turns: nat :: Returned(Turns(f, Start(out), capacity, turns))) <==> !Overruns(f, 0, 0, capacity)
    ensures forall turns: nat :: Returned(Turns(f, Start(out), capacity, turns)) ==>
              Ends(Turns(f, Start(out), capacity, turns), Result(Decoded(f, capacity)), 0, out)
  {
    hide Turns, CodeFrom, Overruns, DecodeFrom, Splice;
    var enough := MachineIsCode(f, 0, 0, capacity, out);
    CodeDecodesUnlessOverrun(f, 0, 0, capacity);
    if !Overruns(f, 0, 0, capacity) {
      assert Returned(Turns(f, Start(out), capacity, enough));
    }
    forall turns: nat | Returned(Turns(f, Start(out), capacity, turns))
      ensures Turns(f, Start(out), capacity, turns) == Turns(f, Start(out), capacity, enough)
    {
      StopsOnce(f, Start(out), capacity, turns, enough);
    }
  }

  /** Whatever a frame of 2^32 bytes or more holds, the code never returns OK for it: no 32-bit offset is its length. */
  lemma {:induction false} LongFrameNeverAccepted(f: seq<bv8>, s: Machine, capacity: nat, turns: nat)
    requires |f| > UINT32_MAX && InRange(s, capacity) && !s.Accepted?
    ensures !Turns(f, s, capacity, turns).Accepted?
    decreases turns
  {
    hide Turn;
    if turns == 0 {
    } else {
      LongFrameGoesOn(f, s, capacity);
      LongFrameNeverAccepted(f, Turn(f, s, capacity), capacity, turns - 1);
    }
  }

  lemma LongFrameGoesOn(f: seq<bv8>, s: Machine, capacity: nat)
    requires |f| > UINT32_MAX && InRange(s, capacity) && !s.Accepted?
    ensures !Turn(f, s, capacity).Accepted?
  {
    hide LineEndAt, Wrap32;
  }

  /** On nothing but digits 0 it does not return at all: after any number of turns it is still reading, and after 2^32
      turns its offset and size are back at 0. */
  lemma {:induction false} ZerosNeverEnd(f: seq<bv8>, before: nat, capacity: nat, turns: nat, out: seq<bv8>)
    requires |f| > UINT32_MAX && (forall i :: 0 <= i < |f| ==> f[i] == 0x30) && capacity <= |out|
    ensures Turns(f, Reading(Wrap32(before), 0, 0, before > 0, out), capacity, turns)
         == Reading(Wrap32(before + turns), 0, 0, before + turns > 0, out)
    decreases turns
  {
    hide Turn, Wrap32;
    if turns == 0 {
    } else {
      ZeroTurn(f, before, capacity, out);
      ZerosNeverEnd(f, before + 1, capacity, turns - 1, out);
    }
  }

  lemma ZeroTurn(f: seq<bv8>, before: nat, capacity: nat, out: seq<bv8>)
    requires |f| > UINT32_MAX && f[Wrap32(before)] == 0x30 && capacity <= |out|
    ensures Turn(f, Reading(Wrap32(before), 0, 0, before > 0, out), capacity)
         == Reading(Wrap32(before + 1), 0, 0, true, out)
  {
    hide LineEndAt, HexToValue, Wrap32;
    ZeroDigit();
    WrapNext(before);
  }

  lemma WrapNext(n: nat)
    ensures Wrap32(Wrap32(n) + 1) == Wrap32(n + 1)
  {
  }

  // ---------------------------------------------------------------- frames on which the sums wrap

  /** ffffffff, the largest size there is. */
  const LARGEST_SIZE: seq<bv8> := [0x66, 0x66, 0x66, 0x66, 0x66, 0x66, 0x66, 0x66]

  lemma ValueOfF()
    ensures HexToValue(0x66) == 15 && HexToValue(0x31) == 1
  {
  }

  function Sixteens(k: nat): nat {
    if k == 0 then 1 else 16 * Sixteens(k - 1)
  }

  lemma {:induction false} RunOfF(s: seq<bv8>)
    requires forall i :: 0 <= i < |s| ==> s[i] == 0x66
    ensures AllHex(s) && Number(s) + 1 == Sixteens(|s|)
  {
    hide HexToValue;
    ValueOfF();
    if s == [] {
    } else {
      RunOfF(s[..|s| - 1]);
    }
  }

  lemma LargestSize()
    ensures SizeLine(LARGEST_SIZE, UINT32_MAX)
  {
    hide HexToValue, AllHex, Number;
    RunOfF(LARGEST_SIZE);
    assert Sixteens(4) == 0x1_0000 && Sixteens(8) == 0x1_0000_0000;
  }

  lemma NumberOfNothing(s: seq<bv8>)
    requires s == []
    ensures AllHex(s) && Number(s) == 0
  {
  }

  /** That size where the output is empty so far. The sum for the frame wraps, and the code refuses all the same, for
      want of room, unless the output takes 2^32 - 1 bytes. */
  lemma LargestSizeAlone(capacity: nat)
    ensures var f := LARGEST_SIZE + CRLF;
            && !SumsFit(f, 0) && Decoded(f, capacity) == None
            && CodeFrom(f, 0, 0, capacity) == if capacity < UINT32_MAX then Result(None) else Overrun
  {
    hide Scan, SizeLine;
    var f := LARGEST_SIZE + CRLF;
    LargestSize();
    assert f[0..8] == LARGEST_SIZE && f[8] == CR && f[9] == LF;
    ScansDigits(f, 0, 8, UINT32_MAX);
  }

  /** The same size behind a chunk of one byte. Now both sums wrap, both guards pass, and the code overruns in any
      output buffer that takes that one byte. */
  lemma LargestSizeBehindChunk(capacity: nat)
    ensures var f := [0x31] + CRLF + [0x58] + CRLF + LARGEST_SIZE + CRLF;
            && |f| == 16 && Decoded(f, capacity) == None
            && CodeFrom(f, 0, 0, capacity) == if capacity == 0 then Result(None) else Overrun
  {
    hide Scan, SizeLine, DecodeFrom, CodeFrom;
    var f := [0x31] + CRLF + [0x58] + CRLF + LARGEST_SIZE + CRLF;
    LargestSize();
    OneDigit();
    assert f[0..1] == [0x31] && f[6..14] == LARGEST_SIZE;
    assert f[1] == CR && f[2] == LF && f[4] == CR && f[5] == LF && f[14] == CR && f[15] == LF;
    ScansDigits(f, 0, 1, 1);
    ScansDigits(f, 6, 14, UINT32_MAX);
    BothDecoders(f, capacity);
  }

  lemma OneDigit()
    ensures SizeLine([0x31], 1)
  {
    hide HexToValue;
    ValueOfF();
    NumberOfNothing([]);
    assert [0x31][..0] == [];
  }

  lemma BothDecoders(f: seq<bv8>, capacity: nat)
    requires |f| == 16 && Scan(f, 0, 0) == Size(1, 1) && Scan(f, 6, 0) == Size(14, UINT32_MAX)
    requires HasCrlf(f, 1) && HasCrlf(f, 4) && HasCrlf(f, 14)
    ensures DecodeFrom(f, 0, 0, capacity) == None
    ensures CodeFrom(f, 0, 0, capacity) == if capacity == 0 then Result(None) else Overrun
  {
    hide Scan;
    assert DecodeFrom(f, 6, 1, capacity) == None;
    assert capacity > 0 ==> CodeFrom(f, 6, 1, capacity) == Overrun;
  }

  // ---------------------------------------------------------------- the encoder

  const LAST_CHUNK: seq<bv8> := [0x30, CR, LF, CR, LF]

  function ChunkSize(n: nat): (k: nat)
    ensures k <= n && k <= MAX_CHUNK_SIZE && (n > 0 ==> k > 0)
  {
    if n > MAX_CHUNK_SIZE then MAX_CHUNK_SIZE else n
  }

  function Chunks(p: seq<bv8>): seq<Chunk>
    decreases |p|
  {
    if p == [] then []
    else
      var k := ChunkSize(|p|);
      [Chunk(Hex(k), p[..k])] + Chunks(p[k..])
  }

  function Encoded(p: seq<bv8>): seq<bv8> {
    Body(Chunks(p)) + LAST_CHUNK
  }

  lemma {:induction false} ChunksHold(p: seq<bv8>)
    ensures forall i :: 0 <= i < |Chunks(p)| ==> ValidChunk(Chunks(p)[i])
    ensures Data(Chunks(p)) == p
    decreases |p|
  {
    hide Hex, AllHex, Number;
    if p == [] {
    } else {
      var k := ChunkSize(|p|);
      NumberHex(k);
      ChunksHold(p[k..]);
      assert p == p[..k] + p[k..];
    }
  }

  lemma EncodedIsFrame(p: seq<bv8>)
    ensures IsFrame(Encoded(p), Chunks(p), LAST_CHUNK)
  {
    hide Body, Chunks, HexToValue;
    ChunksHold(p);
    ZeroSize();
    assert LAST_CHUNK == [0x30] + CRLF + CRLF;
    assert IsLastChunk([0x30], LAST_CHUNK);
  }

  lemma ZeroDigit()
    ensures HexToValue(0x30) == 0
  {
  }

  /** Decoding what was encoded gives the payload back, whatever bytes it holds. */
  lemma DecodedEncoded(p: seq<bv8>, capacity: nat)
    requires |p| <= capacity
    ensures Decoded(Encoded(p), capacity) == Some(p)
  {
    hide IsFrame, DecodeFrom, Encoded;
    EncodedIsFrame(p);
    ChunksHold(p);
    DecodesExactlyFrames(Encoded(p), capacity, p);
  }

  /** Nothing wraps on the way, as long as the frame is shorter than 2^32. */
  lemma EncodedSumsFit(p: seq<bv8>, capacity: nat)
    requires |Encoded(p)| <= UINT32_MAX
    ensures SumsFit(Encoded(p), 0) && !Overruns(Encoded(p), 0, 0, capacity)
  {
    hide IsFrame, DecodeFrom, Encoded, SumsFit, Overruns;
    EncodedIsFrame(p);
    assert Encoded(p)[0..] == Encoded(p);
    ReadsChunks(Encoded(p), 0, 0, capacity, Chunks(p), LAST_CHUNK);
  }

  // ---------------------------------------------------------------- truncated encodings

  lemma BodyNext(chunks: seq<Chunk>, j: nat)
    requires 0 < j <= |chunks|
    ensures Body(chunks[..j]) == ChunkBytes(chunks[0]) + Body(chunks[1..][..j - 1])
    ensures Data(chunks[..j]) == chunks[0].data + Data(chunks[1..][..j - 1])
  {
    hide ChunkBytes;
    assert chunks[..j][1..] == chunks[1..][..j - 1];
  }

  /** A frame cut off within a chunk, or within the last chunk, is refused. */
  lemma CutChunkIsRefused(f: seq<bv8>, digits: seq<bv8>, n: nat, rest: seq<bv8>, k: nat, pos: nat,
                          produced: nat, capacity: nat)
    requires pos < k < |f| && SizeLine(digits, n) && f[pos..] == digits + (CRLF + rest)
    requires k < pos + |digits| + 2 + n + 2
    ensures DecodeFrom(f[..k], pos, produced, capacity) == None
  {
    hide SizeLine, DecodeFrom;
    var g, end := f[..k], pos + |digits|;
    Parts(f, pos, digits, CRLF + rest);
    Parts(f, end, CRLF, rest);
    if k <= end {
      CutSize(digits, n, k - pos);
      SliceOfSlice(f, pos, end, 0, k - pos);
      assert g[pos..] == g[pos..k] == digits[..k - pos];
      ScansToEnd(g, pos);
      CutBehindSize(g, pos, k, Scan(g, pos, 0).value, produced, capacity);
    } else {
      CrlfAt(f, end);
      CrlfSlice(f, end);
      assert g[pos..end] == f[pos..end] && g[end] == f[end];
      DigitsOfSize(digits, n);
      ScansDigits(g, pos, end, n);
      CutBehindSize(g, pos, end, n, produced, capacity);
    }
  }

  lemma DigitsOfSize(digits: seq<bv8>, n: nat)
    requires SizeLine(digits, n)
    ensures digits != []
  {
  }

  lemma CutSize(digits: seq<bv8>, n: nat, k: nat)
    requires SizeLine(digits, n) && 0 < k <= |digits|
    ensures AllHex(digits[..k]) && Number(digits[..k]) <= n <= UINT32_MAX
  {
    hide HexToValue, Number;
    assert digits[..|digits|] == digits;
    NumberGrows(digits, k);
  }

  lemma ScansToEnd(g: seq<bv8>, pos: nat)
    requires pos < |g| && AllHex(g[pos..]) && Number(g[pos..]) <= UINT32_MAX
    ensures Scan(g, pos, 0) == Size(|g|, Number(g[pos..]))
  {
    hide AllHex, Number;
    assert g[pos..|g|] == g[pos..];
    ScanReaches(g, pos, pos, |g|);
    NumberOfNothing(g[pos..pos]);
  }

  lemma CutBehindSize(g: seq<bv8>, pos: nat, end: nat, n: nat, produced: nat, capacity: nat)
    requires pos < |g| && Scan(g, pos, 0) == Size(end, n) && |g| < end + 2 + n + 2
    ensures DecodeFrom(g, pos, produced, capacity) == None
  {
    hide Scan;
  }

  /** `k` bytes into the encoding is where the first `j` chunks end. */
  predicate EndsChunk(chunks: seq<Chunk>, k: nat, j: nat) {
    j <= |chunks| && k == |Body(chunks[..j])|
  }

  lemma FirstCut(chunks: seq<Chunk>, k: nat, j: nat)
    requires EndsChunk(chunks, k, j)
    ensures j == 0 ==> k == 0 && Data(chunks[..j]) == []
    ensures j > 0 ==>
              && k >= |ChunkBytes(chunks[0])| >= 4
              && EndsChunk(chunks[1..], k - |ChunkBytes(chunks[0])|, j - 1)
              && Data(chunks[..j]) == chunks[0].data + Data(chunks[1..][..j - 1])
  {
    hide ChunkBytes;
    if j == 0 {
    } else {
      BodyNext(chunks, j);
    }
  }

  lemma LaterCut(chunks: seq<Chunk>, k: nat, j: nat)
    requires chunks != [] && EndsChunk(chunks[1..], k, j)
    ensures EndsChunk(chunks, |ChunkBytes(chunks[0])| + k, j + 1)
  {
    hide ChunkBytes;
    BodyNext(chunks, j + 1);
  }

  lemma {:induction false} TruncatedFrom(f: seq<bv8>, pos: nat, cut: nat, produced: nat, capacity: nat,
                                         chunks: seq<Chunk>)
    requires pos + cut < |f| && IsFrame(f[pos..], chunks, LAST_CHUNK) && produced + |Data(chunks)| <= capacity
    ensures var r := DecodeFrom(f[..pos + cut], pos, produced, capacity);
            && (r.Some? ==> exists j: nat :: j <= |chunks| && EndsChunk(chunks, cut, j))
            && (forall j: nat :: j <= |chunks| && EndsChunk(chunks, cut, j) ==> r == Some(Data(chunks[..j])))
    decreases |chunks|
  {
    hide IsFrame, DecodeFrom, ChunkBytes, EndsChunk;
    var r := DecodeFrom(f[..pos + cut], pos, produced, capacity);
    forall j: nat | j <= |chunks| && EndsChunk(chunks, cut, j)
      ensures j == 0 ==> cut == 0 && Data(chunks[..j]) == []
      ensures j > 0 ==> cut >= |ChunkBytes(chunks[0])| >= 4
    {
      FirstCut(chunks, cut, j);
    }
    if cut == 0 {
      DecodeNothing(f[..pos], produced, capacity);
      NothingCut(chunks);
    } else if chunks == [] {
      CutLastChunk(f, pos, pos + cut, produced, capacity);
    } else if cut < |ChunkBytes(chunks[0])| {
      CutFirstChunk(f, pos, pos + cut, produced, capacity, chunks);
    } else {
      var rest := cut - |ChunkBytes(chunks[0])|;
      PastFirstChunk(f, pos, pos + cut, produced, capacity, chunks);
      TruncatedFrom(f, pos + |ChunkBytes(chunks[0])|, rest, produced + |chunks[0].data|, capacity, chunks[1..]);
      forall j: nat | j <= |chunks| && EndsChunk(chunks, cut, j)
        ensures r == Some(Data(chunks[..j]))
      {
        FirstCut(chunks, cut, j);
        assert EndsChunk(chunks[1..], rest, j - 1);
      }
      if r.Some? {
        var j: nat :| j <= |chunks[1..]| && EndsChunk(chunks[1..], rest, j);
        LaterCut(chunks, rest, j);
      }
    }
  }

  lemma NothingCut(chunks: seq<Chunk>)
    ensures EndsChunk(chunks, 0, 0)
  {
  }

  lemma CutLastChunk(f: seq<bv8>, pos: nat, k: nat, produced: nat, capacity: nat)
    requires pos < k < |f| && IsFrame(f[pos..], [], LAST_CHUNK)
    ensures DecodeFrom(f[..k], pos, produced, capacity) == None
  {
    hide SizeLine, DecodeFrom;
    ZeroSize();
    assert f[pos..] == [0x30] + (CRLF + CRLF);
    CutChunkIsRefused(f, [0x30], 0, CRLF, k, pos, produced, capacity);
  }

  lemma ZeroSize()
    ensures SizeLine([0x30], 0)
  {
    hide HexToValue;
    ZeroDigit();
    NumberOfNothing([0x30][..0]);
  }

  lemma CutFirstChunk(f: seq<bv8>, pos: nat, k: nat, produced: nat, capacity: nat, chunks: seq<Chunk>)
    requires pos < k < |f| && IsFrame(f[pos..], chunks, LAST_CHUNK) && chunks != []
    requires k < pos + |ChunkBytes(chunks[0])|
    ensures DecodeFrom(f[..k], pos, produced, capacity) == None
  {
    hide IsFrame, SizeLine, DecodeFrom, ChunkBytes;
    var c, rest := chunks[0], Body(chunks[1..]) + LAST_CHUNK;
    FrameNext(f[pos..], chunks, LAST_CHUNK);
    ChunkShape(c, rest);
    CutChunkIsRefused(f, c.digits, |c.data|, c.data + (CRLF + rest), k, pos, produced, capacity);
  }

  lemma PastFirstChunk(f: seq<bv8>, pos: nat, k: nat, produced: nat, capacity: nat, chunks: seq<Chunk>)
    requires pos < k < |f| && IsFrame(f[pos..], chunks, LAST_CHUNK) && chunks != []
    requires pos + |ChunkBytes(chunks[0])| <= k && produced + |Data(chunks)| <= capacity
    ensures var (c, next) := (chunks[0], pos + |ChunkBytes(chunks[0])|);
            && IsFrame(f[next..], chunks[1..], LAST_CHUNK)
            && produced + |c.data| + |Data(chunks[1..])| <= capacity
            && DecodeFrom(f[..k], pos, produced, capacity)
               == match DecodeFrom(f[..k], next, produced + |c.data|, capacity)
                  case None => None
                  case Some(out) => Some(c.data + out)
  {
    hide IsFrame, Scan, SizeLine, HasCrlf, DecodeFrom, ChunkBytes, SumsFit, Overruns;
    var (c, rest) := (chunks[0], Body(chunks[1..]) + LAST_CHUNK);
    var next := pos + |ChunkBytes(c)|;
    FrameNext(f[pos..], chunks, LAST_CHUNK);
    Parts(f, pos, ChunkBytes(c), rest);
    TwoPieces(f, pos, next, k);
    assert f[..k][pos..] == f[pos..k] && f[pos..next] == ChunkBytes(c);
    ReadsChunk(f[..k], pos, c, f[next..k]);
    DigitsNonempty(c);
    DecodesChunk(f[..k], pos, produced, capacity, pos + |c.digits|, |c.data|);
  }

  /** An encoding cut short is accepted exactly when the cut falls between chunks, and then as the data up to there. */
  lemma TruncatedEncoding(p: seq<bv8>, k: nat, capacity: nat)
    requires k < |Encoded(p)| && |p| <= capacity
    ensures var r := Decoded(Encoded(p)[..k], capacity);
            && (r.Some? <==> exists j: nat :: j <= |Chunks(p)| && EndsChunk(Chunks(p), k, j))
            && (forall j: nat :: j <= |Chunks(p)| && EndsChunk(Chunks(p), k, j) ==> r == Some(Data(Chunks(p)[..j])))
  {
    hide IsFrame, DecodeFrom, Encoded, EndsChunk, Chunks, Data, ValidChunk;
    EncodedIsFrame(p);
    ChunksHold(p);
    assert Encoded(p)[0..] == Encoded(p);
    TruncatedFrom(Encoded(p), 0, k, 0, capacity, Chunks(p));
  }

  function EncodedLength(n: nat): nat {
    var r := n % MAX_CHUNK_SIZE;
    n + 7 * (n / MAX_CHUNK_SIZE) + (if r > 0 then 4 + |Hex(r)| else 0) + 5
  }

  /** What a chunk of `k` bytes takes: src/framer/chunked.cpp:82-83. */
  function Space(k: nat): nat {
    |Hex(k)| + 4 + k
  }

  lemma {:induction false} LengthNext(n: nat)
    requires n > 0
    ensures EncodedLength(n) == Space(ChunkSize(n)) + EncodedLength(n - ChunkSize(n))
    ensures EncodedLength(n - ChunkSize(n)) >= 5
  {
    hide ValueToHex;
    if n < MAX_CHUNK_SIZE {
    } else {
      assert |Hex(1024)| == 3;
      assert (n - 1024) % 1024 == n % 1024 && (n - 1024) / 1024 == n / 1024 - 1;
    }
  }

  lemma LengthOfNothing()
    ensures EncodedLength(0) == 5
  {
  }

  lemma {:induction false} BodyLength(p: seq<bv8>)
    ensures |Body(Chunks(p))| + 5 == EncodedLength(|p|)
    decreases |p|
  {
    hide Hex, EncodedLength;
    if p == [] {
      LengthOfNothing();
    } else {
      var k := ChunkSize(|p|);
      BodyLength(p[k..]);
      assert Chunks(p)[1..] == Chunks(p[k..]);
      LengthNext(|p|);
    }
  }

  lemma EncodedNext(p: seq<bv8>)
    requires p != []
    ensures var k := ChunkSize(|p|);
            Encoded(p) == ChunkBytes(Chunk(Hex(k), p[..k])) + Encoded(p[k..])
  {
    hide Hex, ChunkBytes;
    var k := ChunkSize(|p|);
    assert Chunks(p)[1..] == Chunks(p[k..]);
  }

  lemma HexOf1024()
    ensures Hex(1024) == [0x34, 0x30, 0x30]
  {
    hide ValueToHex;
    assert Hex(1024) == Hex(64) + [ValueToHex(0)] && Hex(64) == Hex(4) + [ValueToHex(0)];
    DigitFourAndZero();
  }

  lemma DigitFourAndZero()
    ensures ValueToHex(4) == 0x34 && ValueToHex(0) == 0x30
  {
  }

  lemma Shifts(a: seq<bv8>, b: seq<bv8>, from: nat, to: nat)
    requires |a| <= from <= to <= |a| + |b|
    ensures (a + b)[from..to] == b[from - |a|..to - |a|]
  {
  }

  /** Full chunk `i` of an encoding. */
  lemma {:induction false} FullChunkAt(p: seq<bv8>, i: nat)
    requires 1024 * (i + 1) <= |p|
    ensures 1031 * (i + 1) <= |Encoded(p)|
    ensures Encoded(p)[1031 * i..1031 * (i + 1)]
         == [0x34, 0x30, 0x30, 0x0d, 0x0a] + p[1024 * i..1024 * (i + 1)] + [0x0d, 0x0a]
    decreases i
  {
    hide Hex, Encoded;
    EncodedNext(p);
    HexOf1024();
    var head, rest := ChunkBytes(Chunk(Hex(1024), p[..1024])), p[1024..];
    assert Encoded(p) == head + Encoded(rest);
    if i == 0 {
      assert (head + Encoded(rest))[..1031] == head;
    } else {
      FullChunkAt(rest, i - 1);
      Shifts(head, Encoded(rest), 1031 * i, 1031 * (i + 1));
      assert rest == p[1024..|p|];
      SliceOfSlice(p, 1024, |p|, 1024 * (i - 1), 1024 * i);
    }
  }

  /** What stands behind the full chunks. */
  lemma {:induction false} RestOfEncoding(p: seq<bv8>)
    ensures var (q, r) := (|p| / 1024, |p| % 1024);
            && 1031 * q <= |Encoded(p)|
            && Encoded(p)[1031 * q..]
               == (if r == 0 then [] else Hex(r) + [0x0d, 0x0a] + p[1024 * q..] + [0x0d, 0x0a])
                  + [0x30, 0x0d, 0x0a, 0x0d, 0x0a]
    decreases |p|
  {
    hide Hex, Encoded;
    EncodedNothing();
    if |p| < 1024 {
      if p == [] {
      } else {
        EncodedNext(p);
        assert p[|p|..] == [] && p[..|p|] == p;
      }
    } else {
      EncodedNext(p);
      HexOf1024();
      var head, rest := ChunkBytes(Chunk(Hex(1024), p[..1024])), p[1024..];
      assert Encoded(p) == head + Encoded(rest);
      RestOfEncoding(rest);
      var q := |p| / 1024;
      assert |rest| / 1024 == q - 1 && |rest| % 1024 == |p| % 1024;
      Shifts(head, Encoded(rest), 1031 * q, |head + Encoded(rest)|);
      assert rest[1024 * (q - 1)..] == p[1024 * q..];
    }
  }

  lemma EncodedNothing()
    ensures Encoded([]) == LAST_CHUNK
  {
  }

  /** An encoding, byte by byte: the chunks of 1024 bytes first, each as the line 400, its data and a line end; then a
      chunk of what remains, if anything does; then the zero chunk. */
  lemma EncodedLayout(p: seq<bv8>, i: nat)
    ensures var (f, q, r) := (Encoded(p), |p| / 1024, |p| % 1024);
            && 1031 * q <= |f|
            && (i < q ==> f[1031 * i..1031 * (i + 1)]
                          == [0x34, 0x30, 0x30, 0x0d, 0x0a] + p[1024 * i..1024 * (i + 1)] + [0x0d, 0x0a])
            && f[1031 * q..]
               == (if r == 0 then [] else Hex(r) + [0x0d, 0x0a] + p[1024 * q..] + [0x0d, 0x0a])
                  + [0x30, 0x0d, 0x0a, 0x0d, 0x0a]
  {
    hide Hex, Encoded;
    RestOfEncoding(p);
    if i < |p| / 1024 {
      FullChunkAt(p, i);
    }
  }

  // ---------------------------------------------------------------- the encoder, in the arithmetic of the code

  /** The writes of a chunk stay inside. Every index is a 32-bit sum; the digits and the data are written from their
      first byte on: src/framer/chunked.cpp:91-104. */
  predicate ChunkInside(offset: nat, k: nat, capacity: nat) {
    var digits := |Hex(k)|;
    var lineEnd := Wrap32(offset + digits);
    var data := Wrap32(lineEnd + 2);
    var dataEnd := Wrap32(data + k);
    && offset + digits <= capacity
    && lineEnd < capacity && Wrap32(lineEnd + 1) < capacity
    && data + k <= capacity
    && dataEnd < capacity && Wrap32(dataEnd + 1) < capacity
  }

  /** So do those of the last chunk: src/framer/chunked.cpp:115-119. */
  predicate LastInside(offset: nat, capacity: nat) {
    && Wrap32(offset) < capacity && Wrap32(offset + 1) < capacity && Wrap32(offset + 2) < capacity
    && Wrap32(offset + 3) < capacity && Wrap32(offset + 4) < capacity
  }

  /** What comes of encoding with `remaining` bytes to go, all sums taken modulo 2^32: the size that is reported, None
      for ERR_FORMAT, or an overrun. */
  function CodeEncode(remaining: nat, offset: nat, capacity: nat): Outcome<nat>
    decreases remaining
  {
    if remaining == 0 then
      if Wrap32(offset + 5) > capacity then Result(None)
      else if !LastInside(offset, capacity) then Overrun
      else Result(Some(Wrap32(offset + 5)))
    else
      var k := ChunkSize(remaining);
      var end := Wrap32(offset + Space(k));
      if end > capacity then Result(None)
      else if !ChunkInside(offset, k, capacity) then Overrun
      else CodeEncode(remaining - k, end, capacity)
  }

  /** A guard is reached whose sum wraps. */
  predicate EncodeWraps(remaining: nat, offset: nat, capacity: nat)
    decreases remaining
  {
    if remaining == 0 then offset + 5 > UINT32_MAX
    else
      var k := ChunkSize(remaining);
      var end := offset + Space(k);
      end > UINT32_MAX || (end <= capacity && EncodeWraps(remaining - k, end, capacity))
  }

  /** At the first such guard, what it lets through is written outside the buffer. */
  predicate EncodeOverruns(remaining: nat, offset: nat, capacity: nat)
    decreases remaining
  {
    if remaining == 0 then offset + 5 > UINT32_MAX && !LastInside(offset, capacity)
    else
      var k := ChunkSize(remaining);
      var end := offset + Space(k);
      if end > UINT32_MAX then !ChunkInside(offset, k, capacity)
      else end <= capacity && EncodeOverruns(remaining - k, end, capacity)
  }

  lemma ChunkDigits(k: nat)
    requires 0 < k <= MAX_CHUNK_SIZE
    ensures |Hex(k)| <= 3
  {
    hide ValueToHex;
    if k >= 256 {
      assert |Hex(k)| == 1 + |Hex(k / 16)|;
    }
  }

  lemma SpaceOfChunk(n: nat)
    ensures n > 0 ==> |Hex(ChunkSize(n))| <= 3 && Space(ChunkSize(n)) <= 1031
  {
    hide Hex;
    if n == 0 {
    } else {
      ChunkDigits(ChunkSize(n));
    }
  }

  lemma InsideWhenFitting(offset: nat, k: nat, capacity: nat)
    requires offset + Space(k) <= capacity && offset + Space(k) <= UINT32_MAX
    ensures ChunkInside(offset, k, capacity)
  {
    hide Hex;
  }

  lemma LastInsideWhenFitting(offset: nat, capacity: nat)
    requires offset + 5 <= capacity && offset + 5 <= UINT32_MAX
    ensures LastInside(offset, capacity)
  {
  }

  /** Where everything fits the buffer and 32 bits, the length is reported. */
  lemma {:induction false} LengthFits(n: nat, offset: nat, capacity: nat)
    requires offset + EncodedLength(n) <= capacity && offset + EncodedLength(n) <= UINT32_MAX
    ensures CodeEncode(n, offset, capacity) == Result(Some(offset + EncodedLength(n)))
    decreases n
  {
    hide Space, EncodedLength, ChunkInside, LastInside;
    if n == 0 {
      LengthOfNothing();
      LastInsideWhenFitting(offset, capacity);
    } else {
      LengthNext(n);
      InsideWhenFitting(offset, ChunkSize(n), capacity);
      LengthFits(n - ChunkSize(n), offset + Space(ChunkSize(n)), capacity);
    }
  }

  /** What comes of encoding, for every size and capacity: an overrun exactly under the condition above; elsewhere,
      where a guard wraps, the length modulo 2^32; and everywhere else the truth. */
  lemma {:induction false} CodeEncodesExactly(n: nat, offset: nat, capacity: nat)
    requires offset <= UINT32_MAX && offset <= capacity && offset + EncodedLength(n) <= 0x1_8000_0000
    ensures CodeEncode(n, offset, capacity)
         == if EncodeOverruns(n, offset, capacity) then Overrun
            else if EncodeWraps(n, offset, capacity) then Result(Some(offset + EncodedLength(n) - 0x1_0000_0000))
            else if offset + EncodedLength(n) <= capacity then Result(Some(offset + EncodedLength(n)))
            else Result(None)
    ensures EncodeOverruns(n, offset, capacity) ==> EncodeWraps(n, offset, capacity)
    ensures EncodeWraps(n, offset, capacity) ==> offset + EncodedLength(n) > UINT32_MAX
    decreases n
  {
    hide Space, EncodedLength, CodeEncode, EncodeWraps, EncodeOverruns;
    if n == 0 {
      LastGuardExactly(offset, capacity);
    } else {
      var end := offset + Space(ChunkSize(n));
      LengthNext(n);
      if end > UINT32_MAX {
        GuardLetsThrough(n, offset, capacity);
      } else {
        GuardIsRight(n, offset, capacity);
        WrapsBehind(n, offset, capacity);
        OverrunsBehind(n, offset, capacity);
        if end <= capacity {
          CodeEncodesExactly(n - ChunkSize(n), end, capacity);
        }
      }
    }
  }

  lemma LastGuardExactly(offset: nat, capacity: nat)
    requires offset <= UINT32_MAX && offset <= capacity
    ensures EncodedLength(0) == 5
    ensures EncodeWraps(0, offset, capacity) <==> offset + 5 > UINT32_MAX
    ensures EncodeOverruns(0, offset, capacity) ==> offset + 5 > UINT32_MAX
    ensures CodeEncode(0, offset, capacity)
         == if EncodeOverruns(0, offset, capacity) then Overrun
            else if EncodeWraps(0, offset, capacity) then Result(Some(offset + 5 - 0x1_0000_0000))
            else if offset + 5 <= capacity then Result(Some(offset + 5))
            else Result(None)
  {
    hide EncodedLength, Wrap32, LastInside;
    LengthOfNothing();
    WrapsOnce(offset, 5);
    if offset + 5 <= UINT32_MAX && offset + 5 <= capacity {
      LastInsideWhenFitting(offset, capacity);
    }
  }

  /** A guard that does not wrap is right, */
  lemma GuardIsRight(n: nat, offset: nat, capacity: nat)
    requires n > 0 && offset + Space(ChunkSize(n)) <= UINT32_MAX
    ensures var end := offset + Space(ChunkSize(n));
            CodeEncode(n, offset, capacity)
            == if end > capacity then Result(None) else CodeEncode(n - ChunkSize(n), end, capacity)
  {
    hide Space, ChunkInside, LastInside, ChunkSize;
    if offset + Space(ChunkSize(n)) <= capacity {
      InsideWhenFitting(offset, ChunkSize(n), capacity);
    }
  }

  /** and leaves it to the guards behind it to wrap, */
  lemma WrapsBehind(n: nat, offset: nat, capacity: nat)
    requires n > 0 && offset + Space(ChunkSize(n)) <= UINT32_MAX
    ensures var end := offset + Space(ChunkSize(n));
            EncodeWraps(n, offset, capacity) <==> end <= capacity && EncodeWraps(n - ChunkSize(n), end, capacity)
  {
    hide Space, ChunkSize;
  }

  /** or to let something through that overruns. */
  lemma OverrunsBehind(n: nat, offset: nat, capacity: nat)
    requires n > 0 && offset + Space(ChunkSize(n)) <= UINT32_MAX
    ensures var end := offset + Space(ChunkSize(n));
            EncodeOverruns(n, offset, capacity) <==> end <= capacity && EncodeOverruns(n - ChunkSize(n), end, capacity)
  {
    hide Space, ChunkInside, LastInside, ChunkSize;
  }

  /** A guard that wraps passes, and so do all behind it. */
  lemma GuardLetsThrough(n: nat, offset: nat, capacity: nat)
    requires n > 0 && offset <= UINT32_MAX < offset + Space(ChunkSize(n))
    requires offset <= capacity && offset + EncodedLength(n) <= 0x1_8000_0000
    ensures EncodeWraps(n, offset, capacity)
    ensures CodeEncode(n, offset, capacity)
         == if EncodeOverruns(n, offset, capacity) then Overrun
            else Result(Some(offset + EncodedLength(n) - 0x1_0000_0000))
  {
    hide Space, EncodedLength, Wrap32, ChunkInside, LastInside;
    var k := ChunkSize(n);
    LengthNext(n);
    SpaceOfChunk(n);
    WrapsOnce(offset, Space(k));
    LengthFits(n - k, offset + Space(k) - 0x1_0000_0000, capacity);
  }

  /** So for every payload that a 32-bit size can count: what comes of it is right exactly when no guard wraps. */
  lemma EncoderIsRightUnlessWrapped(n: nat, capacity: nat)
    requires n <= UINT32_MAX
    ensures CodeEncode(n, 0, capacity) == Result(if EncodedLength(n) <= capacity then Some(EncodedLength(n)) else None)
       <==> !EncodeWraps(n, 0, capacity)
    ensures EncodeWraps(n, 0, capacity) ==>
              CodeEncode(n, 0, capacity)
              == if EncodeOverruns(n, 0, capacity) then Overrun else Result(Some(EncodedLength(n) - 0x1_0000_0000))
  {
    hide CodeEncode, EncodeWraps, EncodeOverruns;
    LengthBound(n);
    CodeEncodesExactly(n, 0, capacity);
  }

  lemma LengthBound(n: nat)
    requires n <= UINT32_MAX
    ensures EncodedLength(n) <= 0x1_8000_0000
  {
    hide Hex;
    var r := n % MAX_CHUNK_SIZE;
    if r == 0 {
    } else {
      SpaceOfChunk(r);
    }
  }

  /** A buffer of 2^32 - 1 bytes or more lets every encoding of 2^32 bytes or more through to a guard that wraps. */
  lemma {:induction false} LargeBufferWraps(n: nat, offset: nat, capacity: nat)
    requires offset <= UINT32_MAX <= capacity && offset + EncodedLength(n) > UINT32_MAX
    ensures EncodeWraps(n, offset, capacity)
    decreases n
  {
    hide Space, EncodedLength;
    if n == 0 {
      LengthOfNothing();
    } else {
      var k := ChunkSize(n);
      LengthNext(n);
      if offset + Space(k) <= UINT32_MAX {
        LargeBufferWraps(n - k, offset + Space(k), capacity);
      }
    }
  }

  lemma InsideLarger(offset: nat, k: nat, capacity: nat)
    requires offset <= UINT32_MAX && capacity >= UINT32_MAX + 1024 && k <= 1024 && |Hex(k)| <= 3
    ensures ChunkInside(offset, k, capacity)
  {
    hide Hex, Wrap32;
  }

  /** A buffer of 2^32 + 1023 bytes or more is never overrun: no write starts behind 2^32 - 1 or is longer than 1024. */
  lemma {:induction false} LargerBufferHolds(n: nat, offset: nat, capacity: nat)
    requires offset <= UINT32_MAX && capacity >= UINT32_MAX + 1024
    ensures !EncodeOverruns(n, offset, capacity)
    decreases n
  {
    hide Space, ChunkInside;
    if n == 0 {
    } else {
      var k := ChunkSize(n);
      SpaceOfChunk(n);
      InsideLarger(offset, k, capacity);
      if offset + Space(k) <= UINT32_MAX {
        LargerBufferHolds(n - k, offset + Space(k), capacity);
      }
    }
  }

  lemma FullChunk()
    ensures |Hex(MAX_CHUNK_SIZE)| == 3 && Space(MAX_CHUNK_SIZE) == 1031
  {
    hide ValueToHex;
  }

  /** `j` full chunks that fit are written one after the other, */
  lemma {:induction false} FullChunksPass(j: nat, n: nat, offset: nat, capacity: nat)
    requires 1024 * j <= n && offset + 1031 * j <= capacity && offset + 1031 * j <= UINT32_MAX
    ensures CodeEncode(n, offset, capacity) == CodeEncode(n - 1024 * j, offset + 1031 * j, capacity)
    decreases j
  {
    hide Space, ChunkInside, LastInside, Hex;
    FullChunk();
    if j == 0 {
    } else {
      InsideWhenFitting(offset, MAX_CHUNK_SIZE, capacity);
      FullChunksPass(j - 1, n - 1024, offset + 1031, capacity);
    }
  }

  /** and refused as soon as they do not. */
  lemma {:induction false} FullChunksRefused(j: nat, n: nat, offset: nat, capacity: nat)
    requires 1024 * j <= n && offset <= capacity < offset + 1031 * j <= UINT32_MAX
    ensures CodeEncode(n, offset, capacity) == Result(None)
    decreases j
  {
    hide Space, ChunkInside, LastInside, Hex;
    FullChunk();
    if capacity < offset + 1031 {
    } else {
      InsideWhenFitting(offset, MAX_CHUNK_SIZE, capacity);
      FullChunksRefused(j - 1, n - 1024, offset + 1031, capacity);
    }
  }

  /** The largest payload, whose encoding takes 4324327428 bytes. The guard of full chunk 4165827 wraps: a buffer too
      small for the chunks before it is refused, one that does not hold this chunk's data is overrun, and one that does
      is reported to be filled with 29360132 bytes. */
  lemma LargestPayload(capacity: nat)
    ensures EncodedLength(UINT32_MAX) == 4324327428
    ensures CodeEncode(UINT32_MAX, 0, capacity)
         == if capacity < 4294966606 then Result(None)
            else if capacity < 4294967635 then Overrun
            else Result(Some(29360132))
  {
    hide CodeEncode, EncodeWraps, EncodeOverruns, ValueToHex;
    var j := 4165826;
    assert UINT32_MAX % 1024 == 1023 && UINT32_MAX / 1024 == 4194303;
    assert |Hex(1023)| == 3;
    if capacity < 1031 * j {
      FullChunksRefused(j, UINT32_MAX, 0, capacity);
    } else {
      FullChunksPass(j, UINT32_MAX, 0, capacity);
      AtTheWrap(capacity);
    }
  }

  lemma ChunkAtTheWrap(capacity: nat)
    ensures ChunkInside(4294966606, MAX_CHUNK_SIZE, capacity) <==> capacity >= 4294967635
  {
    hide Hex;
    FullChunk();
    assert Wrap32(4294966609) == 4294966609 && Wrap32(4294966610) == 4294966610 && Wrap32(4294966611) == 4294966611;
    assert Wrap32(4294967635) == 339 && Wrap32(340) == 340;
  }

  lemma AtTheWrap(capacity: nat)
    requires capacity >= 4294966606
    ensures CodeEncode(29161471, 4294966606, capacity)
         == if capacity < 4294967635 then Overrun else Result(Some(29360132))
  {
    hide EncodedLength, Space, ChunkInside, LastInside;
    FullChunk();
    ChunkAtTheWrap(capacity);
    LengthAfterWrap();
    assert ChunkSize(29161471) == MAX_CHUNK_SIZE && Wrap32(4294966606 + 1031) == 341;
    if capacity < 4294967635 {
    } else {
      LengthFits(29160447, 341, capacity);
    }
  }

  lemma LengthAfterWrap()
    ensures EncodedLength(29160447) == 29359791
  {
    hide ValueToHex;
    assert 29160447 % 1024 == 1023 && 29160447 / 1024 == 28476;
    assert |Hex(1023)| == 3;
  }
}
