/** src/framer/chunked.cpp as written: loops over offsets that are 32-bit numbers. */
module ChunkedFramer {
  import opened Core
  import opened HexSizes
  import opened ChunkedCoding

  /** The number of hexadecimal digits of a positive value. */
  method CountDigits(value: nat) returns (digits: nat)
    requires value > 0
    ensures digits == |Hex(value)|
  {
    hide ValueToHex;
    digits := 0;
    var temp := value;
    while temp > 0
      invariant digits + (if temp == 0 then 0 else |Hex(temp)|) == |Hex(value)|
      decreases temp
    {
      digits := digits + 1;
      temp := temp / 16;
    }
  }

  method WriteHex(dest: array<bv8>, offset: nat, value: nat) returns (digits: nat)
    requires offset + |Hex(value)| <= dest.Length
    modifies dest
    ensures digits == |Hex(value)| && dest[..] == Splice(old(dest[..]), offset, Hex(value))
  {
    hide Hex, ValueToHex, Splice;
    ghost var h, before := Hex(value), dest[..];
    SpliceNothing(before, offset);
    if value == 0 {
      HexZero();
      SpliceNext(before, offset, [], 0x30);
      dest[offset] := 0x30;
      assert h == [] + [0x30];
      return 1;
    }
    digits := CountDigits(value);
    var i := 0;
    assert h[..0] == [];
    while i < digits
      invariant 0 <= i <= digits == |h|
      invariant dest[..] == Splice(before, offset, h[..i])
    {
      var nibble := ShiftDigits(value, digits - 1 - i) % 16;
      HexDigitAt(value, i);
      SpliceNext(before, offset, h[..i], h[i]);
      dest[offset + i] := ValueToHex(nibble);
      assert h[..i + 1] == h[..i] + [h[i]];
      i := i + 1;
    }
    assert h[..digits] == h;
  }

  lemma HexZero()
    ensures Hex(0) == [0x30]
  {
  }

  /** The offset is a 32-bit number, also between the two bytes. */
  method WriteCrlf(dest: array<bv8>, offset: nat)
    requires offset <= UINT32_MAX && offset < dest.Length && Wrap32(offset + 1) < dest.Length
    modifies dest
    ensures offset < UINT32_MAX ==> offset + 2 <= dest.Length && dest[..] == Splice(old(dest[..]), offset, CRLF)
  {
    dest[offset] := CR;
    dest[Wrap32(offset + 1)] := LF;
  }

  lemma WrapSum(a: nat, b: nat)
    ensures Wrap32(Wrap32(a) + b) == Wrap32(a + b)
  {
  }

  lemma InsideMore(offset: nat, k: nat, capacity: nat, length: nat)
    requires ChunkInside(offset, k, capacity) && capacity <= length
    ensures ChunkInside(offset, k, length)
  {
    hide Hex, Wrap32;
  }

  /** Writes one chunk and returns the offset behind it; as one piece, if no offset wraps. */
  method WriteChunk(dest: array<bv8>, offset: nat, data: array<bv8>, dataOffset: nat, n: nat) returns (end: nat)
    requires dataOffset + n <= data.Length && dest != data
    requires offset <= UINT32_MAX && ChunkInside(offset, n, dest.Length)
    modifies dest
    ensures end == Wrap32(offset + Space(n))
    ensures offset + Space(n) <= UINT32_MAX ==>
              && offset + Space(n) <= dest.Length
              && dest[..] == Splice(old(dest[..]), offset, ChunkBytes(Chunk(Hex(n), data[dataOffset..dataOffset + n])))
  {
    hide Hex, Splice, Wrap32;
    ghost var s, h, d := dest[..], Hex(n), data[dataOffset..dataOffset + n];
    var written := WriteHex(dest, offset, n);
    var o := Wrap32(offset + written);
    WriteCrlf(dest, o);
    WrapSum(offset + written, 2);
    o := Wrap32(o + 2);
    WrapSum(offset + written + 2, n);
    Memcpy(dest, o, data, dataOffset, n);
    o := Wrap32(o + n);
    WriteCrlf(dest, o);
    WrapSum(offset + written + 2 + n, 2);
    if offset + Space(n) <= UINT32_MAX {
      SpliceThen(s, offset, h, CRLF);
      SpliceThen(s, offset, h + CRLF, d);
      SpliceThen(s, offset, h + CRLF + d, CRLF);
    }
    end := Wrap32(o + 2);
  }

  /** One pass: the next chunk, unless its guard refuses it. On a `straight` run, where no guard wraps, it stands where
      it belongs. */
  method EncodeChunk(payload: array<bv8>, n: nat, payloadOffset: nat,
                     output: array?<bv8>, outputOffset: nat, capacity: nat,
                     ghost p: seq<bv8>, ghost before: seq<bv8>, ghost straight: bool)
    returns (ok: bool, chunkSize: nat, end: nat)
    requires payload != output && payloadOffset < n <= UINT32_MAX && n <= payload.Length && outputOffset <= capacity
    requires payload[..n] == p && outputOffset <= UINT32_MAX
    requires capacity > 0 ==> output != null && capacity <= output.Length
    requires CodeEncode(n - payloadOffset, outputOffset, capacity) != Overrun
    requires |before| == |Bytes(output)|
    requires straight ==> && !EncodeWraps(n - payloadOffset, outputOffset, capacity)
                          && Progress(Bytes(output), before, Encoded(p), p[payloadOffset..], outputOffset)
    modifies output
    ensures ok ==> && 0 < chunkSize <= n - payloadOffset && end <= capacity && end <= UINT32_MAX
                   && CodeEncode(n - payloadOffset - chunkSize, end, capacity)
                      == CodeEncode(n - payloadOffset, outputOffset, capacity)
    ensures ok && straight ==>
              && Progress(Bytes(output), before, Encoded(p), p[payloadOffset + chunkSize..], end)
              && !EncodeWraps(n - payloadOffset - chunkSize, end, capacity)
    ensures !ok ==> && CodeEncode(n - payloadOffset, outputOffset, capacity) == Result(None)
                    && end == outputOffset && Bytes(output) == old(Bytes(output))
  {
    hide Hex, ChunkBytes, Encoded, Progress, Splice, ChunkInside, Wrap32;
    ghost var frame, rest := Encoded(p), p[payloadOffset..];
    chunkSize := if n - payloadOffset > MAX_CHUNK_SIZE then MAX_CHUNK_SIZE else n - payloadOffset;
    var hexChars := CountDigits(chunkSize);
    ChunkDigits(chunkSize);
    var spaceNeeded := Wrap32(Wrap32(hexChars + 4) + chunkSize);
    if Wrap32(outputOffset + spaceNeeded) > capacity {
      return false, chunkSize, outputOffset;
    }
    InsideMore(outputOffset, chunkSize, capacity, output.Length);
    ghost var now := Bytes(output);
    end := WriteChunk(output, outputOffset, payload, payloadOffset, chunkSize);
    if straight {
      assert rest[..chunkSize] == payload[payloadOffset..payloadOffset + chunkSize];
      assert rest[chunkSize..] == p[payloadOffset + chunkSize..];
      ChunkFits(now, before, frame, rest, outputOffset);
      NextChunk(now, before, frame, rest, outputOffset);
      assert Bytes(output) == Splice(now, outputOffset, ChunkBytes(Chunk(Hex(chunkSize), rest[..chunkSize])));
    }
    ok := true;
  }

  /** The loop over chunks. It stops early when a guard refuses a chunk. */
  method EncodeChunks(payload: array?<bv8>, n: nat, output: array?<bv8>, capacity: nat)
    returns (ok: bool, outputOffset: nat, ghost rest: seq<bv8>)
    requires output == null || payload != output
    requires n <= UINT32_MAX && (n > 0 ==> payload != null && n <= payload.Length)
    requires capacity > 0 ==> output != null && capacity <= output.Length
    requires CodeEncode(n, 0, capacity) != Overrun
    modifies output
    ensures outputOffset <= capacity && outputOffset <= UINT32_MAX
    ensures CodeEncode(n, 0, capacity) == if ok then CodeEncode(0, outputOffset, capacity) else Result(None)
    ensures ok ==> rest == []
    ensures !EncodeWraps(n, 0, capacity) ==>
              && Progress(Bytes(output), old(Bytes(output)), Encoded(if n == 0 then [] else payload[..n]), rest,
                          outputOffset)
              && (ok ==> !EncodeWraps(0, outputOffset, capacity))
  {
    hide Encoded, Progress, EncodeWraps, CodeEncode, Wrap32;
    var remaining := n;
    var payloadOffset: nat := 0;
    outputOffset := 0;
    ghost var p := if n == 0 then [] else payload[..n];
    ghost var frame, before := Encoded(p), Bytes(output);
    assert p[0..] == p;
    StartOfFrame(before, p);
    while remaining > 0
      invariant payloadOffset + remaining == n && 0 <= remaining
      invariant outputOffset <= capacity && outputOffset <= UINT32_MAX
      invariant |before| == |Bytes(output)| && p == if n == 0 then [] else payload[..n]
      invariant CodeEncode(remaining, outputOffset, capacity) == CodeEncode(n, 0, capacity)
      invariant !EncodeWraps(n, 0, capacity) ==>
                  && Progress(Bytes(output), before, frame, p[payloadOffset..], outputOffset)
                  && !EncodeWraps(remaining, outputOffset, capacity)
    {
      var fits, chunkSize, end :=
        EncodeChunk(payload, n, payloadOffset, output, outputOffset, capacity, p, before, !EncodeWraps(n, 0, capacity));
      if !fits {
        return false, outputOffset, p[payloadOffset..];
      }
      outputOffset := end;
      WrapsOnce(payloadOffset, chunkSize);
      payloadOffset := Wrap32(payloadOffset + chunkSize);
      remaining := remaining - chunkSize;
    }
    assert p[payloadOffset..] == [];
    return true, outputOffset, [];
  }

  /** The payload length is taken modulo 2^32. When no buffer is overrun, code and size are what CodeEncode says, and
      when no guard wraps either, the output holds the encoding. CodeEncodesExactly says which is when. */
  method Encode(payload: Buffer, output: Buffer) returns (err: ErrorCode, ghost written: nat)
    requires payload.Valid() && output.Valid()
    requires payload != output && (output.data == null || payload.data != output.data)
    requires !EncodeOverruns(Wrap32(payload.size), 0, output.size)
    modifies output, output.data
    ensures output.Valid() && output.data == old(output.data)
    ensures match CodeEncode(Wrap32(payload.size), 0, old(output.size))
            case Result(Some(size)) => err == OK && output.size == size
            case Result(None) => err == ERR_FORMAT && output.size == old(output.size)
            case Overrun => false
    ensures var p := payload.Contents()[..Wrap32(payload.size)];
            !EncodeWraps(|p|, 0, old(output.size)) ==>
              && (err == OK <==> old(output.size) >= EncodedLength(|p|))
              && (err == OK ==> output.Contents() == Encoded(p) && written == output.size == EncodedLength(|p|))
              && (err != OK ==> err == ERR_FORMAT && output.size == old(output.size))
              && written <= old(output.size) && written <= |Encoded(p)|
              && Bytes(output.data) == Encoded(p)[..written] + old(Bytes(output.data))[written..]
  {
    hide Encoded, EncodedLength, EncodeWraps, EncodeOverruns, CodeEncode;
    var n := Wrap32(payload.size);
    ghost var p := payload.Contents()[..n];
    assert p == if n == 0 then [] else payload.data[..n];
    EncodedHasLength(p);
    LengthBound(n);
    CodeEncodesExactly(n, 0, output.size);
    var ok, end := EncodeFrame(payload.data, n, output.data, output.size);
    written := end;
    if !ok {
      return ERR_FORMAT, written;
    }
    output.size := end;
    assert end == |p| || Encoded(p)[..|Encoded(p)|] == Encoded(p);
    return OK, written;
  }

  /** The chunks and the last chunk; `end` is how far the output is written. */
  method EncodeFrame(payload: array?<bv8>, n: nat, output: array?<bv8>, capacity: nat) returns (ok: bool, end: nat)
    requires output == null || payload != output
    requires n <= UINT32_MAX && (n > 0 ==> payload != null && n <= payload.Length)
    requires capacity > 0 ==> output != null && capacity <= output.Length
    requires CodeEncode(n, 0, capacity) != Overrun
    modifies output
    ensures CodeEncode(n, 0, capacity) == Result(if ok then Some(end) else None) && end <= capacity
    ensures var frame := Encoded(if n == 0 then [] else payload[..n]);
            !EncodeWraps(n, 0, capacity) ==>
              && (ok ==> end == |frame|) && end <= |frame| && end <= |old(Bytes(output))|
              && Bytes(output) == frame[..end] + old(Bytes(output))[end..]
  {
    hide Encoded, Progress, Splice, EncodeWraps, CodeEncode, Wrap32;
    ghost var p := if n == 0 then [] else payload[..n];
    ghost var frame, before := Encoded(p), Bytes(output);
    ghost var rest;
    ok, end, rest := EncodeChunks(payload, n, output, capacity);
    ghost var now, straight := Bytes(output), !EncodeWraps(n, 0, capacity);
    if straight {
      ChunkFits(now, before, frame, rest, end);
    }
    if !ok {
      return false, end;
    }
    LastChunkEncoded(end, capacity);
    if Wrap32(end + 5) > capacity {
      return false, end;
    }
    WriteLastChunk(output, end);
    if straight {
      EndOfFrame(now, before, frame, end);
      assert frame[..end + 5] == frame;
    }
    end := Wrap32(end + 5);
  }

  lemma LastChunkEncoded(offset: nat, capacity: nat)
    ensures CodeEncode(0, offset, capacity)
         == if Wrap32(offset + 5) > capacity then Result(None)
            else if !LastInside(offset, capacity) then Overrun
            else Result(Some(Wrap32(offset + 5)))
    ensures !EncodeWraps(0, offset, capacity) ==> offset + 5 <= UINT32_MAX
  {
  }

  method WriteLastChunk(dest: array<bv8>, offset: nat)
    requires offset <= UINT32_MAX && LastInside(offset, dest.Length)
    modifies dest
    ensures offset + 5 <= UINT32_MAX ==>
              offset + 5 <= dest.Length && dest[..] == Splice(old(dest[..]), offset, LAST_CHUNK)
  {
    dest[offset] := 0x30;
    dest[Wrap32(offset + 1)] := CR;
    dest[Wrap32(offset + 2)] := LF;
    dest[Wrap32(offset + 3)] := CR;
    dest[Wrap32(offset + 4)] := LF;
  }

  /** With `rest` of the payload to go, the first `out` bytes of the frame are written and nothing else is. */
  ghost predicate Progress(now: seq<bv8>, before: seq<bv8>, frame: seq<bv8>, rest: seq<bv8>, out: nat) {
    && out <= |frame| && out <= |before|
    && frame == frame[..out] + Encoded(rest)
    && now == frame[..out] + before[out..]
  }

  lemma StartOfFrame(before: seq<bv8>, p: seq<bv8>)
    ensures Progress(before, before, Encoded(p), p, 0)
  {
  }

  lemma ChunkFits(now: seq<bv8>, before: seq<bv8>, frame: seq<bv8>, rest: seq<bv8>, out: nat)
    requires Progress(now, before, frame, rest, out)
    ensures out <= |frame| && now == frame[..out] + before[out..]
    ensures rest != [] ==> out + |Hex(ChunkSize(|rest|))| + 4 + ChunkSize(|rest|) + 5 <= |frame|
  {
    hide Hex, Encoded;
    if rest != [] {
      EncodedNext(rest);
      EncodedEnds(rest[ChunkSize(|rest|)..]);
    }
  }

  lemma EncodedEnds(p: seq<bv8>)
    ensures |Encoded(p)| >= 5
  {
  }

  lemma NextChunk(now: seq<bv8>, before: seq<bv8>, frame: seq<bv8>, rest: seq<bv8>, out: nat)
    requires Progress(now, before, frame, rest, out) && rest != []
    ensures var k := ChunkSize(|rest|);
            var chunk := ChunkBytes(Chunk(Hex(k), rest[..k]));
            out + |chunk| <= |before| ==>
              |now| == |before| && Progress(Splice(now, out, chunk), before, frame, rest[k..], out + |chunk|)
  {
    hide Hex, Encoded, ChunkBytes;
    EncodedNext(rest);
    var k := ChunkSize(|rest|);
    var chunk := ChunkBytes(Chunk(Hex(k), rest[..k]));
    if out + |chunk| <= |before| {
      AdvanceFrame(frame, out, chunk, Encoded(rest[k..]), before);
    }
  }

  lemma EndOfFrame(now: seq<bv8>, before: seq<bv8>, frame: seq<bv8>, out: nat)
    requires Progress(now, before, frame, [], out)
    ensures |frame| == out + 5 && now == frame[..out] + before[out..]
    ensures out + 5 <= |before| ==> |now| == |before| && Splice(now, out, LAST_CHUNK) == frame + before[out + 5..]
  {
    EncodedNothing();
  }

  lemma EncodedHasLength(p: seq<bv8>)
    ensures |Encoded(p)| == EncodedLength(|p|)
  {
    BodyLength(p);
  }

  lemma AdvanceFrame(frame: seq<bv8>, from: nat, chunk: seq<bv8>, rest: seq<bv8>, before: seq<bv8>)
    requires from <= |frame| && frame == frame[..from] + (chunk + rest) && from + |chunk| <= |before|
    ensures var to := from + |chunk|;
            && to + |rest| == |frame| && frame == frame[..to] + rest
            && Splice(frame[..from] + before[from..], from, chunk) == frame[..to] + before[to..]
  {
    assert frame[..from + |chunk|] == frame[..from] + chunk;
  }

  // ---------------------------------------------------------------- decoding

  /** Whether the machine, in this state, returns after no more than so many turns. */
  ghost predicate Returns(f: seq<bv8>, s: Machine, capacity: nat, turns: nat) {
    InRange(s, capacity) && Returned(Turns(f, s, capacity, turns))
  }

  /** A machine that returns and still reads has turns left. */
  lemma TurnTaken(f: seq<bv8>, s: Machine, capacity: nat, turns: nat)
    requires Returns(f, s, capacity, turns) && s.Reading?
    ensures turns > 0 && Returns(f, Turn(f, s, capacity), capacity, turns - 1)
    ensures Turns(f, s, capacity, turns) == Turns(f, Turn(f, s, capacity), capacity, turns - 1)
    ensures !Turn(f, s, capacity).Outside?
    ensures !Turn(f, s, capacity).Reading? ==> Turns(f, s, capacity, turns) == Turn(f, s, capacity)
  {
    hide Turn;
    if turns == 0 {
      assert false;
    } else if !Turn(f, s, capacity).Reading? {
      StaysStopped(f, Turn(f, s, capacity), capacity, turns - 1);
    }
  }

  /** The inner loop: digits up to a CR or the end of the frame. `s` is the machine before it, `left` the number of its
      turns behind it. */
  method ReadSize(frame: array<bv8>, size: nat, offset: nat, ghost s: Machine, ghost capacity: nat, ghost turns: nat)
    returns (ok: bool, end: nat, value: nat, foundHex: bool, ghost left: nat)
    requires offset < size <= frame.Length && Returns(frame[..size], s, capacity, turns)
    requires s.Reading? && s.offset == offset && s.size == 0 && !s.foundHex
    ensures ok ==>
              var t := Reading(end, s.produced, value, foundHex, s.out);
              && (end < size ==> frame[end] == CR) && (foundHex || end < size) && left <= turns
              && Returns(frame[..size], t, capacity, left)
              && Turns(frame[..size], t, capacity, left) == Turns(frame[..size], s, capacity, turns)
    ensures !ok ==> Turns(frame[..size], s, capacity, turns) == Refused(s.out)
  {
    hide HexToValue, LineEndAt, BehindSize, Turns;
    ghost var f := frame[..size];
    value, foundHex, end, left := 0, false, offset, turns;
    while end < size
      invariant (foundHex || end < size) && left <= turns
      invariant Returns(f, Reading(end, s.produced, value, foundHex, s.out), capacity, left)
      invariant Turns(f, Reading(end, s.produced, value, foundHex, s.out), capacity, left)
             == Turns(f, s, capacity, turns)
      decreases left
    {
      var c := frame[end];
      assert c == f[end];
      if c == CR {
        break;
      }
      TurnTaken(f, Reading(end, s.produced, value, foundHex, s.out), capacity, left);
      left := left - 1;
      var hexVal := HexToValue(c);
      if hexVal < 0 {
        return false, end, value, foundHex, left;
      }
      foundHex := true;
      if value > UINT32_MAX / 16 {
        return false, end, value, foundHex, left;
      }
      value := Wrap32(16 * value + hexVal);
      end := Wrap32(end + 1);
    }
    ok := true;
  }

  /** Whether a CR and an LF stand at the offset. */
  method SeesCrlf(frame: array<bv8>, size: nat, offset: nat) returns (sees: bool)
    requires size <= frame.Length && LineEndAt(frame[..size], offset) != Beyond
    ensures sees <==> LineEndAt(frame[..size], offset) == Present
  {
    if Wrap32(offset + 2) > size {
      return false;
    }
    return frame[offset] == CR && frame[Wrap32(offset + 1)] == LF;
  }

  datatype Pass = Failed | Finished | Continues

  /** One pass of the outer loop. */
  method DecodeChunk(frame: array<bv8>, size: nat, frameOffset: nat,
                     output: array?<bv8>, capacity: nat, outputOffset: nat, ghost turns: nat)
    returns (pass: Pass, frameEnd: nat, outputEnd: nat, ghost left: nat)
    requires output != frame && frameOffset < size <= frame.Length
    requires capacity > 0 ==> output != null && capacity <= output.Length
    requires Returns(frame[..size], Reading(frameOffset, outputOffset, 0, false, Bytes(output)), capacity, turns)
    modifies output
    ensures var end := Turns(frame[..size], old(Reading(frameOffset, outputOffset, 0, false, Bytes(output))),
                             capacity, turns);
            match pass
            case Failed => end == Refused(Bytes(output))
            case Finished => end == Accepted(outputOffset, Bytes(output)) && outputEnd == outputOffset
            case Continues =>
              && left < turns
              && Returns(frame[..size], Reading(frameEnd, outputEnd, 0, false, Bytes(output)), capacity, left)
              && end == Turns(frame[..size], Reading(frameEnd, outputEnd, 0, false, Bytes(output)), capacity, left)
  {
    hide LineEndAt, BehindSize, Turns, HexToValue, Wrap32;
    ghost var f, s := frame[..size], Reading(frameOffset, outputOffset, 0, false, Bytes(output));
    pass, frameEnd, outputEnd := Failed, frameOffset, outputOffset;
    var read, end, chunkSize, foundHex;
    read, end, chunkSize, foundHex, left := ReadSize(frame, size, frameOffset, s, capacity, turns);
    if !read {
      return;
    }
    ghost var t := Reading(end, outputOffset, chunkSize, foundHex, Bytes(output));
    TurnTaken(f, t, capacity, left);
    left := left - 1;
    if !foundHex {
      return;
    }
    var sees := SeesCrlf(frame, size, end);
    if !sees {
      return;
    }
    pass, frameEnd, outputEnd := TakeChunk(frame, size, Wrap32(end + 2), chunkSize, output, capacity, outputOffset);
  }

  /** What stands behind a size: the end of the frame or the data of a chunk. */
  method TakeChunk(frame: array<bv8>, size: nat, start: nat, n: nat,
                   output: array?<bv8>, capacity: nat, outputOffset: nat)
    returns (pass: Pass, frameEnd: nat, outputEnd: nat)
    requires output != frame && size <= frame.Length && outputOffset <= capacity
    requires capacity > 0 ==> output != null && capacity <= output.Length
    requires !BehindSize(frame[..size], start, outputOffset, n, capacity, Bytes(output)).Outside?
    modifies output
    ensures var end := BehindSize(frame[..size], start, outputOffset, n, capacity, old(Bytes(output)));
            match pass
            case Failed => end == Refused(Bytes(output))
            case Finished => end == Accepted(outputOffset, Bytes(output)) && outputEnd == outputOffset
            case Continues => end == Reading(frameEnd, outputEnd, 0, false, Bytes(output))
  {
    hide LineEndAt, Wrap32, Splice;
    pass, frameEnd, outputEnd := Failed, start, outputOffset;
    if n == 0 {
      var sees := SeesCrlf(frame, size, start);
      if sees && Wrap32(start + 2) == size {
        pass := Finished;
      }
      return;
    }
    if Wrap32(start + n) > size {
      return;
    }
    if Wrap32(outputOffset + n) > capacity {
      return;
    }
    ghost var data := frame[..size][start..start + n];
    SliceOfSlice(frame[..], 0, size, start, start + n);
    assert data == frame[start..start + n];
    Memcpy(output, outputOffset, frame, start, n);
    outputEnd := Wrap32(outputOffset + n);
    var sees := SeesCrlf(frame, size, Wrap32(start + n));
    if sees {
      pass, frameEnd := Continues, Wrap32(Wrap32(start + n) + 2);
    }
  }

  /** The outer loop. */
  method DecodeChunks(frame: array<bv8>, size: nat, output: array?<bv8>, capacity: nat, ghost turns: nat)
    returns (ok: bool, outputOffset: nat)
    requires output != frame && size <= frame.Length
    requires capacity > 0 ==> output != null && capacity <= output.Length
    requires Returns(frame[..size], Start(Bytes(output)), capacity, turns)
    modifies output
    ensures Turns(frame[..size], Start(old(Bytes(output))), capacity, turns)
         == if ok then Accepted(outputOffset, Bytes(output)) else Refused(Bytes(output))
  {
    hide Turns, InRange;
    ghost var f, end := frame[..size], Turns(frame[..size], Start(Bytes(output)), capacity, turns);
    ghost var left := turns;
    var frameOffset: nat := 0;
    outputOffset := 0;
    while frameOffset < size
      invariant Returns(f, Reading(frameOffset, outputOffset, 0, false, Bytes(output)), capacity, left)
      invariant Turns(f, Reading(frameOffset, outputOffset, 0, false, Bytes(output)), capacity, left) == end
      decreases left
    {
      var pass, frameEnd, outputEnd;
      pass, frameEnd, outputEnd, left :=
        DecodeChunk(frame, size, frameOffset, output, capacity, outputOffset, left);
      frameOffset, outputOffset := frameEnd, outputEnd;
      if pass == Failed {
        return false, outputOffset;
      }
      if pass == Finished {
        return true, outputOffset;
      }
    }
    TurnTaken(f, Reading(frameOffset, outputOffset, 0, false, Bytes(output)), capacity, left);
    ok := true;
  }

  /** What returning means, by the length of the frame. */
  lemma HowItReturned(f: seq<bv8>, capacity: nat, out: seq<bv8>, turns: nat)
    requires capacity <= |out| && Returned(Turns(f, Start(out), capacity, turns))
    ensures var t := Turns(f, Start(out), capacity, turns);
            && |t.out| == |out| && t.out[capacity..] == out[capacity..]
            && (|f| <= UINT32_MAX ==>
                  match Decoded(f, capacity)
                  case Some(data) =>
                    && t.Accepted? && t.produced == |data| <= |out|
                    && t.out[..|data|] == data && t.out[|data|..] == out[|data|..]
                  case None => t.Refused?)
            && (|f| > UINT32_MAX ==> t.Refused?)
  {
    hide Turns, DecodeFrom, Overruns, Splice;
    TurnsKeepRest(f, Start(out), capacity, turns);
    if |f| <= UINT32_MAX {
      ReturnsExactly(f, capacity, out);
      if Decoded(f, capacity).Some? {
        SpliceFront(out, Decoded(f, capacity).value);
      }
    } else {
      LongFrameNeverAccepted(f, Start(out), capacity, turns);
    }
  }

  /** For every frame on which the code returns, within any number of `turns`, and stays inside its buffers; on frames
      that 32-bit offsets can address that is when nothing overruns, as ReturnsExactly says. */
  method Decode(frame: Buffer, output: Buffer, ghost turns: nat) returns (err: ErrorCode)
    requires frame.Valid() && output.Valid()
    requires frame != output && (output.data == null || frame.data != output.data)
    requires Returns(frame.Contents(), Start(Bytes(output.data)), output.size, turns)
    modifies output, output.data
    ensures output.Valid() && output.data == old(output.data)
    ensures Turns(frame.Contents(), Start(old(Bytes(output.data))), old(output.size), turns)
         == if err == OK then Accepted(output.size, Bytes(output.data)) else Refused(Bytes(output.data))
    ensures frame.size <= UINT32_MAX ==>
              match Decoded(frame.Contents(), old(output.size))
              case Some(out) =>
                && err == OK && output.Contents() == out
                && Bytes(output.data)[|out|..] == old(Bytes(output.data))[|out|..]
              case None => err == ERR_FORMAT
    ensures frame.size > UINT32_MAX ==> err == ERR_FORMAT
    ensures err != OK ==>
              && err == ERR_FORMAT && output.size == old(output.size)
              && Bytes(output.data)[output.size..] == old(Bytes(output.data))[output.size..]
  {
    hide DecodeFrom, Overruns, Turns;
    HowItReturned(frame.Contents(), output.size, Bytes(output.data), turns);
    if frame.size == 0 {
      TurnTaken(frame.Contents(), Start(Bytes(output.data)), output.size, turns);
      output.size := 0;
      return OK;
    }
    assert frame.Contents() == frame.data[..frame.size];
    var ok, outputOffset := DecodeChunks(frame.data, frame.size, output.data, output.size, turns);
    if !ok {
      return ERR_FORMAT;
    }
    output.size := outputOffset;
    return OK;
  }
}
