/** Shared vocabulary: error codes, caller-owned buffers and raw copies. */
module Core {

  /** include/federated/core/error.h */
  datatype ErrorCode =
    | OK
    | ERR_IO
    | ERR_FORMAT
    | ERR_TIMEOUT
    | ERR_CRYPTO
    | ERR_UNSUPPORTED
    | ERR_AUTH
    | ERR_INTERNAL
    | ERR_INVALID_ARG
    | ERR_OUT_OF_MEMORY
    | ERR_NOT_FOUND
    | ERR_NOT_INITIALIZED

  datatype Option<+T> = None | Some(value: T)

  const UINT32_MAX: nat := 0xFFFF_FFFF
  const SIZE_LIMIT: nat := 0x1_0000_0000_0000_0000

  /** The value of a sum or product in 32 bits. */
  function Wrap32(n: nat): (r: nat)
    ensures r <= UINT32_MAX
    ensures n <= UINT32_MAX ==> r == n
  {
    n % 0x1_0000_0000
  }

  function Zeros(n: nat): (z: seq<bool>)
    ensures |z| == n && forall i :: 0 <= i < n ==> !z[i]
  {
    seq(n, i => false)
  }

  /** A memory buffer that its caller owns. On input `size` is the capacity, on output the bytes in use. */
  class Buffer {
    var data: array?<bv8>
    var size: nat

    constructor (data: array?<bv8>, size: nat)
      ensures this.data == data && this.size == size
    {
      this.data, this.size := data, size;
    }

    ghost predicate Valid()
      reads this
    {
      && size < SIZE_LIMIT
      && (data == null ==> size == 0)
      && (data != null ==> size <= data.Length)
    }

    ghost function Contents(): (s: seq<bv8>)
      requires Valid()
      reads this, data
      ensures |s| == size
    {
      if data == null then [] else data[..size]
    }
  }

  /** All bytes behind a pointer, the empty sequence behind a null one. */
  ghost function Bytes(a: array?<bv8>): seq<bv8>
    reads a
  {
    if a == null then [] else a[..]
  }

  /** `s` with `t` written over it at offset `off`. */
  function Splice<T>(s: seq<T>, off: nat, t: seq<T>): (r: seq<T>)
    requires off + |t| <= |s|
    ensures |r| == |s|
  {
    s[..off] + t + s[off + |t|..]
  }

  lemma SliceOfSlice<T>(s: seq<T>, a: nat, b: nat, c: nat, d: nat)
    requires a <= b <= |s| && c <= d <= b - a
    ensures s[a..b][c..d] == s[a + c..a + d]
  {
    var (part, whole) := (s[a..b][c..d], s[a + c..a + d]);
    forall i | 0 <= i < d - c
      ensures part[i] == whole[i]
    {
      assert part[i] == s[a..b][c + i] == s[a + (c + i)];
      assert whole[i] == s[a + c + i];
    }
  }

  /** Two pieces written one behind the other. */
  lemma SpliceThen<T>(s: seq<T>, off: nat, a: seq<T>, b: seq<T>)
    requires off + |a| + |b| <= |s|
    ensures Splice(Splice(s, off, a), off + |a|, b) == Splice(s, off, a + b)
  {
  }

  lemma SpliceNothing<T>(s: seq<T>, off: nat)
    requires off <= |s|
    ensures Splice(s, off, []) == s
  {
  }

  /** One element written behind a piece. */
  lemma SpliceNext<T>(s: seq<T>, off: nat, t: seq<T>, x: T)
    requires off + |t| < |s|
    ensures Splice(s, off, t)[off + |t| := x] == Splice(s, off, t + [x])
  {
  }

  lemma SpliceFront<T>(s: seq<T>, t: seq<T>)
    requires |t| <= |s|
    ensures Splice(s, 0, t)[..|t|] == t && Splice(s, 0, t)[|t|..] == s[|t|..]
  {
  }

  method Memcpy(dst: array?<bv8>, dstOff: nat, src: array?<bv8>, srcOff: nat, n: nat)
    requires dst == null || dst != src
    requires dst == null ==> n == 0
    requires dst != null ==> dstOff + n <= dst.Length
    requires src == null ==> n == 0
    requires src != null ==> srcOff + n <= src.Length
    modifies dst
    ensures dst != null ==>
              dst[..] == Splice(old(dst[..]), dstOff, if src == null then [] else old(src[srcOff..srcOff + n]))
  {
    if n > 0 {
      forall i | 0 <= i < n {
        dst[dstOff + i] := src[srcOff + i];
      }
    }
  }

  lemma {:induction false} TimesMore(a: nat, b: nat, m: nat)
    requires a < b
    ensures a * m + m <= b * m
    decreases b
  {
    assert b * m == (b - 1) * m + m;
    if a == b - 1 {
    } else {
      TimesMore(a, b - 1, m);
    }
  }

  lemma QuotientIs(n: nat, m: nat, q: nat, r: nat)
    requires r < m && n == q * m + r
    ensures n / m == q
  {
    var k := n / m;
    assert n == k * m + n % m;
    if k < q {
      TimesMore(k, q, m);
      assert false;
    } else if k > q {
      TimesMore(q, k, m);
      assert false;
    }
  }

  lemma Distribute(b: nat, a: nat, q: nat, m: nat, t: nat)
    requires b == q * m + t
    ensures b * a == q * (a * m) + a * t
  {
    assert b * a == (q * m) * a + t * a;
    assert (q * m) * a == q * (a * m);
  }

  lemma DivideOnce(n: nat, m: nat) returns (q: nat, r: nat)
    requires m > 0
    ensures q == n / m && n == q * m + r && r < m
  {
    q, r := n / m, n % m;
  }

  lemma DivideTwice(n: nat, a: nat, m: nat)
    requires a > 0 && m > 0
    ensures a * m > 0 && n / a / m == n / (a * m)
  {
    var b, s := DivideOnce(n, a);
    var q, t := DivideOnce(b, m);
    Distribute(b, a, q, m, t);
    Within(a, m, s, t);
    QuotientIs(n, a * m, q, a * t + s);
  }

  lemma Within(a: nat, m: nat, s: nat, t: nat)
    requires s < a && t < m
    ensures a * t + s < a * m
  {
    TimesMore(t, m, a);
    assert t * a == a * t && m * a == a * m;
  }

  /** Bytes as numbers and back. */
  function ByteOf(n: nat): bv8
    requires n < 0x100
  {
    n as bv8
  }

  function Value(b: bv8): (n: nat)
    ensures n < 0x100
  {
    b as int
  }

  lemma ByteOfValue(b: bv8)
    ensures ByteOf(Value(b)) == b
  {
  }

  lemma ValueOfByte(n: nat)
    requires n < 0x100
    ensures Value(ByteOf(n)) == n
  {
    assert n % 0x100 == n;
  }

  lemma ValueInjective(b: bv8, c: bv8)
    requires Value(b) == Value(c)
    ensures b == c
  {
    ByteOfValue(b);
    ByteOfValue(c);
  }
}
