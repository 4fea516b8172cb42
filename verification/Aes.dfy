/** Arithmetic in GF(2^8) as src/crypto/aes.cpp:53-63 does it. */
module Gf256 {

  predicate High(a: bv8) {
    a & 0x80 != 0
  }

  function Double(a: bv8): bv8 {
    a << 1
  }

  function Reduce(a: bv8): bv8 {
    a ^ 0x1b
  }

  /** The product with x, reduced by x^8 + x^4 + x^3 + x + 1. */
  function Xtime(a: bv8): bv8 {
    if High(a) then Reduce(Double(a)) else Double(a)
  }

  function Add(x: bv8, y: bv8): bv8 {
    x ^ y
  }

  /** `a` times the polynomial of the low `n` bits of `b`. */
  function Product(a: bv8, b: bv8, n: nat): bv8
    decreases n
  {
    if n == 0 then 0
    else if b & 1 == 1 then Add(a, Product(Xtime(a), b >> 1, n - 1))
    else Product(Xtime(a), b >> 1, n - 1)
  }

  function Times(a: bv8, b: bv8): bv8 {
    Product(a, b, 8)
  }

  // ---------------------------------------------------------------- linearity

  predicate IsSum(x: bv8, y: bv8, z: bv8) {
    z == x ^ y
  }

  lemma HighSum(x: bv8, y: bv8, z: bv8)
    requires IsSum(x, y, z)
    ensures High(z) == (High(x) != High(y))
  {
  }

  lemma DoubleSum(x: bv8, y: bv8, z: bv8)
    requires IsSum(x, y, z)
    ensures IsSum(Double(x), Double(y), Double(z))
  {
  }

  lemma ReduceSum(x: bv8, y: bv8, z: bv8)
    requires IsSum(x, y, z)
    ensures IsSum(Reduce(x), y, Reduce(z)) && IsSum(x, Reduce(y), Reduce(z)) && IsSum(Reduce(x), Reduce(y), z)
  {
    hide IsSum, Add, Reduce;
    SumIsAdd(x, y, z);
    AddIs(x, y);
    ReduceOfSum(x, y);
    ReduceIs(x);
    ReduceIs(y);
    SumIsAdd(Reduce(x), y, Reduce(z));
    SumIsAdd(x, Reduce(y), Reduce(z));
    SumIsAdd(Reduce(x), Reduce(y), z);
  }

  lemma ReduceIs(x: bv8)
    ensures Reduce(x) == x ^ 0x1b
  {
  }

  lemma ReduceOfSum(x: bv8, y: bv8)
    ensures Reduce(x ^ y) == Add(x ^ 0x1b, y) == Add(x, y ^ 0x1b) && Add(x ^ 0x1b, y ^ 0x1b) == x ^ y
  {
  }

  lemma XtimeLinear(x: bv8, y: bv8, z: bv8)
    requires IsSum(x, y, z)
    ensures IsSum(Xtime(x), Xtime(y), Xtime(z))
  {
    hide IsSum, High, Double, Reduce;
    HighSum(x, y, z);
    DoubleSum(x, y, z);
    ReduceSum(Double(x), Double(y), Double(z));
  }

  lemma SumIsAdd(x: bv8, y: bv8, z: bv8)
    ensures IsSum(x, y, z) <==> z == Add(x, y)
  {
  }

  lemma AddIs(x: bv8, y: bv8)
    ensures Add(x, y) == x ^ y
  {
  }

  lemma AddSwap(x: bv8, y: bv8, p: bv8, q: bv8)
    ensures Add(Add(x, y), Add(p, q)) == Add(Add(x, p), Add(y, q))
  {
    hide Add;
    AddIs(x, y);
    AddIs(p, q);
    AddIs(x, p);
    AddIs(y, q);
    AddSwapFlat(x, y, p, q);
  }

  lemma AddSwapFlat(x: bv8, y: bv8, p: bv8, q: bv8)
    ensures Add(x ^ y, p ^ q) == Add(x ^ p, y ^ q)
  {
  }

  lemma AddSums(x: bv8, y: bv8, z: bv8, p: bv8, q: bv8, r: bv8)
    requires IsSum(x, y, z) && IsSum(p, q, r)
    ensures IsSum(Add(x, p), Add(y, q), Add(z, r))
  {
    hide IsSum, Add;
    SumIsAdd(x, y, z);
    SumIsAdd(p, q, r);
    AddSwap(x, y, p, q);
    SumIsAdd(Add(x, p), Add(y, q), Add(z, r));
  }

  lemma ZeroSum()
    ensures IsSum(0, 0, 0)
  {
  }

  /** Multiplication by a constant is linear. */
  lemma {:induction false} ProductLinear(x: bv8, y: bv8, z: bv8, b: bv8, n: nat)
    requires IsSum(x, y, z)
    ensures IsSum(Product(x, b, n), Product(y, b, n), Product(z, b, n))
    decreases n
  {
    hide IsSum, Xtime, Add;
    if n == 0 {
      ZeroSum();
    } else {
      XtimeLinear(x, y, z);
      ProductLinear(Xtime(x), Xtime(y), Xtime(z), b >> 1, n - 1);
      AddSums(x, y, z, Product(Xtime(x), b >> 1, n - 1), Product(Xtime(y), b >> 1, n - 1),
              Product(Xtime(z), b >> 1, n - 1));
    }
  }

  lemma TimesLinear(x: bv8, y: bv8, b: bv8)
    ensures Times(Add(x, y), b) == Add(Times(x, b), Times(y, b))
  {
    hide Product;
    SumIsAdd(x, y, Add(x, y));
    ProductLinear(x, y, Add(x, y), b, 8);
    SumIsAdd(Times(x, b), Times(y, b), Times(Add(x, y), b));
  }

  // ---------------------------------------------------------------- the constants of MixColumns

  lemma TimesConstants(a: bv8)
    ensures var b := Xtime(a); var c := Xtime(b); var d := Xtime(c);
            && Times(a, 1) == a && Times(a, 2) == b && Times(a, 3) == Add(a, b)
            && Times(a, 9) == Add(a, d) && Times(a, 11) == Add(a, Add(b, d))
            && Times(a, 13) == Add(a, Add(c, d)) && Times(a, 14) == Add(b, Add(c, d))
  {
    hide Xtime;
    AddZero();
    var b := Xtime(a);
    var c := Xtime(b);
    var d := Xtime(c);
    var e := Xtime(d);
    ProductByZero(e, 4);
    assert Product(d, 1, 5) == d;
    assert Product(c, 2, 6) == d;
    assert Product(c, 3, 6) == Add(c, d);
    assert Product(b, 4, 7) == d;
    assert Product(b, 5, 7) == Add(b, d);
    assert Product(b, 6, 7) == Add(c, d);
    assert Product(b, 7, 7) == Add(b, Add(c, d));
  }

  lemma AddZero()
    ensures forall x :: Add(x, 0) == x
  {
  }

  lemma {:induction false} ProductByZero(a: bv8, n: nat)
    ensures Product(a, 0, n) == 0
    decreases n
  {
    hide Xtime;
    if n == 0 {
    } else {
      ProductByZero(Xtime(a), n - 1);
    }
  }

  // ---------------------------------------------------------------- one column

  function Add4(a: bv8, b: bv8, c: bv8, d: bv8): bv8 {
    a ^ b ^ c ^ d
  }

  lemma Add4Is(a: bv8, b: bv8, c: bv8, d: bv8)
    ensures Add4(a, b, c, d) == a ^ b ^ c ^ d
  {
  }

  lemma Add4Nested(a: bv8, b: bv8, c: bv8, d: bv8)
    ensures Add4(a, b, c, d) == Add(Add(Add(a, b), c), d)
  {
    hide Add, Add4;
    AddIs(a, b);
    Add4IsFlat(a, b, c, d);
  }

  lemma Add4IsFlat(a: bv8, b: bv8, c: bv8, d: bv8)
    ensures Add4(a, b, c, d) == Add(a ^ b ^ c, d) && Add(a ^ b, c) == a ^ b ^ c
  {
  }

  /** A byte of a mixed column. The other three bytes are the same function of the column rotated. */
  function Mix(a: bv8, b: bv8, c: bv8, d: bv8): bv8 {
    Add4(Times(a, 2), Times(b, 3), Times(c, 1), Times(d, 1))
  }

  function Unmix(a: bv8, b: bv8, c: bv8, d: bv8): bv8 {
    Add4(Times(a, 14), Times(b, 11), Times(c, 13), Times(d, 9))
  }

  lemma Times4(a: bv8, b: bv8, c: bv8, d: bv8, k: bv8)
    ensures Times(Add4(a, b, c, d), k) == Add4(Times(a, k), Times(b, k), Times(c, k), Times(d, k))
  {
    hide Times, Add, Add4;
    TimesLinear(Add(Add(a, b), c), d, k);
    TimesLinear(Add(a, b), c, k);
    TimesLinear(a, b, k);
    Add4Nested(a, b, c, d);
    Add4Nested(Times(a, k), Times(b, k), Times(c, k), Times(d, k));
  }

  lemma TimesFlat(a: bv8, b: bv8, c: bv8, d: bv8)
    requires b == Xtime(a) && c == Xtime(b) && d == Xtime(c)
    ensures Times(a, 1) == a && Times(a, 2) == b && Times(a, 3) == a ^ b
    ensures Times(a, 9) == a ^ d && Times(a, 11) == a ^ b ^ d
    ensures Times(a, 13) == a ^ c ^ d && Times(a, 14) == b ^ c ^ d
  {
    hide Times, Add, Xtime;
    TimesConstants(a);
    AddIs(a, b);
    AddIs(a, d);
    AddIs(b, d);
    AddIs(c, d);
    AddThree(a, b, d);
    AddThree(a, c, d);
    AddThree(b, c, d);
  }

  lemma AddThree(x: bv8, y: bv8, z: bv8)
    ensures Add(x, y ^ z) == x ^ y ^ z
  {
  }

  lemma XtimeOfSum(x: bv8, y: bv8)
    ensures Xtime(x ^ y) == Xtime(x) ^ Xtime(y)
  {
    hide Xtime, Add, IsSum;
    SumIsAdd(x, y, x ^ y);
    AddIs(x, y);
    XtimeLinear(x, y, x ^ y);
    SumIsAdd(Xtime(x), Xtime(y), Xtime(x ^ y));
    AddIs(Xtime(x), Xtime(y));
  }

  /** What Xtime does to the product with three. */
  lemma XtimeOfThree(a: bv8, b: bv8, c: bv8, d: bv8, e: bv8, s: bv8)
    requires s == a ^ b && b == Xtime(a) && c == Xtime(b) && d == Xtime(c) && e == Xtime(d)
    ensures Xtime(s) == b ^ c && Xtime(b ^ c) == c ^ d && Xtime(c ^ d) == d ^ e
  {
    hide Xtime;
    XtimeOfPair(a, b, b, c);
    XtimeOfPair(b, c, c, d);
    XtimeOfPair(c, d, d, e);
  }

  lemma XtimeOfPair(x: bv8, y: bv8, x': bv8, y': bv8)
    requires x' == Xtime(x) && y' == Xtime(y)
    ensures Xtime(x ^ y) == x' ^ y'
  {
    hide Xtime;
    XtimeOfSum(x, y);
  }

  lemma Three9(a: bv8, b: bv8, c: bv8, d: bv8, e: bv8, s: bv8)
    requires s == a ^ b && b == Xtime(a) && c == Xtime(b) && d == Xtime(c) && e == Xtime(d)
    ensures Times(s, 9) == a ^ b ^ d ^ e
  {
    hide Times, Add, Xtime;
    XtimeOfThree(a, b, c, d, e, s);
    TimesConstants(s);
    AddPairs(a, b, d, e);
  }

  lemma Three11(a: bv8, b: bv8, c: bv8, d: bv8, e: bv8, s: bv8)
    requires s == a ^ b && b == Xtime(a) && c == Xtime(b) && d == Xtime(c) && e == Xtime(d)
    ensures Times(s, 11) == a ^ c ^ d ^ e
  {
    hide Times, Add, Xtime;
    XtimeOfThree(a, b, c, d, e, s);
    TimesConstants(s);
    AddPairs(b, c, d, e);
    AddElevenFlat(a, b, c, d, e);
  }

  lemma Three13(a: bv8, b: bv8, c: bv8, d: bv8, e: bv8, s: bv8)
    requires s == a ^ b && b == Xtime(a) && c == Xtime(b) && d == Xtime(c) && e == Xtime(d)
    ensures Times(s, 13) == a ^ b ^ c ^ e
  {
    hide Times, Add, Xtime;
    XtimeOfThree(a, b, c, d, e, s);
    TimesConstants(s);
    AddShared(c, d, e);
    AddPairs(a, b, c, e);
  }

  lemma Three14(a: bv8, b: bv8, c: bv8, d: bv8, e: bv8, s: bv8)
    requires s == a ^ b && b == Xtime(a) && c == Xtime(b) && d == Xtime(c) && e == Xtime(d)
    ensures Times(s, 14) == b ^ e
  {
    hide Times, Add, Xtime;
    XtimeOfThree(a, b, c, d, e, s);
    TimesConstants(s);
    AddShared(c, d, e);
    AddShared(b, c, e);
  }

  lemma AddPairs(a: bv8, b: bv8, d: bv8, e: bv8)
    ensures Add(a ^ b, d ^ e) == a ^ b ^ d ^ e
  {
  }

  lemma AddShared(c: bv8, d: bv8, e: bv8)
    ensures Add(c ^ d, d ^ e) == c ^ e
  {
  }

  lemma AddElevenFlat(a: bv8, b: bv8, c: bv8, d: bv8, e: bv8)
    ensures Add(a ^ b, b ^ c ^ d ^ e) == a ^ c ^ d ^ e
  {
  }

  /** Products of constants: the inverse polynomial times the mixing polynomial is one, coefficient by coefficient. */
  lemma Coefficients(a: bv8)
    ensures Add4(Times(Times(a, 2), 14), Times(Times(a, 1), 11), Times(Times(a, 1), 13), Times(Times(a, 3), 9)) == a
    ensures Add4(Times(Times(a, 3), 14), Times(Times(a, 2), 11), Times(Times(a, 1), 13), Times(Times(a, 1), 9)) == 0
    ensures Add4(Times(Times(a, 1), 14), Times(Times(a, 3), 11), Times(Times(a, 2), 13), Times(Times(a, 1), 9)) == 0
    ensures Add4(Times(Times(a, 1), 14), Times(Times(a, 1), 11), Times(Times(a, 3), 13), Times(Times(a, 2), 9)) == 0
  {
    hide Times, Add, Xtime, Add4;
    var b := Xtime(a);
    var c := Xtime(b);
    var d := Xtime(c);
    var e := Xtime(d);
    TimesFlat(a, b, c, d);
    TimesFlat(b, c, d, e);
    var s := a ^ b;
    Three9(a, b, c, d, e, s);
    Three11(a, b, c, d, e, s);
    Three13(a, b, c, d, e, s);
    Three14(a, b, c, d, e, s);
    Cancel0(a, b, c, d, e);
    Cancel1(a, b, c, d, e);
    Cancel2(a, b, c, d, e);
    Cancel3(a, b, c, d, e);
  }

  lemma Cancel0(a: bv8, b: bv8, c: bv8, d: bv8, e: bv8)
    ensures Add4(c ^ d ^ e, a ^ b ^ d, a ^ c ^ d, a ^ b ^ d ^ e) == a
  {
  }

  lemma Cancel1(a: bv8, b: bv8, c: bv8, d: bv8, e: bv8)
    ensures Add4(b ^ e, b ^ c ^ e, a ^ c ^ d, a ^ d) == 0
  {
  }

  lemma Cancel2(a: bv8, b: bv8, c: bv8, d: bv8, e: bv8)
    ensures Add4(b ^ c ^ d, a ^ c ^ d ^ e, b ^ d ^ e, a ^ d) == 0
  {
  }

  lemma Cancel3(a: bv8, b: bv8, c: bv8, d: bv8, e: bv8)
    ensures Add4(b ^ c ^ d, a ^ b ^ d, a ^ b ^ c ^ e, b ^ e) == 0
  {
  }

  /** A four by four square of bytes has the same sum by rows and by columns. */
  lemma SquareSum(a0: bv8, a1: bv8, a2: bv8, a3: bv8, b0: bv8, b1: bv8, b2: bv8, b3: bv8,
                  c0: bv8, c1: bv8, c2: bv8, c3: bv8, d0: bv8, d1: bv8, d2: bv8, d3: bv8)
    ensures Add4(Add4(a0, b0, c0, d0), Add4(a1, b1, c1, d1), Add4(a2, b2, c2, d2), Add4(a3, b3, c3, d3))
         == Add4(Add4(a0, a1, a2, a3), Add4(b0, b1, b2, b3), Add4(c0, c1, c2, c3), Add4(d0, d1, d2, d3))
  {
    hide Add4;
    Add4Is(a0, b0, c0, d0);
    Add4Is(a1, b1, c1, d1);
    Add4Is(a2, b2, c2, d2);
    Add4Is(a3, b3, c3, d3);
    Add4Is(a0, a1, a2, a3);
    Add4Is(b0, b1, b2, b3);
    Add4Is(c0, c1, c2, c3);
    Add4Is(d0, d1, d2, d3);
    SquareSumFlat(a0, a1, a2, a3, b0, b1, b2, b3, c0, c1, c2, c3, d0, d1, d2, d3);
  }

  lemma SquareSumFlat(a0: bv8, a1: bv8, a2: bv8, a3: bv8, b0: bv8, b1: bv8, b2: bv8, b3: bv8,
                      c0: bv8, c1: bv8, c2: bv8, c3: bv8, d0: bv8, d1: bv8, d2: bv8, d3: bv8)
    ensures Add4(a0 ^ b0 ^ c0 ^ d0, a1 ^ b1 ^ c1 ^ d1, a2 ^ b2 ^ c2 ^ d2, a3 ^ b3 ^ c3 ^ d3)
         == Add4(a0 ^ a1 ^ a2 ^ a3, b0 ^ b1 ^ b2 ^ b3, c0 ^ c1 ^ c2 ^ c3, d0 ^ d1 ^ d2 ^ d3)
  {
  }

  /** InvMixColumns undoes MixColumns, one byte of a column at a time. */
  lemma UnmixMix(a: bv8, b: bv8, c: bv8, d: bv8)
    ensures Unmix(Mix(a, b, c, d), Mix(b, c, d, a), Mix(c, d, a, b), Mix(d, a, b, c)) == a
  {
    hide Times, Add4;
    var (a1, a2, a3) := (Times(a, 1), Times(a, 2), Times(a, 3));
    var (b1, b2, b3) := (Times(b, 1), Times(b, 2), Times(b, 3));
    var (c1, c2, c3) := (Times(c, 1), Times(c, 2), Times(c, 3));
    var (d1, d2, d3) := (Times(d, 1), Times(d, 2), Times(d, 3));
    Rotate(b2, c3, d1, a1);
    Rotate(c2, d3, a1, b1);
    Rotate(b1, c2, d3, a1);
    Rotate(d2, a3, b1, c1);
    Rotate(c1, d2, a3, b1);
    Rotate(b1, c1, d2, a3);
    Times4(a2, b3, c1, d1, 14);
    Times4(a1, b2, c3, d1, 11);
    Times4(a1, b1, c2, d3, 13);
    Times4(a3, b1, c1, d2, 9);
    SquareSum(Times(a2, 14), Times(a1, 11), Times(a1, 13), Times(a3, 9),
              Times(b3, 14), Times(b2, 11), Times(b1, 13), Times(b1, 9),
              Times(c1, 14), Times(c3, 11), Times(c2, 13), Times(c1, 9),
              Times(d1, 14), Times(d1, 11), Times(d3, 13), Times(d2, 9));
    Coefficients(a);
    Coefficients(b);
    Coefficients(c);
    Coefficients(d);
    AddZeros(a);
  }

  lemma Rotate(a: bv8, b: bv8, c: bv8, d: bv8)
    ensures Add4(a, b, c, d) == Add4(d, a, b, c)
  {
  }

  lemma AddZeros(a: bv8)
    ensures Add4(a, 0, 0, 0) == a
  {
  }

  // ---------------------------------------------------------------- multiplication is that of a commutative ring

  lemma {:induction false} ProductOfXtime(a: bv8, b: bv8, n: nat)
    ensures Product(Xtime(a), b, n) == Xtime(Product(a, b, n))
    decreases n
  {
    hide Xtime, Add;
    if n == 0 {
      XtimeOfZero();
    } else {
      var rest := Product(Xtime(a), b >> 1, n - 1);
      ProductOfXtime(Xtime(a), b >> 1, n - 1);
      XtimeOfAdd(a, rest);
    }
  }

  lemma XtimeOfZero()
    ensures Xtime(0) == 0
  {
  }

  lemma XtimeOfAdd(x: bv8, y: bv8)
    ensures Xtime(Add(x, y)) == Add(Xtime(x), Xtime(y))
  {
    hide Xtime;
    XtimeOfSum(x, y);
  }

  /** Multiplying by `k` and by `l` may be done in either order. */
  lemma TimesSwap(a: bv8, k: bv8, l: bv8)
    ensures Times(Times(a, k), l) == Times(Times(a, l), k)
  {
    hide Product;
    ProductSwap(a, k, l, 8);
  }

  lemma {:induction false} ProductSwap(a: bv8, k: bv8, l: bv8, n: nat)
    ensures Times(Product(a, k, n), l) == Product(Times(a, l), k, n)
    decreases n
  {
    hide Xtime, Add, Times;
    if n == 0 {
      TimesOfZero(l);
    } else {
      var rest := Product(Xtime(a), k >> 1, n - 1);
      ProductSwap(Xtime(a), k >> 1, l, n - 1);
      TimesOfXtime(a, l);
      TimesLinear(a, rest, l);
    }
  }

  lemma TimesOfXtime(a: bv8, b: bv8)
    ensures Times(Xtime(a), b) == Xtime(Times(a, b))
  {
    hide Product, Xtime;
    ProductOfXtime(a, b, 8);
  }

  lemma TimesOfZero(b: bv8)
    ensures Times(0, b) == 0
  {
    hide Product;
    ProductOfZero(b, 8);
  }

  lemma {:induction false} ProductOfZero(b: bv8, n: nat)
    ensures Product(0, b, n) == 0
    decreases n
  {
    hide Xtime;
    if n == 0 {
    } else {
      XtimeOfZero();
      ProductOfZero(b >> 1, n - 1);
      AddZero();
    }
  }

  lemma Power7(b: bv8)
    ensures Product(0x80, b, 1) == (b & 1) << 7
  {
  }

  lemma Power6(b: bv8)
    ensures Product(0x40, b, 2) == (b & 3) << 6
  {
    Power7(b >> 1);
    assert Xtime(0x40) == 0x80;
  }

  lemma Power5(b: bv8)
    ensures Product(0x20, b, 3) == (b & 7) << 5
  {
    Power6(b >> 1);
    assert Xtime(0x20) == 0x40;
  }

  lemma Power4(b: bv8)
    ensures Product(0x10, b, 4) == (b & 15) << 4
  {
    Power5(b >> 1);
    assert Xtime(0x10) == 0x20;
  }

  lemma Power3(b: bv8)
    ensures Product(0x08, b, 5) == (b & 31) << 3
  {
    Power4(b >> 1);
    assert Xtime(0x08) == 0x10;
  }

  lemma Power2(b: bv8)
    ensures Product(0x04, b, 6) == (b & 63) << 2
  {
    Power3(b >> 1);
    assert Xtime(0x04) == 0x08;
  }

  lemma Power1(b: bv8)
    ensures Product(0x02, b, 7) == (b & 127) << 1
  {
    Power2(b >> 1);
    assert Xtime(0x02) == 0x04;
  }

  lemma TimesOne(b: bv8)
    ensures Times(1, b) == b
  {
    Power1(b >> 1);
    assert Xtime(0x01) == 0x02;
  }

  lemma TimesCommutes(a: bv8, b: bv8)
    ensures Times(a, b) == Times(b, a)
  {
    hide Times;
    TimesOne(a);
    TimesOne(b);
    TimesSwap(1, a, b);
  }

  lemma TimesAssociates(a: bv8, b: bv8, c: bv8)
    ensures Times(Times(a, b), c) == Times(a, Times(b, c))
  {
    hide Times;
    TimesCommutes(a, b);
    TimesSwap(b, a, c);
    TimesCommutes(Times(b, c), a);
  }

  /** MixColumns undoes InvMixColumns as well. */
  lemma MixUnmix(a: bv8, b: bv8, c: bv8, d: bv8)
    ensures Mix(Unmix(a, b, c, d), Unmix(b, c, d, a), Unmix(c, d, a, b), Unmix(d, a, b, c)) == a
  {
    hide Times, Add4;
    var (a9, a11, a13, a14) := (Times(a, 9), Times(a, 11), Times(a, 13), Times(a, 14));
    var (b9, b11, b13, b14) := (Times(b, 9), Times(b, 11), Times(b, 13), Times(b, 14));
    var (c9, c11, c13, c14) := (Times(c, 9), Times(c, 11), Times(c, 13), Times(c, 14));
    var (d9, d11, d13, d14) := (Times(d, 9), Times(d, 11), Times(d, 13), Times(d, 14));
    Rotate(b14, c11, d13, a9);
    Rotate(c14, d11, a13, b9);
    Rotate(b9, c14, d11, a13);
    Rotate(d14, a11, b13, c9);
    Rotate(c9, d14, a11, b13);
    Rotate(b13, c9, d14, a11);
    Times4(a14, b11, c13, d9, 2);
    Times4(a9, b14, c11, d13, 3);
    Times4(a13, b9, c14, d11, 1);
    Times4(a11, b13, c9, d14, 1);
    SquareSum(Times(a14, 2), Times(a9, 3), Times(a13, 1), Times(a11, 1),
              Times(b11, 2), Times(b14, 3), Times(b9, 1), Times(b13, 1),
              Times(c13, 2), Times(c11, 3), Times(c14, 1), Times(c9, 1),
              Times(d9, 2), Times(d13, 3), Times(d11, 1), Times(d14, 1));
    ReverseCoefficients(a);
    ReverseCoefficients(b);
    ReverseCoefficients(c);
    ReverseCoefficients(d);
    AddZeros(a);
  }

  lemma ReverseCoefficients(a: bv8)
    ensures Add4(Times(Times(a, 14), 2), Times(Times(a, 9), 3), Times(Times(a, 13), 1), Times(Times(a, 11), 1)) == a
    ensures Add4(Times(Times(a, 11), 2), Times(Times(a, 14), 3), Times(Times(a, 9), 1), Times(Times(a, 13), 1)) == 0
    ensures Add4(Times(Times(a, 13), 2), Times(Times(a, 11), 3), Times(Times(a, 14), 1), Times(Times(a, 9), 1)) == 0
    ensures Add4(Times(Times(a, 9), 2), Times(Times(a, 13), 3), Times(Times(a, 11), 1), Times(Times(a, 14), 1)) == 0
  {
    hide Times, Add4;
    Coefficients(a);
    TimesSwap(a, 14, 2);
    TimesSwap(a, 14, 3);
    TimesSwap(a, 14, 1);
    TimesSwap(a, 11, 1);
    TimesSwap(a, 11, 2);
    TimesSwap(a, 11, 3);
    TimesSwap(a, 13, 1);
    TimesSwap(a, 13, 2);
    TimesSwap(a, 13, 3);
    TimesSwap(a, 9, 1);
    TimesSwap(a, 9, 2);
    TimesSwap(a, 9, 3);
    Reorder(Times(Times(a, 14), 2), Times(Times(a, 9), 3), Times(Times(a, 13), 1), Times(Times(a, 11), 1));
    Reorder(Times(Times(a, 11), 2), Times(Times(a, 14), 3), Times(Times(a, 9), 1), Times(Times(a, 13), 1));
    Reorder(Times(Times(a, 13), 2), Times(Times(a, 11), 3), Times(Times(a, 14), 1), Times(Times(a, 9), 1));
    Reorder(Times(Times(a, 9), 2), Times(Times(a, 13), 3), Times(Times(a, 11), 1), Times(Times(a, 14), 1));
  }

  /** Enough permutations of a sum for the lemma above. */
  lemma Reorder(p: bv8, q: bv8, r: bv8, s: bv8)
    ensures Add4(p, q, r, s) == Add4(p, s, r, q) == Add4(q, p, s, r) == Add4(r, q, p, s) == Add4(s, r, q, p)
  {
  }
}
