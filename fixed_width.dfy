/** The fixed-width two's-complement value `Int` of sim/mFU_checker.py: a bit
    pattern tagged with its width, checked at construction, read back as a
    signed number, split into halves, and combined by width-growing
    multiplication and addition. */
module FixedWidth {
  import opened Powers
  import opened Outcomes

  /** The exceptions `Int` raises. The source raises `ValueError` in all three
      cases; the model keeps the reasons apart. */
  datatype Error = WidthTooSmall | OutOfRange | WidthMismatch

  datatype Bits = Bits(raw: nat, width: nat)

  /** Every `Int` the source can hold: the stored pattern fits its width and the
      width is at least 2, which is all that construction lets through. */
  type Int = x: Bits | 2 <= x.width && x.raw < Pow2(x.width) witness Bits(0, 2)

  /** `Int(value, width)`: rejects a width below 2 and a value outside
      [-2^(width-1), 2^width), and otherwise stores `value & (2^width - 1)`,
      the two's-complement pattern of `value`. */
  function Make(value: int, width: int): (r: Result<Int, Error>)
    ensures r.Success? <==> 2 <= width && -Pow2(width - 1) <= value < Pow2(width)
    ensures width <= 1 ==> r == Failure(WidthTooSmall)
    ensures 2 <= width && !r.Success? ==> r == Failure(OutOfRange)
    ensures r.Success? ==> r.value.width == width
    ensures r.Success? && 0 <= value ==> r.value.raw == value
    ensures r.Success? && value < 0 ==> r.value.raw == value + Pow2(width)
  {
    if width <= 1 then Failure(WidthTooSmall)
    else if value >= Pow2(width) || value < -Pow2(width - 1) then Failure(OutOfRange)
    else
      var m := Pow2(width);
      if value < 0 then
        DivModUnique(value, m, -1, value + m);
        Success(Bits(value % m, width))
      else
        DivModUnique(value, m, 0, value);
        Success(Bits(value % m, width))
  }

  /** Bit `k` of `n`, the test `n & (1 << k)`. */
  predicate Bit(n: nat, k: nat) {
    (n / Pow2(k)) % 2 == 1
  }

  /** The top bit of a `w`-bit pattern is set exactly in the upper half of its range. */
  lemma TopBit(n: nat, w: nat)
    requires 1 <= w && n < Pow2(w)
    ensures Bit(n, w - 1) <==> Pow2(w - 1) <= n
  {
    var h := Pow2(w - 1);
    if n < h {
      DivModUnique(n, h, 0, n);
    } else {
      DivModUnique(n, h, 1, n - h);
    }
  }

  /** `signed()`: the stored pattern read as two's complement, which is the one
      value in the signed range of the width that agrees with the pattern
      modulo 2^width. The source tests bit `width - 1`; for a pattern below
      2^width that bit is set exactly when the pattern is at least
      2^(width-1) (SignedTestsTopBit). */
  function Signed(x: Int): (s: int)
    ensures -Pow2(x.width - 1) <= s < Pow2(x.width - 1)
    ensures s == x.raw || s == x.raw - Pow2(x.width)
  {
    if Pow2(x.width - 1) <= x.raw then x.raw - Pow2(x.width) else x.raw
  }

  /** `signed()` subtracts 2^width exactly when the source's bit test fires. */
  lemma SignedTestsTopBit(x: Int)
    ensures Signed(x) == if Bit(x.raw, x.width - 1) then x.raw - Pow2(x.width) else x.raw
  {
    TopBit(x.raw, x.width);
  }

  /** Construction followed by `signed()` gives back every value of the signed range. */
  lemma SignedOfMake(v: int, w: int)
    requires 2 <= w && -Pow2(w - 1) <= v < Pow2(w - 1)
    ensures Make(v, w).Success? && Signed(Make(v, w).value) == v
  {
  }

  /** A signed value of at most w bits fits the signed range of w bits. */
  lemma SignedNarrow(x: Int, w: nat)
    requires x.width <= w
    ensures -Pow2(w - 1) <= Signed(x) < Pow2(w - 1)
  {
    Pow2Monotone(x.width - 1, w - 1);
  }

  /** A value in the upper half of the accepted range is stored, but reads back
      as that value minus 2^w. */
  lemma SignedOfMakeUpper(v: int, w: int)
    requires 2 <= w && Pow2(w - 1) <= v < Pow2(w)
    ensures Make(v, w).Success? && Signed(Make(v, w).value) == v - Pow2(w)
  {
  }

  /** Rebuilding an `Int` from its signed value gives the same `Int`. */
  lemma MakeOfSigned(x: Int)
    ensures Make(Signed(x), x.width) == Success(x)
  {
  }

  /** `hi`: the pattern shifted right by `width // 2`, rebuilt at width `width // 2`. */
  function Hi(x: Int): (r: Result<Int, Error>)
    ensures x.width <= 3 ==> r == Failure(WidthTooSmall)
    ensures r.Success? <==> 4 <= x.width && (x.width % 2 == 0 || x.raw < Pow2(x.width - 1))
    ensures r.Success? ==> r.value.width == x.width / 2 && r.value.raw == x.raw / Pow2(x.width / 2)
  {
    var h := x.width / 2;
    var v := x.raw / Pow2(h);
    UpperHalfFits(x.raw, x.width);
    assert 0 <= v && (2 <= h <==> 4 <= x.width);
    Make(v, h)
  }

  /** The upper half of a w-bit pattern fits in w/2 bits unless w is odd and
      the pattern's top bit is set. */
  lemma UpperHalfFits(raw: nat, w: nat)
    requires raw < Pow2(w)
    ensures raw / Pow2(w / 2) < Pow2(w / 2) <==> w % 2 == 0 || raw < Pow2(w - 1)
  {
    var h := w / 2;
    Pow2Add(h, h);
    DivLess(raw, Pow2(h), Pow2(h));
    if w % 2 == 1 {
      assert h + h == w - 1;
    } else {
      assert h + h == w;
    }
  }

  /** `lo`: the pattern masked to its low `width // 2` bits, at width `width // 2`. */
  function Lo(x: Int): (r: Result<Int, Error>)
    ensures x.width <= 3 ==> r == Failure(WidthTooSmall)
    ensures 4 <= x.width ==> r.Success?
    ensures r.Success? ==> r.value.width == x.width / 2 && r.value.raw == x.raw % Pow2(x.width / 2)
  {
    var h := x.width / 2;
    Make(x.raw % Pow2(h), h)
  }

  /** `n / d < m` says the same as `n < m * d`. */
  lemma DivLess(n: nat, d: nat, m: nat)
    requires 0 < d
    ensures n / d < m <==> n < m * d
  {
    var q := n / d;
    if q < m {
      MulMonotone(q + 1, d, m, d);
    } else {
      MulMonotone(m, d, q, d);
    }
  }

  /** An even-width value splits into two half-width values whose patterns
      concatenate back to the original. */
  lemma SplitJoin(x: Int)
    requires 4 <= x.width && x.width % 2 == 0
    ensures Hi(x).Success? && Lo(x).Success?
    ensures Hi(x).value.width == x.width / 2 && Lo(x).value.width == x.width / 2
    ensures Hi(x).value.raw * Pow2(x.width / 2) + Lo(x).value.raw == x.raw
  {
  }

  /** The upper half carries the sign: the signed value of an even-width
      value is its signed upper half scaled by 2^(width/2) plus the unsigned
      lower half. */
  lemma SplitSigned(x: Int)
    requires 4 <= x.width && x.width % 2 == 0
    ensures Hi(x).Success? && Lo(x).Success?
    ensures Signed(x) == Signed(Hi(x).value) * Pow2(x.width / 2) + Lo(x).value.raw
  {
    var h := x.width / 2;
    var hi, lo := Hi(x).value, Lo(x).value;
    var p, t := Pow2(h), Pow2(h - 1);
    SplitJoin(x);
    Pow2Add(h, h);
    Pow2Add(h - 1, h);
    assert h - 1 + h == x.width - 1;
    DivLess(x.raw, p, t);
    assert Pow2(x.width - 1) <= x.raw <==> t <= hi.raw;
    var sx, sh := Signed(x), Signed(hi);
    assert sx == if t * p <= x.raw then x.raw - p * p else x.raw;
    assert sh == if t <= hi.raw then hi.raw - p else hi.raw;
    SplitArith(x.raw, hi.raw, lo.raw, p, t, sx, sh);
  }

  /** The arithmetic behind SplitSigned, over plain integers. */
  lemma SplitArith(n: int, q: int, r: int, p: int, t: int, sn: int, sq: int)
    requires n == q * p + r
    requires t * p <= n <==> t <= q
    requires sn == if t * p <= n then n - p * p else n
    requires sq == if t <= q then q - p else q
    ensures sn == sq * p + r
  {
    assert (q - p) * p == q * p - p * p;
  }

  /** Two factors in [-h, h] have a product in [-h*h, h*h]. */
  lemma ProductBound(x: int, y: int, h: int)
    requires 0 < h && -h <= x <= h && -h <= y <= h
    ensures -(h * h) <= x * y <= h * h
  {
    if 0 <= x && 0 <= y {
      MulMonotone(x, y, h, h);
    } else if x < 0 && y < 0 {
      MulMonotone(-x, -y, h, h);
      assert x * y == (-x) * (-y);
    } else if x < 0 {
      MulMonotone(-x, y, h, h);
      assert x * y == -((-x) * y);
    } else {
      MulMonotone(x, -y, h, h);
      assert x * y == -(x * (-y));
    }
  }

  /** Both factors lie in the signed range of width w, so the product fits the
      signed range of width 2w. */
  lemma ProductFits(x: int, y: int, w: nat)
    requires 1 <= w && -Pow2(w - 1) <= x < Pow2(w - 1) && -Pow2(w - 1) <= y < Pow2(w - 1)
    ensures -Pow2(2 * w - 1) <= x * y < Pow2(2 * w - 1)
  {
    var h := Pow2(w - 1);
    var p, hh := x * y, h * h;
    ProductBound(x, y, h);
    Pow2Add(w - 1, w - 1);
    var k: nat := 2 * w - 2;
    assert Pow2(k) == hh;
    assert Pow2(k + 1) == 2 * hh;
    assert 2 * w - 1 == k + 1;
  }

  /** `a * b`: defined only for equal widths; the product of the signed values
      at twice the width, which always fits, so it is exact. */
  function Mul(a: Int, b: Int): (r: Result<Int, Error>)
    ensures r.Success? <==> a.width == b.width
    ensures a.width != b.width ==> r == Failure(WidthMismatch)
    ensures r.Success? ==> r.value.width == 2 * a.width && Signed(r.value) == Signed(a) * Signed(b)
  {
    if a.width != b.width then Failure(WidthMismatch)
    else
      var p := Signed(a) * Signed(b);
      ProductFits(Signed(a), Signed(b), a.width);
      SignedOfMake(p, 2 * a.width);
      Make(p, 2 * a.width)
  }

  /** `a + b`: defined only for equal widths; the sum of the signed values at
      one more bit of width, which always fits, so it is exact. */
  function Add(a: Int, b: Int): (r: Result<Int, Error>)
    ensures r.Success? <==> a.width == b.width
    ensures a.width != b.width ==> r == Failure(WidthMismatch)
    ensures r.Success? ==> r.value.width == a.width + 1 && Signed(r.value) == Signed(a) + Signed(b)
  {
    if a.width != b.width then Failure(WidthMismatch)
    else
      var s := Signed(a) + Signed(b);
      SignedOfMake(s, a.width + 1);
      Make(s, a.width + 1)
  }
}
