/** `mFU` of sim/mFU_checker.py: the golden model of the multiply unit, which
    reads its two 8-bit operands as one 8-bit lane (mode 0), two 4-bit lanes
    (mode 1) or four 2-bit lanes (mode 2), multiplies matching lanes only, and
    returns the sum in a 16-bit container. */
module MultiplyUnit {
  import opened Powers
  import opened Outcomes
  import opened FixedWidth

  /** `mFU(a, b, mode)`, without the debug printing: the branch for modes 0, 1
      and 2; any other mode falls through every `if` and returns `None`. */
  function MFU(a: Int, b: Int, mode: int): (r: Result<Option<Int>, Error>)
    ensures mode != 0 && mode != 1 && mode != 2 ==> r == Success(None)
    ensures 0 <= mode <= 2 && r.Success? ==> r.value.Some? && r.value.value.width == 16
    ensures mode == 0 && a.width != b.width ==> r == Failure(WidthMismatch)
    ensures 1 <= mode <= 2 && a.width <= 3 ==> r == Failure(WidthTooSmall)
    ensures mode == 2 && a.width < 8 ==> r.Failure?
  {
    if mode == 0 then
      var out :- FullProduct(a, b);
      Success(Some(out))
    else if mode == 1 then
      var out :- NibbleSum(a, b);
      Success(Some(out))
    else if mode == 2 then
      var out :- QuarterSum(a, b);
      Success(Some(out))
    else
      Success(None)
  }

  /** Mode 0: `a*b`, then its signed value rebuilt at width 16. */
  function FullProduct(a: Int, b: Int): (r: Result<Int, Error>)
    ensures a.width != b.width ==> r == Failure(WidthMismatch)
    ensures r.Success? ==> r.value.width == 16
  {
    var p :- Mul(a, b);
    Make(Signed(p), 16)
  }

  /** `x.hi*y.hi + x.lo*y.lo`, the sum of the products of matching halves,
      at its natural width. Each step that can raise is a `:-`, in the
      source's order. Once `x.hi`, `y.hi` and their product are defined, so
      are `x.lo`, `y.lo`, their product and the sum (the halves of
      equal-width operands have equal widths), and those steps take
      `.value`. */
  function MatchedSum(x: Int, y: Int): (r: Result<Int, Error>)
    ensures x.width <= 3 ==> r == Failure(WidthTooSmall)
    ensures r.Success? <==> Hi(x).Success? && Hi(y).Success? && x.width / 2 == y.width / 2
    ensures r.Success? ==> r.value.width == 2 * (x.width / 2) + 1
    ensures r.Success? ==> Signed(r.value) == Signed(Hi(x).value) * Signed(Hi(y).value)
                                            + Signed(Lo(x).value) * Signed(Lo(y).value)
  {
    var xh :- Hi(x);
    var yh :- Hi(y);
    var p1 :- Mul(xh, yh);
    var xl, yl := Lo(x).value, Lo(y).value;
    var p3 := Mul(xl, yl).value;
    Success(Add(p1, p3).value)
  }

  /** Mode 1: `a.hi*b.hi + a.lo*b.lo`, rebuilt at width 16. */
  function NibbleSum(a: Int, b: Int): (r: Result<Int, Error>)
    ensures a.width <= 3 ==> r == Failure(WidthTooSmall)
    ensures r.Success? ==> r.value.width == 16
  {
    var s :- MatchedSum(a, b);
    Make(Signed(s), 16)
  }

  /** Mode 2: `(a.hi.hi*b.hi.hi + a.hi.lo*b.hi.lo) + (a.lo.hi*b.lo.hi +
      a.lo.lo*b.lo.lo)`, that is the matched sums of the upper halves and of
      the lower halves, added and rebuilt at width 16. The source takes
      `a.hi.hi` before it looks at `b`, so that half is checked first; the
      matched sum then takes it again, which cannot fail. `a.lo` and `b.lo`
      exist once `a.hi` and `b.hi` do; their own halves may still fail, so
      their matched sum is a `:-`. */
  function QuarterSum(a: Int, b: Int): (r: Result<Int, Error>)
    ensures a.width <= 3 ==> r == Failure(WidthTooSmall)
    ensures a.width < 8 ==> r.Failure?
    ensures Hi(a).Success? && Hi(Hi(a).value).Failure? ==> r == Failure(Hi(Hi(a).value).error)
    ensures r.Success? ==> r.value.width == 16
  {
    var ah :- Hi(a);
    var ahh :- Hi(ah);
    var bh :- Hi(b);
    var s1 :- MatchedSum(ah, bh);
    var al, bl := Lo(a).value, Lo(b).value;
    var s3 :- MatchedSum(al, bl);
    assert al.width == ah.width && bl.width == bh.width;
    Make(Signed(Add(s1, s3).value), 16)
  }

  /** Mode 0 on operands of any equal width: the product is accepted into the
      16-bit container when it lies in [-2^15, 2^16), and read back minus 2^16
      from 2^15 on. */
  lemma FullProductWraps(a: Int, b: Int)
    requires a.width == b.width
    ensures FullProduct(a, b).Success? <==> -Pow2(15) <= Signed(a) * Signed(b) < Pow2(16)
    ensures var r := FullProduct(a, b);
            r.Success? && Signed(a) * Signed(b) < Pow2(15) ==> Signed(r.value) == Signed(a) * Signed(b)
    ensures var r := FullProduct(a, b);
            r.Success? && Pow2(15) <= Signed(a) * Signed(b) ==> Signed(r.value) == Signed(a) * Signed(b) - Pow2(16)
  {
    var v := Signed(Mul(a, b).value);
    assert FullProduct(a, b) == Make(v, 16);
    if -Pow2(15) <= v < Pow2(15) {
      SignedOfMake(v, 16);
    } else if Pow2(15) <= v < Pow2(16) {
      SignedOfMakeUpper(v, 16);
    }
  }

  /** The signed value of the `len`-bit field of `x` that starts at bit
      `offset`: one lane of a packed operand, read directly from the pattern. */
  function Lane(x: Int, offset: nat, len: nat): int
    requires 1 <= len
  {
    var f := (x.raw / Pow2(offset)) % Pow2(len);
    if f < Pow2(len - 1) then f else f - Pow2(len)
  }

  /** The sum over the first `count` lanes of width `len` of the products of
      the matching lanes of `a` and `b`. */
  function LaneDot(a: Int, b: Int, len: nat, count: nat): int
    requires 1 <= len
  {
    if count == 0 then 0
    else LaneDot(a, b, len, count - 1) + Lane(a, (count - 1) * len, len) * Lane(b, (count - 1) * len, len)
  }

  /** The lane width each mode reads its operands with. */
  function LaneWidth(mode: int): nat
    requires 0 <= mode <= 2
  {
    if mode == 0 then 8 else if mode == 1 then 4 else 2
  }

  /** A half or quarter taken by `hi`/`lo` reads as the lane at the same bits. */
  lemma SignedIsLane(y: Int, x: Int, offset: nat, len: nat)
    requires 1 <= len && y.width == len && y.raw == (x.raw / Pow2(offset)) % Pow2(len)
    ensures Signed(y) == Lane(x, offset, len)
  {
  }

  /** Mode 0 on 8-bit operands is the full signed product. */
  lemma Mode0Product(a: Int, b: Int)
    requires a.width == 8 && b.width == 8
    ensures MFU(a, b, 0).Success? && MFU(a, b, 0).value.Some?
    ensures Signed(MFU(a, b, 0).value.value) == Signed(a) * Signed(b)
  {
    var v := Signed(Mul(a, b).value);
    assert FullProduct(a, b) == Make(v, 16);
    SignedOfMake(v, 16);
  }

  /** The two nibbles of an 8-bit value, as `hi` and `lo` take them, read as
      the lanes at bits 4 and 0. */
  lemma Nibbles(x: Int)
    requires x.width == 8
    ensures Hi(x).Success? && Signed(Hi(x).value) == Lane(x, 4, 4)
    ensures Lo(x).Success? && Signed(Lo(x).value) == Lane(x, 0, 4)
  {
    DivLess(x.raw, 16, 16);
    DivModUnique(x.raw / 16, 16, 0, x.raw / 16);
    SignedIsLane(Hi(x).value, x, 4, 4);
    SignedIsLane(Lo(x).value, x, 0, 4);
  }

  /** Mode 1 on 8-bit operands adds the product of the signed high nibbles to
      the product of the signed low nibbles, and nothing else. */
  lemma NibbleSumValue(a: Int, b: Int)
    requires a.width == 8 && b.width == 8
    ensures NibbleSum(a, b).Success?
    ensures Signed(NibbleSum(a, b).value)
         == Signed(Hi(a).value) * Signed(Hi(b).value) + Signed(Lo(a).value) * Signed(Lo(b).value)
  {
    var s := MatchedSum(a, b).value;
    SignedNarrow(s, 16);
    SignedOfMake(Signed(s), 16);
  }

  /** Mode 1 on 8-bit operands: the products of the matching nibble lanes,
      added; the cross terms hi*lo and lo*hi are not computed. */
  lemma Mode1NibbleSum(a: Int, b: Int)
    requires a.width == 8 && b.width == 8
    ensures MFU(a, b, 1).Success? && MFU(a, b, 1).value.Some?
    ensures Signed(MFU(a, b, 1).value.value)
         == Lane(a, 4, 4) * Lane(b, 4, 4) + Lane(a, 0, 4) * Lane(b, 0, 4)
  {
    NibbleSumValue(a, b);
    Nibbles(a);
    Nibbles(b);
  }

  /** Base-4 digits of a byte, as the quarter splits compute them. */
  lemma ByteDigits(n: nat)
    requires n < 256
    ensures (n / 16) / 4 == (n / 64) % 4
    ensures (n % 16) / 4 == (n / 4) % 4
    ensures (n % 16) % 4 == (n / 1) % 4
  {
    UpperDigits(n);
    LowerDigits(n);
  }

  /** The top two base-4 digits of a byte, through its high nibble. */
  lemma UpperDigits(n: nat)
    requires n < 256
    ensures (n / 16) / 4 == (n / 64) % 4
  {
    var h, l := n / 16, n % 16;
    DivModUnique(n, 64, h / 4, 16 * (h % 4) + l);
    DivModUnique(n / 64, 4, 0, n / 64);
  }

  /** The bottom two base-4 digits of a byte, through its low nibble. */
  lemma LowerDigits(n: nat)
    requires n < 256
    ensures (n % 16) / 4 == (n / 4) % 4
    ensures (n % 16) % 4 == (n / 1) % 4
  {
    var h, l := n / 16, n % 16;
    DivModUnique(n, 4, 4 * h + l / 4, l % 4);
    DivModUnique(n / 4, 4, h, l / 4);
  }

  /** The quarters `hi.hi` and `hi.lo` of an 8-bit value read as the lanes at
      bits 6 and 4. */
  lemma UpperQuarters(x: Int)
    requires x.width == 8
    ensures Hi(x).Success?
    ensures Hi(Hi(x).value).Success? && Signed(Hi(Hi(x).value).value) == Lane(x, 6, 2)
    ensures Lo(Hi(x).value).Success? && Signed(Lo(Hi(x).value).value) == Lane(x, 4, 2)
  {
    var hi := Hi(x).value;
    ByteDigits(x.raw);
    SignedIsLane(Hi(hi).value, x, 6, 2);
    SignedIsLane(Lo(hi).value, x, 4, 2);
  }

  /** The quarters `lo.hi` and `lo.lo` of an 8-bit value read as the lanes at
      bits 2 and 0. */
  lemma LowerQuarters(x: Int)
    requires x.width == 8
    ensures Lo(x).Success?
    ensures Hi(Lo(x).value).Success? && Signed(Hi(Lo(x).value).value) == Lane(x, 2, 2)
    ensures Lo(Lo(x).value).Success? && Signed(Lo(Lo(x).value).value) == Lane(x, 0, 2)
  {
    var lo := Lo(x).value;
    ByteDigits(x.raw);
    SignedIsLane(Hi(lo).value, x, 2, 2);
    SignedIsLane(Lo(lo).value, x, 0, 2);
  }

  /** Mode 2 on 8-bit operands adds the four products of same-position
      signed quarters, and nothing else. */
  lemma QuarterSumValue(a: Int, b: Int)
    requires a.width == 8 && b.width == 8
    ensures QuarterSum(a, b).Success?
    ensures var ah, bh, al, bl := Hi(a).value, Hi(b).value, Lo(a).value, Lo(b).value;
            (Signed(QuarterSum(a, b).value)
             == Signed(Hi(ah).value) * Signed(Hi(bh).value) + Signed(Lo(ah).value) * Signed(Lo(bh).value)
              + Signed(Hi(al).value) * Signed(Hi(bl).value) + Signed(Lo(al).value) * Signed(Lo(bl).value))
  {
    var ah, bh, al, bl := Hi(a).value, Hi(b).value, Lo(a).value, Lo(b).value;
    var s1, s3 := HalfSums(a, b);
    var s := Add(s1, s3).value;
    QuarterSumIs(a, b, s);
    SignedNarrow(s, 16);
    SignedOfMake(Signed(s), 16);
  }

  /** The matched sums of the upper and of the lower halves of 8-bit
      operands are both defined, at width 5. */
  lemma HalfSums(a: Int, b: Int) returns (s1: Int, s3: Int)
    requires a.width == 8 && b.width == 8
    ensures MatchedSum(Hi(a).value, Hi(b).value) == Success(s1) && s1.width == 5
    ensures MatchedSum(Lo(a).value, Lo(b).value) == Success(s3) && s3.width == 5
  {
    var ah, bh, al, bl := Hi(a).value, Hi(b).value, Lo(a).value, Lo(b).value;
    assert ah.width == 4 && bh.width == 4 && al.width == 4 && bl.width == 4;
    s1, s3 := MatchedSum(ah, bh).value, MatchedSum(al, bl).value;
  }

  /** Mode 2 on 8-bit operands rebuilds the sum of the two matched sums. */
  lemma QuarterSumIs(a: Int, b: Int, s: Int)
    requires a.width == 8 && b.width == 8
    requires MatchedSum(Hi(a).value, Hi(b).value).Success?
    requires MatchedSum(Lo(a).value, Lo(b).value).Success?
    requires Add(MatchedSum(Hi(a).value, Hi(b).value).value, MatchedSum(Lo(a).value, Lo(b).value).value) == Success(s)
    ensures QuarterSum(a, b) == Make(Signed(s), 16)
  {
  }

  /** Mode 2 on 8-bit operands: the products of the four matching 2-bit lanes,
      added; no product between lanes at different positions is computed. */
  lemma Mode2QuarterSum(a: Int, b: Int)
    requires a.width == 8 && b.width == 8
    ensures MFU(a, b, 2).Success? && MFU(a, b, 2).value.Some?
    ensures Signed(MFU(a, b, 2).value.value)
         == Lane(a, 6, 2) * Lane(b, 6, 2) + Lane(a, 4, 2) * Lane(b, 4, 2)
          + Lane(a, 2, 2) * Lane(b, 2, 2) + Lane(a, 0, 2) * Lane(b, 0, 2)
  {
    QuarterSumValue(a, b);
    UpperQuarters(a);
    UpperQuarters(b);
    LowerQuarters(a);
    LowerQuarters(b);
  }

  /** Mode 0 as a dot product of one 8-bit lane. */
  lemma Mode0LaneDot(a: Int, b: Int)
    requires a.width == 8 && b.width == 8
    ensures MFU(a, b, 0).Success? && MFU(a, b, 0).value.Some?
    ensures Signed(MFU(a, b, 0).value.value) == LaneDot(a, b, 8, 1)
  {
    Mode0Product(a, b);
    DivModUnique(a.raw, Pow2(8), 0, a.raw);
    DivModUnique(b.raw, Pow2(8), 0, b.raw);
    assert Lane(a, 0, 8) == Signed(a);
    assert Lane(b, 0, 8) == Signed(b);
    assert LaneDot(a, b, 8, 1) == Lane(a, 0, 8) * Lane(b, 0, 8);
  }

  /** Mode 1 as a dot product of two 4-bit lanes. */
  lemma Mode1LaneDot(a: Int, b: Int)
    requires a.width == 8 && b.width == 8
    ensures MFU(a, b, 1).Success? && MFU(a, b, 1).value.Some?
    ensures Signed(MFU(a, b, 1).value.value) == LaneDot(a, b, 4, 2)
  {
    Mode1NibbleSum(a, b);
    assert LaneDot(a, b, 4, 1) == Lane(a, 0, 4) * Lane(b, 0, 4);
  }

  /** Mode 2 as a dot product of four 2-bit lanes. */
  lemma Mode2LaneDot(a: Int, b: Int)
    requires a.width == 8 && b.width == 8
    ensures MFU(a, b, 2).Success? && MFU(a, b, 2).value.Some?
    ensures Signed(MFU(a, b, 2).value.value) == LaneDot(a, b, 2, 4)
  {
    Mode2QuarterSum(a, b);
    assert LaneDot(a, b, 2, 1) == Lane(a, 0, 2) * Lane(b, 0, 2);
    assert LaneDot(a, b, 2, 2) == LaneDot(a, b, 2, 1) + Lane(a, 2, 2) * Lane(b, 2, 2);
    assert LaneDot(a, b, 2, 3) == LaneDot(a, b, 2, 2) + Lane(a, 4, 2) * Lane(b, 4, 2);
  }

  /** In every mode, on 8-bit operands, the unit returns a 16-bit value whose
      signed reading is the dot product of the operands' matching lanes: one
      8-bit lane in mode 0, two 4-bit lanes in mode 1, four 2-bit lanes in
      mode 2. */
  lemma MfuIsLaneDot(a: Int, b: Int, mode: int)
    requires a.width == 8 && b.width == 8 && 0 <= mode <= 2
    ensures MFU(a, b, mode).Success? && MFU(a, b, mode).value.Some?
    ensures MFU(a, b, mode).value.value.width == 16
    ensures Signed(MFU(a, b, mode).value.value) == LaneDot(a, b, LaneWidth(mode), 8 / LaneWidth(mode))
  {
    if mode == 0 {
      Mode0LaneDot(a, b);
    } else if mode == 1 {
      Mode1LaneDot(a, b);
    } else {
      Mode2LaneDot(a, b);
    }
  }
  /** On 8-bit operands, modes 0..2 always produce a value. */
  lemma MfuDefined(a: Int, b: Int, mode: int)
    requires a.width == 8 && b.width == 8 && 0 <= mode <= 2
    ensures MFU(a, b, mode).Success? && MFU(a, b, mode).value.Some?
  {
    MfuIsLaneDot(a, b, mode);
  }


  /** 12 x 7 in mode 0 is 84. */
  lemma FullProductExample()
    ensures Make(12, 8).Success? && Make(7, 8).Success?
    ensures MFU(Make(12, 8).value, Make(7, 8).value, 0) == Success(Some(Make(84, 16).value))
  {
    var a, b := Make(12, 8).value, Make(7, 8).value;
    Mode0Product(a, b);
    MakeOfSigned(MFU(a, b, 0).value.value);
  }

  /** The nibbles of 48 are (3, 0) and those of 5 are (0, 5). */
  lemma ExampleNibbles()
    ensures Make(48, 8).Success? && Make(5, 8).Success?
    ensures var a, b := Make(48, 8).value, Make(5, 8).value;
            Signed(a) == 48 && Signed(b) == 5
            && Signed(Hi(a).value) == 3 && Signed(Lo(a).value) == 0
            && Signed(Hi(b).value) == 0 && Signed(Lo(b).value) == 5
  {
    var a, b := Make(48, 8).value, Make(5, 8).value;
    assert a.raw == 48 && b.raw == 5;
    assert Hi(a).value.raw == 3 && Lo(a).value.raw == 0;
    assert Hi(b).value.raw == 0 && Lo(b).value.raw == 5;
  }

  /** Mode 2 raises at the first half it cannot take, in the source's order:
      for a 6-bit 0 and a 5-bit 16, `a.hi.hi` has width 1 and fails before
      `b.hi` (16 >> 2 = 4, which 2 bits cannot hold) is taken. */
  lemma QuarterOrderExample()
    ensures Make(0, 6).Success? && Make(16, 5).Success?
    ensures Hi(Make(16, 5).value) == Failure(OutOfRange)
    ensures MFU(Make(0, 6).value, Make(16, 5).value, 2) == Failure(WidthTooSmall)
  {
    var a, b := Make(0, 6).value, Make(16, 5).value;
    assert Pow2(2) == 4 && Pow2(3) == 8;
    assert Hi(a) == Make(0, 3);
    assert Hi(Hi(a).value) == Failure(WidthTooSmall);
    assert b.raw == 16 && b.raw / Pow2(2) == 4;
  }

  /** 48 x 5 in mode 1 is 0, not the product 240: 48 has nibbles (3, 0) and 5
      has nibbles (0, 5), so only cross terms would be non-zero. */
  lemma NoCrossTermsExample()
    ensures Make(48, 8).Success? && Make(5, 8).Success?
    ensures Signed(Make(48, 8).value) * Signed(Make(5, 8).value) == 240
    ensures MFU(Make(48, 8).value, Make(5, 8).value, 1) == Success(Some(Make(0, 16).value))
  {
    ExampleNibbles();
    var a, b := Make(48, 8).value, Make(5, 8).value;
    NibbleSumValue(a, b);
    var out := NibbleSum(a, b).value;
    assert MFU(a, b, 1) == Success(Some(out));
    assert Signed(out) == 0;
    MakeOfSigned(out);
  }
}
