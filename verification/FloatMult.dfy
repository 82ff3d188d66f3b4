/** `mult_generic<AC_RND_CONV,false>`: multiplication correctly rounded to nearest, ties to even. */
module FloatMult {
  import opened Arith
  import opened BitInt
  import opened FloatFormat

  /** The exact product of two finite magnitudes, in units. */
  ghost function Product(fmt: Format, op1: Float, op2: Float): real
    requires fmt.Ok()
  {
    FormatFacts(fmt);
    (Units(fmt, op1.Packed(fmt)) * Units(fmt, op2.Packed(fmt))) as real / Pow2(fmt.UnitShift()) as real
  }

  lemma ShiftProduct(x: int, y: int, a: nat, b: nat)
    ensures Shl(x, a) * Shl(y, b) == Shl(x * y, a + b)
  {
    ShlTimes(Shl(x, a), y, b);
    ShlTimes(y, x, a);
    ShlShl(x * y, a, b);
    assert y * x == x * y && Shl(x, a) * y == y * Shl(x, a);
  }

  lemma TwiceQuotient(x: int, d: int)
    requires 0 < d
    ensures 2.0 * (x as real / d as real) == (2 * x) as real / d as real
  {
  }

  /** Twice the exact product as one number over a power of two. */
  lemma TwiceProduct(fmt: Format, op1: Float, op2: Float)
    requires fmt.Ok() && op1.Valid(fmt) && op2.Valid(fmt) && op1.IsFinite(fmt) && op2.IsFinite(fmt)
    ensures 1 <= fmt.UnitShift() && 1 <= op1.Exponent() && 1 <= op2.Exponent()
    ensures 2.0 * Product(fmt, op1, op2)
         == Shl(op1.Mantissa(fmt) * op2.Mantissa(fmt), op1.Exponent() + op2.Exponent() - 1) as real
            / Pow2(fmt.UnitShift()) as real
  {
    hide Units;
    FormatFacts(fmt);
    UnitsOfFloat(op1, fmt);
    UnitsOfFloat(op2, fmt);
    var m1, m2, a: nat, b: nat := op1.Mantissa(fmt), op2.Mantissa(fmt), op1.Exponent() - 1, op2.Exponent() - 1;
    ShiftProduct(m1, m2, a, b);
    assert 2 * Shl(m1 * m2, a + b) == Shl(m1 * m2, a + b + 1);
    TwiceQuotient(Shl(m1, a) * Shl(m2, b), Pow2(fmt.UnitShift()));
  }

  lemma BelowSquare(x: int, y: int, one: int)
    requires 0 <= x < one && 0 <= y < one
    ensures 0 <= x * y <= (one - 1) * (one - 1)
    ensures 0 < x && 0 < y ==> 0 < x * y
  {
    MulMonotone(x, one - 1, y);
    MulMonotone(y, one - 1, one - 1);
    MulNonneg(x, y);
    if 0 < x && 0 < y { MulStrict(0, x, y); }
  }

  lemma Square(one: int)
    ensures (one - 1) * (one - 1) == (one - 2) * one + 1 == one * one - 2 * one + 1
  {
  }

  /** The mantissa product lies in two mantissa widths, and is not zero for non-zero operands. */
  lemma ProductRange(fmt: Format, m1: int, m2: int)
    requires fmt.Ok() && 0 <= m1 < Shl(1, fmt.Mu()) && 0 <= m2 < Shl(1, fmt.Mu())
    ensures 0 <= m1 * m2 < Shl(1, 2 * fmt.Mu())
    ensures m1 * m2 <= Shl(Shl(1, fmt.Mu()) - 2, fmt.Mu()) + 1
    ensures 0 < m1 && 0 < m2 ==> 0 < m1 * m2
  {
    hide Shl;
    var w := fmt.Mu();
    var one := Shl(1, w);
    BelowSquare(m1, m2, one);
    ShlShl(1, w, w);
    ShlIsTimes(one, w);
    ShlIsTimes(one - 2, w);
    Square(one);
  }

  /** How far a normalised operand is shifted, and how far the product then reaches. */
  lemma NormalisedProduct(fmt: Format, big: int, small: int)
    requires fmt.Ok() && Shl(1, fmt.mant) <= big < Shl(1, fmt.Mu()) && 0 < small < Shl(1, fmt.Mu())
    ensures var ls := LeadingZeros(small, fmt.Mu());
      && ls <= fmt.mant
      && Shl(1, 2 * fmt.mant) <= Shl(big * small, ls) < Shl(1, 2 * fmt.Mu())
  {
    var ls := LeadingZeros(small, fmt.Mu());
    LeadingZerosShift(small, fmt.Mu());
    var s := Shl(small, ls);
    ShlTimes(big, small, ls);
    ProductRange(fmt, big, s);
    MulMonotone(Shl(1, fmt.mant), big, s);
    MulMonotone(Shl(1, fmt.mant), s, Shl(1, fmt.mant));
    ShlShl(1, fmt.mant, fmt.mant);
    ShlIsTimes(Shl(1, fmt.mant), fmt.mant);
    assert s * Shl(1, fmt.mant) == Shl(1, fmt.mant) * s;
  }

  /** What the branches hand to the packing: the exponent and mantissa fields, if the result is not infinite. */
  datatype Rounded = Rounded(exp: int, m: int, normal: bool, inf: bool) {
    predicate Fits(fmt: Format)
      requires fmt.Ok()
    {
      0 <= m < Shl(1, fmt.mant) && (!inf ==> (normal ==> 1 <= exp < fmt.TopExp()))
    }

    /** The packed magnitude this stands for. */
    function Bits(fmt: Format): int
      requires fmt.Ok()
    {
      if inf then fmt.InfBits() else if normal then Shl(exp, fmt.mant) + m else m
    }
  }

  /** The operands and the numbers the branches start from. */
  ghost predicate Operands(fmt: Format, op1: Float, op2: Float, exp0: int, p0: int)
    requires fmt.Ok()
  {
    && op1.Valid(fmt) && op2.Valid(fmt) && op1.IsFinite(fmt) && op2.IsFinite(fmt)
    && exp0 == op1.Exponent() + op2.Exponent() - fmt.Bias() && p0 == op1.Mantissa(fmt) * op2.Mantissa(fmt)
  }

  /** The operand whose leading zeros are counted, as a mantissa. */
  function Counted(fmt: Format, op1: Float, op2: Float): int {
    if op1.e != 0 then op2.Mantissa(fmt) else op1.Mantissa(fmt)
  }

  /** How the product has been shifted. */
  ghost predicate ShiftedBy(fmt: Format, op1: Float, op2: Float, exp0: int, p0: int, shiftL: nat, shiftL1: bool) {
    var ls := LeadingZeros(Counted(fmt, op1, op2), fmt.Mu());
    && shiftL == (if ls >= exp0 then exp0 else ls)
    && (shiftL1 <==> ls < exp0 && Shl(p0, shiftL) < Shl(1, 2 * fmt.Mu() - 1))
  }

  lemma ZeroShifted(n: nat, w: nat)
    ensures Shl(0, n) == 0 && Low(0, w) == 0 && Shl(1, w) > 0
  {
    ShlZero(n);
    ShlMonotone(0, 1, w);
    FitsU(0, w);
  }

  /** With E = 2 two subnormal operands come here: their product has two bits to spare. */
  lemma TwoSubnormals(fmt: Format, m1: int, m2: int)
    requires fmt.Ok() && 0 < m1 < Shl(1, fmt.mant) && 0 < m2 < Shl(1, fmt.mant)
    ensures 0 <= Shl(m1 * m2, 1) < Shl(1, 2 * fmt.Mu())
    ensures 1 <= LeadingZeros(m1, fmt.Mu())
  {
    hide Shl;
    var h := Shl(1, fmt.mant);
    FormatFacts(fmt);
    LeadingZerosShift(m1, fmt.Mu());
    MulStrict(m1, h, m2);
    MulMonotone(m2, h, h);
    ShlIsTimes(h, fmt.mant);
    ShlShl(1, fmt.mant, fmt.mant);
    ShlStep(1, 2 * fmt.mant);
    ShlStep(1, 2 * fmt.mant + 1);
    ShlFew(m1 * m2);
    MulStrict(0, m1, m2);
  }

  /** At most one operand is subnormal here, unless E = 2; and then the exponent is small. */
  lemma OneSubnormal(fmt: Format, op1: Float, op2: Float)
    requires fmt.Ok() && op1.Valid(fmt) && op2.Valid(fmt) && op1.IsFinite(fmt) && op2.IsFinite(fmt)
    requires 0 <= op1.Exponent() + op2.Exponent() - fmt.Bias()
    requires op1.Mantissa(fmt) * op2.Mantissa(fmt) != 0
    ensures fmt.eBits == 2 ==> fmt.Bias() == 1
    ensures op1.e == 0 && op2.e == 0 ==> fmt.eBits == 2
    ensures op1.e == 0 || op2.e == 0 ==> op1.Exponent() + op2.Exponent() - fmt.Bias() <= fmt.Bias() + 1
    ensures 0 < op1.Mantissa(fmt) < Shl(1, fmt.Mu()) && 0 < op2.Mantissa(fmt) < Shl(1, fmt.Mu())
    ensures if op1.e != 0 then Shl(1, fmt.mant) <= op1.Mantissa(fmt) else op1.Mantissa(fmt) < Shl(1, fmt.mant)
    ensures if op2.e != 0 then Shl(1, fmt.mant) <= op2.Mantissa(fmt) else op2.Mantissa(fmt) < Shl(1, fmt.mant)
    ensures op2.e != 0 ==> LeadingZeros(op2.Mantissa(fmt), fmt.Mu()) == 0
    ensures op1.e != 0 ==> LeadingZeros(op1.Mantissa(fmt), fmt.Mu()) == 0
  {
    hide Shl, Units;
    FormatFacts(fmt);
    ShlFew(1);
    UnitsOfFloat(op1, fmt);
    UnitsOfFloat(op2, fmt);
  }

  lemma ShiftWithin(p: int, a: nat, b: nat, w: nat)
    requires 0 <= p && a <= b && Shl(p, b) < Shl(1, w)
    ensures 0 <= Shl(p, a) < Shl(1, w)
  {
    ShlGrows(p, a, b);
    ShlMonotone(0, p, a);
  }

  /** The shift keeps the product in two mantissa widths, and normalises it unless the exponent limits it. */
  lemma RoomToShift(fmt: Format, op1: Float, op2: Float, exp0: int, p0: int, shiftL: nat)
    requires fmt.Ok() && Operands(fmt, op1, op2, exp0, p0) && p0 != 0 && 0 <= exp0
    requires var ls := LeadingZeros(Counted(fmt, op1, op2), fmt.Mu()); shiftL == if ls >= exp0 then exp0 else ls
    ensures 0 <= Shl(p0, shiftL) < Shl(1, 2 * fmt.Mu())
    ensures LeadingZeros(Counted(fmt, op1, op2), fmt.Mu()) < exp0 ==> Shl(1, 2 * fmt.mant) <= Shl(p0, shiftL)
  {
    hide Shl, LeadingZeros;
    var w := fmt.Mu();
    OneSubnormal(fmt, op1, op2);
    var ls := LeadingZeros(Counted(fmt, op1, op2), w);
    if op1.e != 0 || op2.e != 0 {
      var big, small := if op1.e != 0 then op1 else op2, if op1.e != 0 then op2 else op1;
      assert p0 == big.Mantissa(fmt) * small.Mantissa(fmt);
      NormalisedProduct(fmt, big.Mantissa(fmt), small.Mantissa(fmt));
      ShiftWithin(p0, shiftL, ls, 2 * w);
    } else {
      TwoSubnormals(fmt, op1.Mantissa(fmt), op2.Mantissa(fmt));
    }
  }

  lemma LowRange(x: int, w: nat)
    ensures 0 <= Low(x, w) < Shl(1, w)
  {
    ShrSpec(x, w);
  }

  lemma Doubling(p: int, n: nat, w: nat)
    requires 1 <= w
    ensures Shl(p, n + 1) == 2 * Shl(p, n) && Shl(p, n + 0) == Shl(p, n)
    ensures Shl(1, 2 * w) == 2 * Shl(1, 2 * w - 1) == 4 * Shl(1, 2 * w - 2)
  {
  }

  /**
   * The shift of the branch that cannot underflow: the exponent, the shifted product and whether one more shift was
   * due.
   */
  method NormaliseProduct(fmt: Format, op1: Float, op2: Float, exp0: int, p0: int)
    returns (exp: int, p: int, shiftL: nat, shiftL1: bool)
    requires fmt.Ok() && op1.Valid(fmt) && op2.Valid(fmt) && 0 <= exp0
    requires 0 <= p0 < Shl(1, 2 * fmt.Mu())
    ensures exp == exp0 - shiftL - Flag(shiftL1) + 1
    ensures Operands(fmt, op1, op2, exp0, p0) && p0 != 0
      ==> && p == Shl(p0, shiftL + Flag(shiftL1)) < Shl(1, 2 * fmt.Mu())
          && 1 <= exp && (exp > 1 ==> Shl(1, 2 * fmt.Mu() - 1) <= p)
    ensures Operands(fmt, op1, op2, exp0, p0) ==> ShiftedBy(fmt, op1, op2, exp0, p0, shiftL, shiftL1)
    ensures p0 == 0 ==> p == 0
    ensures 0 <= p < Shl(1, 2 * fmt.Mu())
  {
    hide Shl, LeadingZeros, Bit, Low;
    var w := fmt.Mu();
    var mu1, mu2 := op1.Mantissa(fmt), op2.Mantissa(fmt);
    var ls := LeadingZeros(if op1.e != 0 then mu2 else mu1, w);
    var limited := ls >= exp0;
    shiftL := if limited then exp0 else ls;
    p := Low(Shl(p0, shiftL), 2 * w);
    exp := exp0 - shiftL;
    shiftL1 := !(limited || Bit(p, 2 * w - 1));
    ghost var q := p;
    p := if shiftL1 then Low(2 * p, 2 * w) else p;
    exp := exp + Flag(!shiftL1);
    LowRange(Shl(p0, shiftL), 2 * w);
    LowRange(2 * q, 2 * w);
    TopBit(q, 2 * w - 1);
    if p0 == 0 { ZeroShifted(shiftL, 2 * w); }
    if Operands(fmt, op1, op2, exp0, p0) && p0 != 0 {
      RoomToShift(fmt, op1, op2, exp0, p0, shiftL);
      FitsU(Shl(p0, shiftL), 2 * w);
      Doubling(p0, shiftL, w);
      if shiftL1 {
        FitsU(2 * q, 2 * w);
      }
    }
  }

  /** The mask of the product's low bits: k ones shifted down twice. */
  lemma MaskOfOnes(k: nat, n: nat, x: int)
    requires 0 <= x
    ensures And(Shr(Shl(1, k) - 1, n), x) == if n <= k then Low(x, k - n) else 0
  {
    if n <= k {
      ShlShl(1, k - n, n);
      ShlMonotone(1, 1, n);
      ShlPlus(Shl(1, k - n) - 1, 1, n);
      ShrUnique(Shl(1, k) - 1, n, Shl(1, k - n) - 1, Shl(1, n) - 1);
      AndOnes(k - n, x);
    } else {
      ShlGrows(1, k, n);
      ShlMonotone(1, 1, k);
      ShlZero(n);
      ShrUnique(Shl(1, k) - 1, n, 0, Shl(1, k) - 1);
    }
  }

  lemma BelowPower(x: int, j: nat, n: nat)
    requires 0 <= x < Shl(1, j)
    ensures 0 <= Shl(x, n) < Shl(1, j + n)
  {
    ShlShl(1, j, n);
    ShlMonotone(Shl(1, j), x, n);
    ShlMonotone(x, x, n);
  }

  /** The low bits that stay below position k after a shift by n are zero exactly when the shifted low part is. */
  lemma StickyLow(p: int, k: nat, n: nat)
    requires 0 <= p
    ensures And(Shr(Shl(1, k) - 1, n), Low(p, k)) != 0 <==> Low(Shl(p, n), k) != 0
  {
    hide Shl, Shr, Low, And;
    ShrSpec(p, k);
    MaskOfOnes(k, n, Low(p, k));
    if n <= k {
      var j := k - n;
      ShrSpec(p, j);
      ShlPlus(Shl(Shr(p, j), j), Low(p, j), n);
      ShlShl(Shr(p, j), j, n);
      ShlMonotone(Low(p, j), Shl(1, j), n);
      ShlPlus(Low(p, j), 1, n);
      ShlMonotone(1, 1, n);
      ShlShl(1, j, n);
      ShlMonotone(0, Low(p, j), n);
      ShlMonotone(Low(p, j), Low(p, j), n);
      BelowPower(Low(p, j), j, n);
      ShrUnique(Shl(p, n), k, Shr(p, j), Shl(Low(p, j), n));
      LowOfLow(p, j, k);
    } else {
      ShlShl(p, n - k, k);
      ShrShl(Shl(p, n - k), k);
    }
  }

  /** The exact product against the bits kept: t at the exponent's last place, and whether anything is below it. */
  lemma KeptBits(fmt: Format, op1: Float, op2: Float, exp: int, p0: int, sh: nat, t: int, lo: int)
    requires fmt.Ok() && op1.Valid(fmt) && op2.Valid(fmt) && op1.IsFinite(fmt) && op2.IsFinite(fmt)
    requires p0 == op1.Mantissa(fmt) * op2.Mantissa(fmt)
    requires exp == op1.Exponent() + op2.Exponent() - fmt.Bias() - sh + 1 && 1 <= exp
    requires Shl(p0, sh) == Shl(t, fmt.mant) + lo && 0 <= lo < Shl(1, fmt.mant)
    ensures Shl(t, exp - 1) as real <= 2.0 * Product(fmt, op1, op2) < Shl(t + 1, exp - 1) as real
    ensures lo != 0 <==> 2.0 * Product(fmt, op1, op2) != Shl(t, exp - 1) as real
  {
    hide Product;
    FormatFacts(fmt);
    TwiceProduct(fmt, op1, op2);
    var c := op1.Exponent() + op2.Exponent() - 1 - sh;
    var n := op1.Exponent() + op2.Exponent() - 1;
    assert c == exp + fmt.Bias() - 2 >= 0;
    ShlShl(p0, sh, c);
    ShlPlus(Shl(t, fmt.mant), lo, c);
    ShlShl(t, fmt.mant, c);
    BelowPower(lo, fmt.mant, c);
    ShlMonotone(lo, 0, c);
    ShlZero(c);
    ShlMonotone(lo, lo, c);
    assert c + fmt.mant == (exp - 1) + fmt.UnitShift();
    assert sh + c == n;
    RealScale(Shl(p0, n), fmt.UnitShift(), t, exp - 1, Shl(lo, c));
  }

  /**
   * With E = 2 the test for infinity overlooks the shift that normalises a subnormal operand, or a zero, against the
   * largest exponent.
   */
  ghost predicate InfinityTooEarly(fmt: Format, op1: Float, op2: Float)
    requires fmt.Ok()
  {
    && fmt.eBits == 2 && ((op1.e == 0 && op2.e == 2) || (op1.e == 2 && op2.e == 0))
    && (Counted(fmt, op1, op2) < Shl(1, fmt.mant - 1)
      || 4 * (op1.Mantissa(fmt) * op2.Mantissa(fmt)) >= Shl(1, 2 * fmt.Mu()) - Shl(1, fmt.mant))
  }

  /** `r_inf`, as the two branches on the largest exponents compute it. */
  function InfinityFlag(bias: int, exp0: int, shiftL1: bool, ovf: bool): bool {
    exp0 > 2 * bias || (exp0 == 2 * bias && (!shiftL1 || ovf)) || (exp0 == 2 * bias - 1 && !shiftL1 && ovf)
  }

  /** An even number of a mantissa's width times another stays clear of the top. */
  lemma FarFromOnes(fmt: Format, x: int, big: int, p: int)
    requires fmt.Ok() && 0 <= x <= Shl(1, fmt.Mu()) - 2 && 0 <= big < Shl(1, fmt.Mu()) && p == x * big
    ensures p < Shl(1, 2 * fmt.Mu()) - Shl(1, fmt.mant)
  {
    hide Shl;
    var n := Shl(1, fmt.Mu());
    FormatFacts(fmt);
    MulMonotone(x, n - 2, big);
    MulMonotone(big, n - 1, n - 2);
    ShlShl(1, fmt.Mu(), fmt.Mu());
    ShlIsTimes(n, fmt.Mu());
    assert (n - 1) * (n - 2) == n * n - 3 * n + 2;
  }

  lemma ClearOfOnes(fmt: Format, small: int, big: int, p0: int, shiftL: nat)
    requires fmt.Ok() && 0 < small && 0 <= big < Shl(1, fmt.Mu()) && p0 == small * big && 1 <= shiftL <= 2
    requires small < Shl(1, fmt.mant) && (shiftL == 2 ==> small < Shl(1, fmt.mant - 1))
    ensures Shl(p0, shiftL) < Shl(1, 2 * fmt.Mu()) - Shl(1, fmt.mant)
  {
    hide Shl;
    FormatFacts(fmt);
    ShlStep(1, fmt.mant - 1);
    ShlFew(p0);
    if shiftL == 1 { FarFromOnes(fmt, 2 * small, big, 2 * p0); } else { FarFromOnes(fmt, 4 * small, big, 4 * p0); }
  }

  lemma LeadingZerosOf(x: int, k: nat)
    requires 1 <= k && 0 < x < Shl(1, k + 1)
    ensures 1 <= LeadingZeros(x, k + 1) <==> x < Shl(1, k)
    ensures 2 <= LeadingZeros(x, k + 1) <==> x < Shl(1, k - 1)
  {
    hide Shl;
    ShlStep(1, k - 1);
    ShlMonotone(1, 1, k - 1);
  }

  lemma AllOnes(fmt: Format, p: int)
    requires fmt.Ok() && 0 <= p < Shl(1, 2 * fmt.Mu())
    ensures Shr(p, fmt.mant) == Shl(1, fmt.Mu() + 1) - 1 <==> p >= Shl(1, 2 * fmt.Mu()) - Shl(1, fmt.mant)
  {
    hide Shl, Shr, Low;
    var k, ones := fmt.mant, Shl(1, fmt.Mu() + 1);
    ShrSpec(p, k);
    ShlShl(1, fmt.Mu() + 1, k);
    ShlMinus(ones, 1, k);
    ShlMonotone(ones, Shr(p, k), k);
    ShlMonotone(ones - 1, Shr(p, k), k);
    ShlMonotone(Shr(p, k) + 1, ones - 1, k);
    ShlPlus(Shr(p, k), 1, k);
  }

  /** The same for E = 2 with a subnormal operand. */
  lemma ShortExponents(fmt: Format, op1: Float, op2: Float, exp0: int, p0: int, shiftL: nat, shiftL1: bool, p: int)
    requires fmt.Ok() && Operands(fmt, op1, op2, exp0, p0) && p0 != 0 && 0 <= exp0 && fmt.eBits == 2 && shiftL > 0
    requires ShiftedBy(fmt, op1, op2, exp0, p0, shiftL, shiftL1)
    requires p == Shl(p0, shiftL + Flag(shiftL1)) < Shl(1, 2 * fmt.Mu())
    ensures var ovf := Shr(p, fmt.mant) == Shl(1, fmt.Mu() + 1) - 1;
      && (InfinityTooEarly(fmt, op1, op2) <==> exp0 == 2 && (!shiftL1 || ovf))
      && (!shiftL1 ==> !ovf) && 1 <= exp0 <= 2
  {
    hide Shl, Shr, LeadingZeros;
    FormatFacts(fmt);
    OneSubnormal(fmt, op1, op2);
    var small := Counted(fmt, op1, op2);
    var big := if op1.e != 0 then op1.Mantissa(fmt) else op2.Mantissa(fmt);
    assert p0 == small * big;
    LeadingZerosOf(small, fmt.mant);
    MulStrict(0, small, big);
    ShlMonotone(0, p0, shiftL + Flag(shiftL1));
    AllOnes(fmt, p);
    ShlFew(p0);
    ShlStep(1, fmt.mant - 1);
    ShlStep(1, 2 * fmt.Mu() - 1);
    if !shiftL1 { ClearOfOnes(fmt, small, big, p0, shiftL); }
  }

  /** It is set when the rounded exponent is beyond the largest one, and too early in those cases. */
  lemma InfinityTest(fmt: Format, op1: Float, op2: Float, exp0: int, p0: int, shiftL: nat, shiftL1: bool, p: int)
    requires fmt.Ok() && Operands(fmt, op1, op2, exp0, p0) && p0 != 0 && 0 <= exp0
    requires ShiftedBy(fmt, op1, op2, exp0, p0, shiftL, shiftL1)
    requires p == Shl(p0, shiftL + Flag(shiftL1)) < Shl(1, 2 * fmt.Mu())
    ensures var ovf := Shr(p, fmt.mant) == Shl(1, fmt.Mu() + 1) - 1;
      var exp := exp0 - shiftL - Flag(shiftL1) + 1 + Flag(ovf);
      && (InfinityFlag(fmt.Bias(), exp0, shiftL1, ovf) <==> exp >= fmt.TopExp() || InfinityTooEarly(fmt, op1, op2))
      && (InfinityTooEarly(fmt, op1, op2) ==> exp < fmt.TopExp())
  {
    hide Shl, Shr, LeadingZeros;
    FormatFacts(fmt);
    OneSubnormal(fmt, op1, op2);
    LeadingZerosShift(Counted(fmt, op1, op2), fmt.Mu());
    if shiftL > 0 && fmt.eBits == 2 {
      ShortExponents(fmt, op1, op2, exp0, p0, shiftL, shiftL1, p);
    }
  }

  lemma KeptRange(fmt: Format, p: int, exp: int)
    requires fmt.Ok() && 0 <= p < Shl(1, 2 * fmt.Mu())
    requires exp > 1 ==> Shl(1, 2 * fmt.Mu() - 1) <= p
    ensures 0 <= Shr(p, fmt.mant) < Shl(1, fmt.Mu() + 1)
    ensures Shl(1, fmt.Mu() + 1) == 2 * Shl(1, fmt.Mu()) == 4 * Shl(1, fmt.mant)
    ensures exp > 1 ==> 2 * Shl(1, fmt.mant) <= Shr(p, fmt.mant)
  {
    var k := fmt.mant;
    ShrNonneg(p, k);
    ShrSpec(p, k);
    ShlShl(1, k + 2, k);
    ShlShl(1, k + 1, k);
    ShlMonotone(Shl(1, k + 2), Shr(p, k), k);
    ShlMonotone(Shr(p, k) + 1, Shl(1, k + 1), k);
    ShlPlus(Shr(p, k), 1, k);
  }

  /** The slices taken from the rounded mantissa. */
  lemma Fields(fmt: Format, r: int)
    requires fmt.Ok() && 0 <= r <= Shl(1, fmt.Mu())
    ensures var rRnd := Low(r, fmt.Mu());
      && (r == Shl(1, fmt.Mu()) ==> Low(rRnd, fmt.mant) == 0)
      && (Shl(1, fmt.mant) <= r < Shl(1, fmt.Mu()) ==>
        Bit(rRnd, fmt.mant) && Low(rRnd, fmt.mant) == r - Shl(1, fmt.mant))
      && (r < Shl(1, fmt.mant) ==> !Bit(rRnd, fmt.mant) && Low(rRnd, fmt.mant) == r)
  {
    var k, w := fmt.mant, fmt.Mu();
    FormatFacts(fmt);
    ShlZero(k);
    ShlZero(w);
    if r == Shl(1, w) {
      ShrUnique(r, w, 1, 0);
      FitsU(0, k);
    } else {
      FitsU(r, w);
      TopBit(r, k);
      if r < Shl(1, k) {
        FitsU(r, k);
      } else {
        ShrUnique(r, k, 1, r - Shl(1, k));
      }
    }
  }

  /** The fields the kept bits t and the sticky bit of any number are packed into. */
  lemma PackFields(fmt: Format, y: real, exp: int, t: int, sticky: bool)
    requires fmt.Ok() && 1 <= exp
    requires 0 <= t < 2 * Shl(1, fmt.Mu()) && (exp > 1 ==> 2 * Shl(1, fmt.mant) <= t)
    requires Shl(t, exp - 1) as real <= 2.0 * y < Shl(t + 1, exp - 1) as real
    requires sticky <==> 2.0 * y != Shl(t, exp - 1) as real
    ensures var ovf := t == 2 * Shl(1, fmt.Mu()) - 1;
      var rnd := Low(RoundConv(2 * t + Flag(sticky), 2), fmt.Mu());
      var r := Rounded(exp + Flag(ovf), Low(rnd, fmt.mant), Bit(rnd, fmt.mant) || ovf, exp + Flag(ovf) >= fmt.TopExp());
      r.Fits(fmt) && Nearest(fmt, y, r.Bits(fmt))
  {
    hide Shl, Shr, Low, Bit, RoundConv, Nearest;
    FormatFacts(fmt);
    RoundConvTwo(t, sticky);
    var rounded := RoundConv(2 * t + Flag(sticky), 2);
    PackRounded(fmt, y, exp, t, sticky, rounded);
    Fields(fmt, rounded);
    LowRange(Low(rounded, fmt.Mu()), fmt.mant);
  }

  /** The fields the kept bits and the sticky bit of the shifted product are packed into. */
  lemma PackProduct(fmt: Format, op1: Float, op2: Float, exp0: int, p0: int, sh: nat, exp: int, p: int)
    requires fmt.Ok() && Operands(fmt, op1, op2, exp0, p0) && p0 != 0
    requires p == Shl(p0, sh) && 0 <= p < Shl(1, 2 * fmt.Mu())
    requires exp == exp0 - sh + 1 && 1 <= exp && (exp > 1 ==> Shl(1, 2 * fmt.Mu() - 1) <= p)
    ensures var t := Shr(p, fmt.mant);
      var ovf := t == Shl(1, fmt.Mu() + 1) - 1;
      var rnd := Low(RoundConv(2 * t + Flag(Low(p, fmt.mant) != 0), 2), fmt.Mu());
      var r := Rounded(exp + Flag(ovf), Low(rnd, fmt.mant), Bit(rnd, fmt.mant) || ovf, exp + Flag(ovf) >= fmt.TopExp());
      r.Fits(fmt) && Nearest(fmt, Product(fmt, op1, op2), r.Bits(fmt))
  {
    hide Shl, Shr, Low, Bit, RoundConv, Product, Nearest, Rounded.Fits, Rounded.Bits;
    var t, lo := Shr(p, fmt.mant), Low(p, fmt.mant);
    ShrSpec(p, fmt.mant);
    KeptRange(fmt, p, exp);
    KeptBits(fmt, op1, op2, exp, p0, sh, t, lo);
    PackFields(fmt, Product(fmt, op1, op2), exp, t, lo != 0);
  }

  /** The shifted mask and product give the bits to round: all of those above, and whether any is below. */
  lemma BitsToRound(fmt: Format, p0: int, shiftL: nat, shiftL1: bool, p: int)
    requires fmt.Ok() && 0 <= p0 && p == Shl(p0, shiftL + Flag(shiftL1)) && 0 <= p < Shl(1, 2 * fmt.Mu())
    ensures Low(Shr(p, fmt.mant), fmt.Mu() + 1) == Shr(p, fmt.mant)
    ensures And(Shr(Shr(Shl(1, fmt.mant) - 1, shiftL), Flag(shiftL1)), Low(p0, fmt.mant)) != 0
      <==> Low(p, fmt.mant) != 0
  {
    hide Shl, Shr, Low, And;
    KeptRange(fmt, p, 1);
    FitsU(Shr(p, fmt.mant), fmt.Mu() + 1);
    ShrShr(Shl(1, fmt.mant) - 1, shiftL, Flag(shiftL1));
    StickyLow(p0, fmt.mant, shiftL + Flag(shiftL1));
  }

  lemma LeadingZerosOfZero(k: nat)
    requires 1 <= k
    ensures 2 <= LeadingZeros(0, k + 1)
  {
    ShlMonotone(1, 1, k);
    ShlMonotone(1, 1, k - 1);
  }

  lemma MantissaBound(fmt: Format, f: Float)
    requires fmt.Ok() && f.Valid(fmt)
    ensures 0 <= f.Mantissa(fmt) < Shl(1, fmt.Mu())
    ensures f.IsFinite(fmt) ==> (f.Mantissa(fmt) == 0 <==> f.IsZero())
  {
    FormatFacts(fmt);
  }

  lemma ZeroOperand(fmt: Format, op1: Float, op2: Float)
    requires fmt.Ok() && op1.Valid(fmt) && op2.Valid(fmt) && op1.IsFinite(fmt) && op2.IsFinite(fmt)
    requires op1.Mantissa(fmt) * op2.Mantissa(fmt) == 0
    ensures op1.IsZero() || op2.IsZero()
    ensures op1.Exponent() + op2.Exponent() - fmt.Bias() <= fmt.Bias() + 1
  {
    MantissaBound(fmt, op1);
    MantissaBound(fmt, op2);
    FormatFacts(fmt);
    if !op1.IsZero() && !op2.IsZero() {
      MulStrict(0, op1.Mantissa(fmt), op2.Mantissa(fmt));
    }
  }

  /** A zero times the largest numbers of E = 2. */
  lemma ZeroInfinity(fmt: Format, op1: Float, op2: Float, exp0: int, shiftL: nat, shiftL1: bool)
    requires fmt.Ok() && Operands(fmt, op1, op2, exp0, 0) && ShiftedBy(fmt, op1, op2, exp0, 0, shiftL, shiftL1)
    ensures Low(Shr(0, fmt.mant), fmt.Mu() + 1) != Shl(1, fmt.Mu() + 1) - 1
    ensures InfinityFlag(fmt.Bias(), exp0, shiftL1, false) <==> InfinityTooEarly(fmt, op1, op2)
  {
    hide Shl, Shr, Low;
    FormatFacts(fmt);
    ShlMonotone(1, 1, fmt.mant - 1);
    ShlFew(1);
    ZeroOperand(fmt, op1, op2);
    MantissaBound(fmt, op1);
    MantissaBound(fmt, op2);
    ZeroShifted(fmt.mant, fmt.Mu() + 1);
    ShlMonotone(1, 1, fmt.mant);
    ShrUnique(0, fmt.mant, 0, 0);
    ShlStep(1, fmt.Mu());
    if Counted(fmt, op1, op2) == 0 { LeadingZerosOfZero(fmt.mant); }
  }

  /**
   * Rounding and packing in the branch that cannot underflow: the fields are right, and so is the flag for infinity
   * unless it comes too early.
   */
  method RoundProduct(fmt: Format, op1: Float, op2: Float, exp0: int, p0: int) returns (r: Rounded)
    requires fmt.Ok() && op1.Valid(fmt) && op2.Valid(fmt) && 0 <= exp0
    requires exp0 == op1.Exponent() + op2.Exponent() - fmt.Bias() && p0 == op1.Mantissa(fmt) * op2.Mantissa(fmt)
    requires 0 <= p0 < Shl(1, 2 * fmt.Mu())
    ensures op1.IsFinite(fmt) && op2.IsFinite(fmt) && InfinityTooEarly(fmt, op1, op2) ==> r.inf
    ensures op1.IsFinite(fmt) && op2.IsFinite(fmt) && p0 != 0 ==> (
      var c := r.(inf := r.inf && !InfinityTooEarly(fmt, op1, op2));
      c.Fits(fmt) && Nearest(fmt, Product(fmt, op1, op2), c.Bits(fmt)))
    ensures op1.IsFinite(fmt) && op2.IsFinite(fmt) && p0 == 0 ==> (r.inf <==> InfinityTooEarly(fmt, op1, op2))
  {
    hide Shl, Shr, Low, Bit, And, RoundConv, Product, Nearest, InfinityTooEarly, InfinityFlag, ShiftedBy;
    var bias, w := fmt.Bias(), fmt.Mu();
    var exp, p, shiftL, shiftL1 := NormaliseProduct(fmt, op1, op2, exp0, p0);
    var pH := Low(Shr(p, w - 1), w + 1);
    var pL := And(Shr(Shr(Shl(1, w - 1) - 1, shiftL), Flag(shiftL1)), Low(p0, w - 1));
    var rRnd := Low(RoundConv(2 * pH + Flag(pL != 0), 2), w);
    var mR := Low(rRnd, fmt.mant);
    var rndOvf := pH == Shl(1, w + 1) - 1;
    ghost var exp1 := exp;
    exp := exp + Flag(rndOvf);
    var inf := InfinityFlag(bias, exp0, shiftL1, rndOvf);
    var normal := Bit(rRnd, fmt.mant) || rndOvf;
    r := Rounded(exp, mR, normal, inf);
    if op1.IsFinite(fmt) && op2.IsFinite(fmt) {
      if p0 == 0 {
        ZeroInfinity(fmt, op1, op2, exp0, shiftL, shiftL1);
      } else {
        BitsToRound(fmt, p0, shiftL, shiftL1, p);
        PackProduct(fmt, op1, op2, exp0, p0, shiftL + Flag(shiftL1), exp1, p);
        InfinityTest(fmt, op1, op2, exp0, p0, shiftL, shiftL1, p);
      }
    }
  }

  /** In the underflow branch the product never rounds up to the smallest normal number. */
  lemma UnderflowStaysSubnormal(fmt: Format, p0: int, n: nat, sticky: bool)
    requires fmt.Ok() && 0 <= p0 <= Shl(Shl(1, fmt.Mu()) - 2, fmt.Mu()) + 1 && fmt.Mu() <= n
    ensures 0 <= Shr(p0, n) < 2 * Shl(1, fmt.Mu())
    ensures Shr(p0, n) / 2 + Flag(Shr(p0, n) % 2 == 1 && (sticky || Shr(p0, n) / 2 % 2 == 1)) < Shl(1, fmt.mant)
  {
    var w := fmt.Mu();
    FormatFacts(fmt);
    ShrMonotone(p0, Shl(Shl(1, w) - 2, w) + 1, w);
    ShrUnique(Shl(Shl(1, w) - 2, w) + 1, w, Shl(1, w) - 2, 1);
    ShrNonneg(p0, w);
    ShrShr(p0, w, n - w);
    ShrNonneg(Shr(p0, w), n - w);
    var t, h := Shr(p0, n), Shl(1, fmt.mant);
    assert 0 <= t <= 2 * h - 2;
    if t / 2 == h - 1 { assert t % 2 == 0; }
  }

  lemma KeptBitsLow(fmt: Format, op1: Float, op2: Float, exp0: int, p0: int, t: int, lo: int)
    requires fmt.Ok() && op1.Valid(fmt) && op2.Valid(fmt) && op1.IsFinite(fmt) && op2.IsFinite(fmt) && exp0 < 0
    requires p0 == op1.Mantissa(fmt) * op2.Mantissa(fmt)
    requires exp0 == op1.Exponent() + op2.Exponent() - fmt.Bias()
    requires p0 == Shl(t, fmt.mant - exp0) + lo && 0 <= lo < Shl(1, fmt.mant - exp0)
    ensures Shl(t, 0) as real <= 2.0 * Product(fmt, op1, op2) < Shl(t + 1, 0) as real
    ensures lo != 0 <==> 2.0 * Product(fmt, op1, op2) != Shl(t, 0) as real
  {
    hide Product;
    FormatFacts(fmt);
    TwiceProduct(fmt, op1, op2);
    var c, n: nat := op1.Exponent() + op2.Exponent() - 1, fmt.mant - exp0;
    ShlPlus(Shl(t, n), lo, c);
    ShlShl(t, n, c);
    BelowPower(lo, n, c);
    ShlMonotone(lo, 0, c);
    ShlZero(c);
    ShlMonotone(lo, lo, c);
    assert n + c == 0 + fmt.UnitShift();
    RealScale(Shl(p0, c), fmt.UnitShift(), t, 0, Shl(lo, c));
  }

  /** The subnormal result packed from the bits kept and the bits shifted out. */
  lemma PackUnderflow(fmt: Format, op1: Float, op2: Float, exp0: int, p0: int)
    requires fmt.Ok() && Operands(fmt, op1, op2, exp0, p0) && exp0 < 0
    ensures var t, sticky := Shr(p0, fmt.mant - exp0), Low(p0, fmt.mant - exp0) != 0;
      var r := Rounded(0, Low(Low(RoundConv(2 * t + Flag(sticky), 2), fmt.Mu()), fmt.mant), false, false);
      r.Fits(fmt) && Nearest(fmt, Product(fmt, op1, op2), r.Bits(fmt))
  {
    hide Shl, Shr, Low, RoundConv, Product, Nearest;
    var n: nat := fmt.mant - exp0;
    var lo, t := Low(p0, n), Shr(p0, n);
    var rounded := RoundConv(2 * t + Flag(lo != 0), 2);
    MantissaBound(fmt, op1);
    MantissaBound(fmt, op2);
    ProductRange(fmt, op1.Mantissa(fmt), op2.Mantissa(fmt));
    FormatFacts(fmt);
    ShrSpec(p0, n);
    KeptBitsLow(fmt, op1, op2, exp0, p0, t, lo);
    RoundConvTwo(t, lo != 0);
    UnderflowStaysSubnormal(fmt, p0, n, lo != 0);
    PackRounded(fmt, Product(fmt, op1, op2), 1, t, lo != 0, rounded);
    Fields(fmt, rounded);
  }

  /** Rounding and packing in the underflow branch, which shifts right and hard-codes a subnormal result. */
  method RoundUnderflow(fmt: Format, op1: Float, op2: Float, exp0: int, p0: int) returns (r: Rounded)
    requires fmt.Ok() && op1.Valid(fmt) && op2.Valid(fmt) && exp0 < 0
    requires exp0 == op1.Exponent() + op2.Exponent() - fmt.Bias() && p0 == op1.Mantissa(fmt) * op2.Mantissa(fmt)
    requires 0 <= p0 < Shl(1, 2 * fmt.Mu())
    ensures op1.IsFinite(fmt) && op2.IsFinite(fmt) ==>
      r.Fits(fmt) && !r.inf && !r.normal && Nearest(fmt, Product(fmt, op1, op2), r.Bits(fmt))
  {
    hide Shl, Shr, Low, RoundConv, Product, Nearest, Rounded.Fits, Rounded.Bits;
    var w := fmt.Mu();
    var shiftRm1 := -exp0 - 1; // `~shift_l`
    var pL := Low(p0, w - 1);
    var pH := Low(Shr(p0, w - 1), w + 1);
    var shiftedOut := Low(pH, shiftRm1 + 1);
    pH := Shr(pH, shiftRm1);
    pH := Shr(pH, 1);
    var rRnd := Low(RoundConv(2 * pH + Flag(pL != 0 || shiftedOut != 0), 2), w);
    var mR := Low(rRnd, fmt.mant);
    r := Rounded(0, mR, false, false);
    if op1.IsFinite(fmt) && op2.IsFinite(fmt) {
      DroppedBits(p0, fmt.mant, shiftRm1 + 1);
      KeptRange(fmt, p0, 1);
      FitsU(Shr(p0, fmt.mant), w + 1);
      ShrShr(Shr(p0, fmt.mant), shiftRm1, 1);
      PackUnderflow(fmt, op1, op2, exp0, p0);
    }
  }

  lemma FiniteBits(fmt: Format, r: Rounded)
    requires fmt.Ok() && r.Fits(fmt) && !r.inf
    ensures 0 <= r.Bits(fmt) < fmt.InfBits()
  {
    hide Shl;
    FormatFacts(fmt);
    ShlZero(fmt.mant);
    ShlMonotone(1, fmt.TopExp(), fmt.mant);
    if r.normal {
      ShlPlus(r.exp, 1, fmt.mant);
      ShlMonotone(r.exp + 1, fmt.TopExp(), fmt.mant);
      ShlMonotone(0, r.exp, fmt.mant);
    }
  }

  /** A number that rounds to a finite one does not round to infinity. */
  lemma NotInfinite(fmt: Format, y: real, b: int)
    requires fmt.Ok() && Nearest(fmt, y, b) && b != fmt.InfBits()
    ensures !Nearest(fmt, y, fmt.InfBits())
  {
    if Nearest(fmt, y, fmt.InfBits()) { NearestUnique(fmt, y, b, fmt.InfBits()); }
  }

  lemma ZeroTimes(x: int, y: int)
    requires x == 0 || y == 0
    ensures x * y == 0
  {
  }

  lemma ZeroUnits(fmt: Format)
    requires fmt.Ok()
    ensures Units(fmt, 0) == 0
  {
    FormatFacts(fmt);
    ShlZero(fmt.mant);
    UnitsAt(fmt, 1, 0);
  }

  lemma ZeroProduct(fmt: Format, op1: Float, op2: Float)
    requires fmt.Ok() && op1.Valid(fmt) && op2.Valid(fmt) && op1.IsFinite(fmt) && op2.IsFinite(fmt)
    requires op1.Mantissa(fmt) * op2.Mantissa(fmt) == 0
    ensures op1.IsZero() || op2.IsZero()
    ensures Product(fmt, op1, op2) == 0.0 && Nearest(fmt, 0.0, 0)
  {
    hide Nearest, Units, Shl;
    ZeroOperand(fmt, op1, op2);
    FormatFacts(fmt);
    ShlZero(fmt.mant);
    ZeroUnits(fmt);
    var u1, u2 := Units(fmt, op1.Packed(fmt)), Units(fmt, op2.Packed(fmt));
    assert u1 * u2 == 0 by { ZeroTimes(u1, u2); }
    NearestZero(fmt);
  }

  /** The fields of the special results. */
  lemma SpecialFields(fmt: Format)
    requires fmt.Ok()
    ensures Shl(fmt.TopExp(), fmt.mant) == fmt.InfBits() && Shl(0, fmt.mant) == 0
    ensures 0 < Shl(1, fmt.mant - 1) < Shl(1, fmt.mant)
  {
    ShlZero(fmt.mant);
    ShlMonotone(1, 1, fmt.mant - 1);
  }

  /**
   * `mult_generic`: on finite operands of any kind the result is the exact product rounded to nearest with ties to
   * even, infinite only when that is beyond the largest finite number, in every format with E >= 3. With E = 2 the
   * result is infinite on exactly the operands `InfinityTooEarly` names, and right on the others. The special operands
   * give what section 7.2 of IEEE 754-2008 asks for.
   */
  method Mult(fmt: Format, op1: Float, op2: Float) returns (r: Float)
    requires fmt.Ok() && op1.Valid(fmt) && op2.Valid(fmt)
    ensures r.Valid(fmt) && r.sign == (op1.sign != op2.sign)
    ensures r.IsNaN(fmt) <==> (op1.IsNaN(fmt) || op2.IsNaN(fmt)
      || (op1.IsInf(fmt) && op2.IsZero()) || (op1.IsZero() && op2.IsInf(fmt)))
    ensures !r.IsNaN(fmt) && !(op1.IsFinite(fmt) && op2.IsFinite(fmt)) ==> r.IsInf(fmt)
    ensures op1.IsFinite(fmt) && op2.IsFinite(fmt) ==>
      (Nearest(fmt, Product(fmt, op1, op2), r.Packed(fmt)) <==> !InfinityTooEarly(fmt, op1, op2))
    ensures op1.IsFinite(fmt) && op2.IsFinite(fmt) && InfinityTooEarly(fmt, op1, op2) ==> r.IsInf(fmt)
    ensures 3 <= fmt.eBits ==> !InfinityTooEarly(fmt, op1, op2)
  {
    hide Shl, Product, Nearest;
    var nan := op1.IsNaN(fmt) || op2.IsNaN(fmt) || (op1.IsInf(fmt) && op2.IsZero()) || (op1.IsZero() && op2.IsInf(fmt));
    var zero := op1.IsZero() || op2.IsZero();
    var exp := op1.e + op2.e + Flag(op1.e == 0) + Flag(op2.e == 0) - fmt.Bias();
    var p := op1.Mantissa(fmt) * op2.Mantissa(fmt);
    MantissaBound(fmt, op1);
    MantissaBound(fmt, op2);
    ProductRange(fmt, op1.Mantissa(fmt), op2.Mantissa(fmt));
    FormatFacts(fmt);
    ShlFew(1);
    var rounded;
    if exp >= 0 { // max_shift_left, since min_exp + exp_bias == 1
      rounded := RoundProduct(fmt, op1, op2, exp, p);
    } else {
      rounded := RoundUnderflow(fmt, op1, op2, exp, p);
    }
    var exception := !op1.IsFinite(fmt) || !op2.IsFinite(fmt) || rounded.inf;
    var e := if exception then fmt.TopExp() else if zero || !rounded.normal then 0 else rounded.exp;
    var m := rounded.m;
    if exception || zero {
      m := if nan then Shl(1, fmt.mant - 1) else 0;
    }
    r := Float(op1.sign != op2.sign, e, m);
    SpecialFields(fmt);
    if op1.IsFinite(fmt) && op2.IsFinite(fmt) {
      if p == 0 { ZeroProduct(fmt, op1, op2); }
      if InfinityTooEarly(fmt, op1, op2) {
        FiniteBits(fmt, if p == 0 then Rounded(0, 0, false, false) else rounded.(inf := false));
        NotInfinite(fmt, Product(fmt, op1, op2), if p == 0 then 0 else rounded.(inf := false).Bits(fmt));
      }
    }
  }

  lemma ZeroAndTwo()
    ensures var fmt, zero, two := Format(1, 2), Float(false, 0, 0), Float(false, 2, 0);
      && fmt.Bias() == 1 && zero.Valid(fmt) && two.Valid(fmt) && InfinityTooEarly(fmt, zero, two)
      && zero.Mantissa(fmt) * two.Mantissa(fmt) == 0
  {
    hide Shl;
    ShiftByZero(1);
    ShlFew(1);
    var fmt := Format(1, 2);
    assert fmt.Bias() == 1 && fmt.TopExp() == 3;
    assert Counted(fmt, Float(false, 0, 0), Float(false, 2, 0)) == 0;
  }

  /** A concrete case: in the format of one mantissa bit and E = 2, zero times 2 is infinite. */
  method ZeroTimesTwo() returns (r: Float)
    ensures var fmt, zero, two := Format(1, 2), Float(false, 0, 0), Float(false, 2, 0);
      InfinityTooEarly(fmt, zero, two) && Product(fmt, zero, two) == 0.0 && r.IsInf(fmt)
  {
    hide Shl, Nearest, Product, InfinityTooEarly;
    var fmt, zero, two := Format(1, 2), Float(false, 0, 0), Float(false, 2, 0);
    ZeroAndTwo();
    r := Mult(fmt, zero, two);
    ZeroProduct(fmt, zero, two);
  }
}
