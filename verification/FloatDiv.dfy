/** `div_generic<AC_RND_CONV,false>`: division correctly rounded to nearest, ties to even. */
module FloatDiv {
  import opened Arith
  import opened BitInt
  import opened FloatFormat
  import opened FloatMult
  import FixedPointCores

  /** The exact quotient of two finite magnitudes, in units. */
  ghost function Ratio(fmt: Format, op1: Float, op2: Float): real
    requires fmt.Ok() && Units(fmt, op2.Packed(fmt)) > 0
  {
    FormatFacts(fmt);
    Shl(Units(fmt, op1.Packed(fmt)), fmt.UnitShift()) as real / Units(fmt, op2.Packed(fmt)) as real
  }

  /** x / u times 2^k. */
  ghost function Scaled(x: int, u: int, k: nat): real
    requires 0 < u
  {
    x as real / u as real * Pow2(k) as real
  }

  lemma RealTimes(a: int, b: int)
    ensures (a * b) as real == a as real * b as real
  {
  }

  lemma CrossMultiply(x: real, u: real, n: real, m: real, i: real, j: real, xm: real, nu: real)
    requires 0.0 < u && 0.0 < m && xm == x * m && nu == n * u && xm * j == nu * i
    ensures x / u * j == n / m * i
  {
    var a, b := x / u, n / m;
    assert a * u == x && b * m == n;
    assert (a * j) * (u * m) == (a * u) * m * j;
    assert (b * i) * (u * m) == (b * m) * u * i;
    RealPositive(u, m);
    RealOrder(a * j, b * i, u * m);
  }

  /** A fraction held by a quotient and a remainder, moved by powers of two on either side. */
  lemma CrossReal(x: int, u: int, n: int, m: int, i: nat, j: nat)
    requires 0 < u && 0 < m && Shl(x * m, j) == Shl(n * u, i)
    ensures Scaled(x, u, j) == Scaled(n, m, i)
  {
    hide Shl, Pow2;
    var xm, nu, ii, jj := x * m, n * u, Pow2(i), Pow2(j);
    ShlIsTimes(xm, j);
    ShlIsTimes(nu, i);
    RealTimes(x, m);
    RealTimes(n, u);
    RealTimes(xm, jj);
    RealTimes(nu, ii);
    CrossMultiply(x as real, u as real, n as real, m as real, ii as real, jj as real, xm as real, nu as real);
  }

  /** Cross-multiplied shifts agree when the shift counts add up. */
  lemma CrossShifts(m1: int, m2: int, a1: nat, a2: nat, b1: nat, b2: nat, i: nat, j: nat)
    requires 0 < m2 && a1 + b2 + j == b1 + a2 + i
    ensures 0 < Shl(m2, a2) && 0 < Shl(m2, b2)
    ensures Scaled(Shl(m1, a1), Shl(m2, a2), j) == Scaled(Shl(m1, b1), Shl(m2, b2), i)
  {
    hide *;
    ShlMonotone(m2, m2, a2);
    ShlMonotone(m2, m2, b2);
    var x, u, n, m := Shl(m1, a1), Shl(m2, a2), Shl(m1, b1), Shl(m2, b2);
    assert Shl(x * m, j) == Shl(n * u, i) by {
      ShiftProduct(m1, m2, a1, b2);
      ShiftProduct(m1, m2, b1, a2);
      var p := m1 * m2;
      ShlShl(p, a1 + b2, j);
      ShlShl(p, b1 + a2, i);
    }
    CrossReal(x, u, n, m, i, j);
  }

  /** Twice the exact quotient, as one fraction. */
  lemma TwiceRatio(fmt: Format, op1: Float, op2: Float)
    requires fmt.Ok() && op1.Valid(fmt) && op2.Valid(fmt) && op1.IsFinite(fmt) && op2.IsFinite(fmt) && !op2.IsZero()
    ensures 0 < op2.Mantissa(fmt) && Units(fmt, op2.Packed(fmt)) == Shl(op2.Mantissa(fmt), op2.Exponent() - 1) > 0
    ensures 1 <= fmt.UnitShift()
    ensures 2.0 * Ratio(fmt, op1, op2) == Shl(op1.Mantissa(fmt), op1.Exponent() + fmt.UnitShift()) as real
         / Shl(op2.Mantissa(fmt), op2.Exponent() - 1) as real
  {
    hide Units, Shl;
    FormatFacts(fmt);
    UnitsOfFloat(op1, fmt);
    UnitsOfFloat(op2, fmt);
    var m1, m2 := op1.Mantissa(fmt), op2.Mantissa(fmt);
    var a1: nat, a2: nat := op1.Exponent() - 1, op2.Exponent() - 1;
    ShlMonotone(m2, m2, a2);
    ShlShl(m1, a1, fmt.UnitShift());
    ShlShl(m1, a1 + fmt.UnitShift(), 1);
    ShlFew(Shl(m1, a1 + fmt.UnitShift()));
    TwiceQuotient(Shl(Units(fmt, op1.Packed(fmt)), fmt.UnitShift()), Shl(m2, a2));
  }

  /** The normalised mantissas and the shift that relates their quotient to the exact one. */
  lemma NormalisedRatio(fmt: Format, op1: Float, op2: Float, l1: nat, l2: nat, exp0: int, i: nat, j: nat)
    requires fmt.Ok() && op1.Valid(fmt) && op2.Valid(fmt) && op1.IsFinite(fmt) && op2.IsFinite(fmt) && !op2.IsZero()
    requires exp0 == op1.Exponent() - op2.Exponent() - l1 + l2 + fmt.Bias() && i - j == exp0 - 2
    ensures Units(fmt, op2.Packed(fmt)) > 0
    ensures 0 < Shl(op2.Mantissa(fmt), l2)
    ensures 2.0 * Ratio(fmt, op1, op2) * Pow2(j) as real
         == Scaled(Shl(op1.Mantissa(fmt), l1 + fmt.Mu() + 1), Shl(op2.Mantissa(fmt), l2), i)
  {
    hide Units, Shl, Pow2, Ratio;
    TwiceRatio(fmt, op1, op2);
    CrossShifts(op1.Mantissa(fmt), op2.Mantissa(fmt), op1.Exponent() + fmt.UnitShift(), op2.Exponent() - 1,
      l1 + fmt.Mu() + 1, l2, i, j);
  }

  lemma ScaledOrder(t: real, y: real, z: real, d: real, e: real)
    requires 0.0 < d && 0.0 < e && z * d == y * e
    ensures t * d <= y <==> t * e <= z
    ensures t * d == y <==> t * e == z
  {
    RealOrder(t * d, y, e);
    RealOrder(t * e, z, d);
    assert t * d * e == t * e * d;
  }

  /** Where n over m lies among the multiples of 2^j when q is its whole part. */
  lemma QuotientPlace(q: int, n: int, m: int, r: int, j: nat)
    requires 0 < m && n == q * m + r && 0 <= r < m
    ensures (Shr(q, j) * Pow2(j)) as real <= n as real / m as real < ((Shr(q, j) + 1) * Pow2(j)) as real
    ensures (Shr(q, j) * Pow2(j)) as real == n as real / m as real <==> Low(q, j) == 0 && r == 0
  {
    hide Pow2, Shl, Shr, Low;
    assert (q + 1) * m == q * m + m;
    Quotient(n, m, q, q + 1);
    ShrSpec(q, j);
    ShlIsTimes(Shr(q, j), j);
    ShlIsTimes(Shr(q, j) + 1, j);
  }

  /** Where z lies among the multiples of 2^i when z times 2^j is 2^i times q and a fraction below one. */
  lemma Fraction(z: real, q: int, n: int, m: int, r: int, i: nat, j: nat)
    requires 0 < m && n == q * m + r && 0 <= r < m
    requires z * Pow2(j) as real == Scaled(n, m, i)
    ensures Shl(Shr(q, j), i) as real <= z < Shl(Shr(q, j) + 1, i) as real
    ensures z == Shl(Shr(q, j), i) as real <==> Low(q, j) == 0 && r == 0
  {
    hide Pow2, Shl, Shr, Low;
    var t, d, e := Shr(q, j), Pow2(j), Pow2(i);
    var y := n as real / m as real;
    QuotientPlace(q, n, m, r, j);
    ShlIsTimes(t, i);
    ShlIsTimes(t + 1, i);
    RealTimes(t, d);
    RealTimes(t + 1, d);
    RealTimes(t, e);
    RealTimes(t + 1, e);
    ScaledOrder(t as real, y, z, d as real, e as real);
    ScaledOrder((t + 1) as real, y, z, d as real, e as real);
  }

  /** `q[0] = q[0] | b`. */
  function OrLowBit(q: int, b: bool): int {
    q + if b && q % 2 == 0 then 1 else 0
  }

  /** q holds q0 shifted down by n, above two bits that are zero exactly when nothing of the quotient was lost. */
  ghost predicate Kept(q: int, q0: int, n: nat, exact: bool) {
    Shr(q, 2) == Shr(q0, n) && (Low(q, 2) != 0 <==> Low(q0, n) != 0 || !exact)
  }

  lemma Widths(fmt: Format, q0: int)
    requires fmt.Ok()
    ensures Shl(1, fmt.Mu() + 3) == 2 * Shl(1, fmt.Mu() + 2) == 8 * Shl(1, fmt.Mu())
    ensures Shl(1, fmt.Mu()) == 2 * Shl(1, fmt.mant)
  {
    assert Shl(1, fmt.Mu() + 1) == 2 * Shl(1, fmt.Mu());
  }

  lemma OrLowOfFour(h: int, l: int, b: bool) returns (y: int)
    requires 0 <= l < 4
    ensures OrLowBit(4 * h + l, b) == 4 * h + y && 0 <= y < 4 && (y != 0 <==> l != 0 || b)
  {
    y := OrLowBit(l, b);
    DivModUnique(4 * h + l, 2, 2 * h + l / 2, l % 2);
  }

  lemma SetLowBitOfFour(q: int, b: bool)
    ensures OrLowBit(q, b) / 4 == q / 4 && (OrLowBit(q, b) % 4 != 0 <==> q % 4 != 0 || b)
  {
    hide OrLowBit;
    var h, l := q / 4, q % 4;
    var y := OrLowOfFour(h, l, b);
    DivModUnique(OrLowBit(q, b), 4, h, y);
  }

  lemma TwoBits(q: int)
    ensures Shr(q, 2) == q / 4 && Low(q, 2) == q % 4
  {
    assert Shr(q, 0) == q;
    assert Shr(q, 1) == q / 2;
    var h := q / 4;
    assert Shl(h, 0) == h;
    assert Shl(h, 1) == 2 * h;
  }

  /** Setting bit 0 leaves the bits from 2 up, and makes the two low bits non-zero. */
  lemma SetLowBit(q: int, b: bool)
    ensures Shr(OrLowBit(q, b), 2) == Shr(q, 2)
    ensures Low(OrLowBit(q, b), 2) != 0 <==> Low(q, 2) != 0 || b
  {
    hide *;
    TwoBits(q);
    TwoBits(OrLowBit(q, b));
    SetLowBitOfFour(q, b);
  }

  lemma QuarterOf(q0: int)
    ensures Shr(4 * q0, 2) == q0 && Low(4 * q0, 2) == 0
    ensures Shr(q0, 0) == q0 && Low(q0, 0) == 0
  {
    TwoBits(4 * q0);
    assert Shl(q0, 0) == q0;
  }

  lemma DoubledAgain(q0: int, n: nat)
    ensures Shl(q0, 1) == 2 * q0
    ensures n == 0 ==> Shr(2 * q0, n) == 2 * q0 && Low(2 * q0, n) == 0
  {
    assert Shl(q0, 0) == q0;
  }

  /** The doubled quotient shifted down by n, and two places further. */
  lemma ShrDoubled(q0: int, n: nat)
    ensures Shr(Shr(2 * q0, n), 2) == Shr(q0, n + 1)
    ensures Low(Shr(2 * q0, n), 2) != 0 || Low(2 * q0, n) != 0 <==> Low(q0, n + 1) != 0
    ensures n == 0 ==> Shr(2 * q0, n) == 2 * q0 && Low(2 * q0, n) == 0
  {
    hide Shl, Shr, Low;
    var d := 2 * q0;
    DoubledAgain(q0, n);
    ShrShr(d, n, 2);
    ShrOfShl(q0, 1, n + 1);
    ShrSpec(q0, n + 1);
    DroppedBits(d, n, 2);
    ShrSpec(d, n + 2);
    ShlFew(Shl(Shr(q0, n + 1), n + 1));
    ShlShl(Shr(q0, n + 1), n + 1, 1);
  }

  lemma WithinWidth(fmt: Format, q0: int, n: nat)
    requires fmt.Ok() && 0 <= q0 < Shl(1, fmt.Mu() + 2)
    ensures 0 <= Shr(q0, n + 1) < 2 * Shl(1, fmt.Mu())
  {
    ShrShr(q0, 1, n);
    assert Shr(q0, 0) == q0;
    assert Shr(q0, 1) == q0 / 2;
    ShrNonneg(q0 / 2, n);
    assert Shl(1, fmt.Mu() + 1) == 2 * Shl(1, fmt.Mu());
  }

  lemma UpperHalf(fmt: Format, q0: int)
    requires fmt.Ok() && 0 <= q0 < Shl(1, fmt.Mu() + 2)
    ensures Shr(q0, 1) == q0 / 2 < 2 * Shl(1, fmt.Mu())
    ensures Shl(1, fmt.Mu() + 2) == 4 * Shl(1, fmt.Mu()) == 8 * Shl(1, fmt.mant)
    ensures Shr(q0, 0) == q0
  {
    assert Shr(q0, 0) == q0;
    assert Shl(1, fmt.Mu() + 1) == 2 * Shl(1, fmt.Mu());
  }

  /** The shift that brings the quotient to the result's last place; the lost bits collect in bit 0. */
  method AlignQuotient(fmt: Format, q0: int, exact: bool, exp0: int) returns (exp: int, q: int)
    requires fmt.Ok() && 0 <= q0 < Shl(1, fmt.Mu() + 2)
    ensures 0 <= Shr(q, 2) < 2 * Shl(1, fmt.Mu())
    ensures exp0 <= 1 ==> exp == 1 && Kept(q, q0, 2 - exp0, exact)
    ensures exp0 >= 2 && Shl(1, fmt.Mu()) <= q0 ==> (
      && 1 <= exp <= exp0 <= exp + 1 && 2 * Shl(1, fmt.mant) <= Shr(q, 2)
      && Kept(q, q0, 1 - (exp0 - exp), exact))
  {
    hide Shl, Shr, Low, Bit;
    var w := fmt.Mu() + 3;
    q := Low(2 * q0, w);
    Widths(fmt, q0);
    FitsU(2 * q0, w);
    var shiftR := 1 - exp0; // min_exp + exp_bias - exp
    var sticky := !exact;
    exp := exp0;
    if shiftR >= 0 {
      var shiftedOut := Low(q, shiftR);
      sticky := sticky || shiftedOut != 0;
      q := Shr(q, shiftR);
      exp := exp + shiftR;
      ShrDoubled(q0, shiftR);
      WithinWidth(fmt, q0, shiftR);
      SetLowBit(q, sticky);
    } else {
      var shiftL := !Bit(q, w - 1);
      TopBit(q, w - 1);
      q := if shiftL then Low(2 * q, w) else q;
      exp := exp - Flag(shiftL);
      if shiftL {
        FitsU(4 * q0, w);
        QuarterOf(q0);
      } else {
        ShrDoubled(q0, 0);
      }
      UpperHalf(fmt, q0);
      SetLowBit(q, sticky);
    }
    q := OrLowBit(q, sticky);
  }

  /** The slices taken from the rounded quotient, which has one bit above the mantissa for the carry. */
  lemma QuotientFields(fmt: Format, r: int)
    requires fmt.Ok() && 0 <= r <= Shl(1, fmt.Mu())
    ensures Low(r, fmt.Mu() + 1) == r && (Bit(r, fmt.Mu()) <==> r == Shl(1, fmt.Mu()))
    ensures r == Shl(1, fmt.Mu()) ==> Low(r, fmt.mant) == 0
    ensures Shl(1, fmt.mant) <= r < Shl(1, fmt.Mu()) ==> Bit(r, fmt.mant) && Low(r, fmt.mant) == r - Shl(1, fmt.mant)
    ensures r < Shl(1, fmt.mant) ==> !Bit(r, fmt.mant) && Low(r, fmt.mant) == r
  {
    var k, w := fmt.mant, fmt.Mu();
    FormatFacts(fmt);
    FitsU(r, w + 1);
    TopBit(r, w);
    ShlZero(k);
    if r == Shl(1, w) {
      assert r == Shl(2, k) by { ShlPlus(1, 1, k); }
      ShrUnique(r, k, 2, 0);
    } else {
      TopBit(r, k);
      if r < Shl(1, k) {
        FitsU(r, k);
      } else {
        ShrUnique(r, k, 1, r - Shl(1, k));
      }
    }
  }

  lemma RoundConvThree(q: int)
    ensures var t := Shr(q, 2);
      RoundConv(q, 3) == t / 2 + Flag(t % 2 == 1 && (Low(q, 2) != 0 || t / 2 % 2 == 1))
  {
  }

  /** Rounding the aligned quotient; a carry out of the mantissa moves to the next binade. */
  method RoundQuotient(fmt: Format, ghost y: real, exp0: int, q: int) returns (r: Rounded)
    requires fmt.Ok() && 0 <= Shr(q, 2) < 2 * Shl(1, fmt.Mu())
    ensures 0 <= r.m < Shl(1, fmt.mant) && r.inf == (r.exp > 2 * fmt.Bias())
    ensures && 1 <= exp0 && (exp0 > 1 ==> 2 * Shl(1, fmt.mant) <= Shr(q, 2))
      && Shl(Shr(q, 2), exp0 - 1) as real <= 2.0 * y < Shl(Shr(q, 2) + 1, exp0 - 1) as real
      && (Low(q, 2) != 0 <==> 2.0 * y != Shl(Shr(q, 2), exp0 - 1) as real)
      ==> r.Fits(fmt) && Nearest(fmt, y, r.Bits(fmt))
  {
    hide Shl, Shr, Low, Bit, RoundConv, Nearest;
    var w := fmt.Mu();
    var rRnd := Low(RoundConv(q, 3), w + 1);
    var rndOvf := Bit(rRnd, w);
    var mR := Low(rRnd, fmt.mant);
    var normal := Bit(rRnd, fmt.mant) || rndOvf;
    var exp := exp0 + Flag(rndOvf);
    r := Rounded(exp, mR, normal, exp > 2 * fmt.Bias());
    LowRange(rRnd, fmt.mant);
    var t, sticky := Shr(q, 2), Low(q, 2) != 0;
    RoundConvThree(q);
    FormatFacts(fmt);
    QuotientFields(fmt, t / 2 + Flag(t % 2 == 1 && (sticky || t / 2 % 2 == 1)));
    if && 1 <= exp0 && (exp0 > 1 ==> 2 * Shl(1, fmt.mant) <= t)
      && Shl(t, exp0 - 1) as real <= 2.0 * y < Shl(t + 1, exp0 - 1) as real
      && (sticky <==> 2.0 * y != Shl(t, exp0 - 1) as real) {
      PackRounded(fmt, y, exp0, t, sticky, RoundConv(q, 3));
    }
  }

  /** The quotient of normalised mantissas has at least one bit in its two top places. */
  lemma QuotientLow(mu: nat, m1: int, m2: int)
    requires 1 <= mu && Shl(1, mu - 1) <= m1 && 0 < m2 < Shl(1, mu)
    ensures Shl(1, mu) <= Shl(m1, mu + 1) / m2
  {
    ShlMonotone(Shl(1, mu - 1), m1, mu + 1);
    ShlShl(1, mu - 1, mu + 1);
    ShlShl(1, mu, mu);
    ShlIsTimes(Shl(1, mu), mu);
    var one, n := Shl(1, mu), Shl(m1, mu + 1);
    DivModEq(n, m2);
    var q := n / m2;
    assert one * m2 == m2 * one && (q + 1) * m2 == q * m2 + m2;
    MulStrict(m2, one, one);
    if q < one {
      MulMonotone(q + 1, one, m2);
    }
  }

  /** Where twice the exact quotient lies among the kept bits. */
  lemma KeptQuotient(fmt: Format, op1: Float, op2: Float, l1: nat, l2: nat, exp0: int, exp: int, q0: int, q: int,
                     exact: bool)
    requires fmt.Ok() && op1.Valid(fmt) && op2.Valid(fmt) && op1.IsFinite(fmt) && op2.IsFinite(fmt) && !op2.IsZero()
    requires exp0 == op1.Exponent() - op2.Exponent() - l1 + l2 + fmt.Bias()
    requires 0 < Shl(op2.Mantissa(fmt), l2)
    requires q0 == Shl(Shl(op1.Mantissa(fmt), l1), fmt.Mu() + 1) / Shl(op2.Mantissa(fmt), l2)
    requires exact <==> Shl(Shl(op1.Mantissa(fmt), l1), fmt.Mu() + 1) % Shl(op2.Mantissa(fmt), l2) == 0
    requires 1 <= exp && 1 - exp0 + exp >= 0 && Kept(q, q0, 1 - exp0 + exp, exact)
    ensures Units(fmt, op2.Packed(fmt)) > 0
    ensures Shl(Shr(q, 2), exp - 1) as real <= 2.0 * Ratio(fmt, op1, op2) < Shl(Shr(q, 2) + 1, exp - 1) as real
    ensures Low(q, 2) != 0 <==> 2.0 * Ratio(fmt, op1, op2) != Shl(Shr(q, 2), exp - 1) as real
  {
    hide Shl, Shr, Low, Ratio, Units, Scaled, Pow2;
    var i: nat, j: nat := exp - 1, 1 - exp0 + exp;
    NormalisedRatio(fmt, op1, op2, l1, l2, exp0, i, j);
    ShlShl(op1.Mantissa(fmt), l1, fmt.Mu() + 1);
    var n, m := Shl(op1.Mantissa(fmt), l1 + fmt.Mu() + 1), Shl(op2.Mantissa(fmt), l2);
    DivModEq(n, m);
    Fraction(2.0 * Ratio(fmt, op1, op2), q0, n, m, n % m, i, j);
  }

  lemma ZeroRatio(fmt: Format, op1: Float, op2: Float)
    requires fmt.Ok() && op1.IsZero() && Units(fmt, op2.Packed(fmt)) > 0
    ensures Ratio(fmt, op1, op2) == 0.0 && Nearest(fmt, 0.0, 0)
  {
    hide Nearest, Units;
    FormatFacts(fmt);
    ShlZero(fmt.mant);
    ZeroUnits(fmt);
    ShlZero(fmt.UnitShift());
    NearestZero(fmt);
  }

  /** The normalised mantissa: its leading one moved to the top. */
  lemma Normalised(fmt: Format, op: Float)
    requires fmt.Ok() && op.Valid(fmt)
    ensures var mu, l := op.Mantissa(fmt), LeadingZeros(op.Mantissa(fmt), fmt.Mu());
      && Low(Shl(mu, l), fmt.Mu()) == Shl(mu, l) && 0 <= Shl(mu, l) < Shl(1, fmt.Mu())
      && (!op.IsZero() ==> Shl(1, fmt.mant) <= Shl(mu, l))
    ensures Shl(1, fmt.Mu()) == 2 * Shl(1, fmt.mant) && 0 < Shl(1, fmt.mant)
  {
    hide Shl, LeadingZeros;
    var mu, l := op.Mantissa(fmt), LeadingZeros(op.Mantissa(fmt), fmt.Mu());
    FormatFacts(fmt);
    MantissaBound(fmt, op);
    if mu == 0 {
      ShlZero(l);
    } else {
      LeadingZerosShift(mu, fmt.Mu());
    }
    assert op.IsZero() <==> mu == 0 by { if op.e != 0 { ShlMonotone(1, 1, fmt.mant); } }
    FitsU(Shl(mu, l), fmt.Mu());
  }

  /**
   * `div_generic`: for finite operands and a divisor that is not zero the result is the exact quotient rounded to
   * nearest with ties to even, infinite only when that is beyond the largest finite number; the special operands give
   * what sections 7.2 and 7.3 of IEEE 754-2008 ask for.
   */
  method Div(fmt: Format, op1: Float, op2: Float) returns (r: Float)
    requires fmt.Ok() && op1.Valid(fmt) && op2.Valid(fmt)
    ensures r.Valid(fmt) && r.sign == (op1.sign != op2.sign)
    ensures r.IsNaN(fmt) <==> (op1.IsNaN(fmt) || op2.IsNaN(fmt)
      || (op1.IsZero() && op2.IsZero()) || (op1.IsInf(fmt) && op2.IsInf(fmt)))
    ensures !r.IsNaN(fmt) && (op1.IsInf(fmt) || op2.IsZero()) ==> r.IsInf(fmt)
    ensures !r.IsNaN(fmt) && op2.IsInf(fmt) ==> r.IsZero()
    ensures op1.IsFinite(fmt) && op2.IsFinite(fmt) && !op2.IsZero() ==>
      Units(fmt, op2.Packed(fmt)) > 0 && Nearest(fmt, Ratio(fmt, op1, op2), r.Packed(fmt))
  {
    hide Shl, Shr, Low, Ratio, Nearest, LeadingZeros, Units, Kept;
    var w := fmt.Mu();
    var ls1, ls2 := LeadingZeros(op1.Mantissa(fmt), w), LeadingZeros(op2.Mantissa(fmt), w);
    var mu1, mu2 := Low(Shl(op1.Mantissa(fmt), ls1), w), Low(Shl(op2.Mantissa(fmt), ls2), w);
    Normalised(fmt, op1);
    Normalised(fmt, op2);
    var exp0 := op1.e - op2.e + Flag(op1.e == 0) - Flag(op2.e == 0) - ls1 + ls2 + fmt.Bias();
    var q0, exact := 0, true;
    FormatFacts(fmt);
    ShlMonotone(1, 1, w + 2);
    if !op2.IsZero() {
      q0, exact := FixedPointCores.DivSim(w, mu1, mu2);
    }
    var exp, q := AlignQuotient(fmt, q0, exact, exp0);
    ghost var y := if Units(fmt, op2.Packed(fmt)) > 0 then Ratio(fmt, op1, op2) else 0.0;
    var rounded := RoundQuotient(fmt, y, exp, q);
    var nan := op1.IsNaN(fmt) || op2.IsNaN(fmt) || (op1.IsZero() && op2.IsZero()) || (op1.IsInf(fmt) && op2.IsInf(fmt));
    var zero := op1.IsZero() || op2.IsInf(fmt);
    var inf0 := op1.IsInf(fmt) || op2.IsZero();
    var inf := (!zero && rounded.exp > 2 * fmt.Bias()) || inf0;
    var exception := nan || inf;
    var e := if exception then fmt.TopExp() else if zero || !rounded.normal then 0 else rounded.exp;
    var m := rounded.m;
    if exception || zero {
      m := if nan then Shl(1, fmt.mant - 1) else 0;
    }
    r := Float(op1.sign != op2.sign, e, m);
    SpecialFields(fmt);
    if op1.IsFinite(fmt) && op2.IsFinite(fmt) && !op2.IsZero() {
      if op1.IsZero() {
        TwiceRatio(fmt, op1, op2);
        ZeroRatio(fmt, op1, op2);
      } else {
        QuotientLow(w, mu1, mu2);
        KeptQuotient(fmt, op1, op2, ls1, ls2, exp0, exp, q0, q, exact);
      }
    }
  }
}
