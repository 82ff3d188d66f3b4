/** `ac_std_float::to_ac_float` and the constructor from `ac_float`: between packed floats and signed mantissas. */
module FloatConvert {
  import opened Arith
  import opened BitInt
  import opened FloatFormat
  import FloatMult

  /** `ac_float<mant_bits+2,2,E>`: a signed mantissa with mant fraction bits, and an unbiased exponent. */
  datatype AcFloat = AcFloat(m: int, e: int) {
    predicate InRange(fmt: Format)
      requires fmt.Ok()
    {
      -Shl(1, fmt.Mu()) <= m < Shl(1, fmt.Mu()) && -fmt.Bias() - 1 <= e <= fmt.Bias()
    }

    /** The leading bit next to the sign differs from it: the mantissa is at least one in magnitude. */
    predicate Normal(fmt: Format)
      requires fmt.Ok()
    {
      Shl(1, fmt.mant) <= m || m < -Shl(1, fmt.mant)
    }

    /** Four times the value, in units of the smallest subnormal. */
    function FourUnits(fmt: Format): int
      requires fmt.Ok() && InRange(fmt)
    {
      Shl(m, e + fmt.Bias() + 1)
    }
  }

  /** The value of a finite float, in units. */
  function SignedUnits(fmt: Format, f: Float): int {
    if f.sign then -Units(fmt, f.Packed(fmt)) else Units(fmt, f.Packed(fmt))
  }

  /** `e[0] = 0; e[1] = 1`: the lowest exponent plus one becomes the lowest plus two. */
  function SetSubnormal(e: int): int {
    e - Flag(Bit(e, 0)) + if Bit(e, 1) then 0 else 2
  }

  /** With E = 2 the lowest exponent plus one is -1, and setting its second bit takes it down instead of up. */
  ghost predicate Misplaced(fmt: Format, f: Float) {
    fmt.eBits == 2 && f.e == 0
  }

  lemma LowBits(e: int)
    ensures Bit(e, 0) == (e % 2 == 1) && Bit(e, 1) == (e / 2 % 2 == 1)
  {
    assert Shr(e, 0) == e && Shr(e, 1) == e / 2;
  }

  /** The lowest exponent is -bias, and bias + 1 a multiple of four but for E = 2. */
  lemma LowestExponent(bias: int, q: int)
    ensures bias == 4 * q - 1 ==> SetSubnormal(-bias) == 1 - bias
    ensures bias == 1 ==> SetSubnormal(-bias) == -2
  {
    hide Bit;
    LowBits(-bias);
    if bias == 4 * q - 1 {
      DivModUnique(-bias, 2, -2 * q, 1);
      DivModUnique(-2 * q, 2, -q, 0);
    }
  }

  lemma UnbiasedExponent(fmt: Format, f: Float)
    requires fmt.Ok() && f.Valid(fmt) && f.IsFinite(fmt)
    ensures var e := ToS(f.e - fmt.Bias(), fmt.eBits);
      (if f.e != 0 then e else SetSubnormal(e)) == f.Exponent() - fmt.Bias() - if Misplaced(fmt, f) then 2 else 0
    ensures fmt.eBits == 2 ==> fmt.Bias() == 1
  {
    hide Shl, SetSubnormal;
    FormatFacts(fmt);
    ShiftByZero(1);
    ShlStep(1, 0);
    FitsS(f.e - fmt.Bias(), fmt.eBits);
    if 3 <= fmt.eBits {
      ShlStep(1, fmt.eBits - 2);
      ShlStep(1, fmt.eBits - 3);
      LowestExponent(fmt.Bias(), Shl(1, fmt.eBits - 3));
    } else {
      LowestExponent(1, 0);
    }
  }

  /** Equal top bits mean that the mantissa leaves room for one place, and a third equal bit for two. */
  lemma RoomAtTop(k: nat, fx: int)
    requires 1 <= k && -Shl(1, k + 1) <= fx < Shl(1, k + 1)
    ensures Shl(1, k + 1) == 2 * Shl(1, k) == 4 * Shl(1, k - 1)
    ensures Bit(fx, k + 1) == Bit(fx, k) <==> -Shl(1, k) <= fx < Shl(1, k)
    ensures -Shl(1, k) <= fx < Shl(1, k) ==>
      (Bit(fx, k + 1) == Bit(fx, k - 1) <==> -Shl(1, k - 1) <= fx < Shl(1, k - 1))
  {
    hide Shl, Bit;
    ShlStep(1, k);
    ShlStep(1, k - 1);
    SignBit(fx, k + 1);
    if fx >= 0 {
      TopBit(fx, k);
      if fx < Shl(1, k) { TopBit(fx, k - 1); }
    } else {
      BelowTop(fx, k);
      if fx >= -Shl(1, k) { BelowTop(fx, k - 1); }
    }
  }

  /** The shift by the room there is. */
  method Normalise(fmt: Format, fx0: int, e0: int) returns (fx: int, e: int, ghost n: nat)
    requires fmt.Ok() && -Shl(1, fmt.Mu()) <= fx0 < Shl(1, fmt.Mu())
    ensures n <= 2 && e == ToS(e0 - n, fmt.eBits) && fx == Shl(fx0, n) && -Shl(1, fmt.Mu()) <= fx < Shl(1, fmt.Mu())
    ensures n > 0 ==> -Shl(1, fmt.mant) <= fx0 < Shl(1, fmt.mant)
    ensures n < 2 ==> n == 1 || !(-Shl(1, fmt.mant) <= fx0 < Shl(1, fmt.mant))
    ensures n == 2 ==> -Shl(1, fmt.mant - 1) <= fx0 < Shl(1, fmt.mant - 1)
    ensures Shl(1, fmt.mant) == 2 * Shl(1, fmt.mant - 1)
  {
    hide Shl, Bit, ToS;
    var k, w := fmt.mant, fmt.mant + 2;
    RoomAtTop(k, fx0);
    ShlStep(1, k + 1);
    var shiftl1 := Bit(fx0, k + 1) == Bit(fx0, k);
    var shiftl2 := shiftl1 && Bit(fx0, k + 1) == Bit(fx0, k - 1);
    ShlFew(fx0);
    if shiftl1 { FitsS(Shl(fx0, 1), w); } else { FitsS(fx0, w); }
    fx := ToS(Shl(fx0, Flag(shiftl1)), w);
    ShlFew(fx);
    if shiftl2 { FitsS(Shl(fx, 1), w); } else { FitsS(fx, w); }
    fx := ToS(Shl(fx, Flag(shiftl2)), w);
    e := ToS(e0 - (Flag(shiftl1) + Flag(shiftl2)), fmt.eBits);
    n := Flag(shiftl1) + Flag(shiftl2);
  }

  lemma WrappedExponent(n: nat)
    requires 1 <= n <= 2
    ensures ToS(-2 - n, 2) == 2 - n
  {
    hide Shl, Shr, Low;
    ShlFew(1);
    ShlFew(-1);
    ShrUnique(-2 - n, 2, -1, 2 - n);
  }

  /** The exponents wrap around: -3 is 1 and -4 is 0. */
  lemma MisplacedValue(fmt: Format, f: Float, fx: int, n: nat)
    requires fmt.Ok() && f.Valid(fmt) && Misplaced(fmt, f) && fmt.Bias() == 1 && 1 <= n <= 2
    requires fx == if f.sign then -f.Mantissa(fmt) else f.Mantissa(fmt)
    ensures ToS(-2 - n, 2) == 2 - n
    ensures f.IsFinite(fmt) ==> Shl(Shl(fx, n), 2 - n + 2) == 16 * SignedUnits(fmt, f)
  {
    hide Units, Shl;
    WrappedExponent(n);
    if f.IsFinite(fmt) {
      UnitsOfFloat(f, fmt);
      ShlFew(f.Mantissa(fmt));
      ShlShl(fx, n, 4 - n);
      ShlShl(fx, 2, 2);
      ShlFew(fx);
      ShlFew(4 * fx);
    }
  }

  lemma KeptValue(fmt: Format, f: Float, fx: int, n: nat)
    requires fmt.Ok() && f.Valid(fmt) && f.IsFinite(fmt) && n <= 2
    requires fx == if f.sign then -f.Mantissa(fmt) else f.Mantissa(fmt)
    ensures Shl(Shl(fx, n), f.Exponent() - n + 1) == 4 * SignedUnits(fmt, f)
  {
    hide Shl, Units;
    UnitsOfFloat(f, fmt);
    var e := f.Exponent() - 1;
    ShlShl(fx, n, e - n + 2);
    ShlShl(fx, e, 2);
    ShlFew(Shl(fx, e));
    ShlNegate(f.Mantissa(fmt), e);
  }

  /**
   * `to_ac_float`: every finite value is kept, except that with E = 2 the subnormal numbers come out four times as
   * large; infinities and NaNs give the largest number of their sign.
   */
  method ToAcFloat(fmt: Format, f: Float) returns (r: AcFloat)
    requires fmt.Ok() && f.Valid(fmt)
    ensures r.InRange(fmt)
    ensures f.IsFinite(fmt) ==> r.FourUnits(fmt) == (if Misplaced(fmt, f) then 16 else 4) * SignedUnits(fmt, f)
    ensures f.IsFinite(fmt) && !Misplaced(fmt, f) ==> r.m == 0 || r.Normal(fmt) || r.e <= -fmt.Bias()
    ensures !f.IsFinite(fmt) ==> r == AcFloat(if f.sign then -Shl(1, fmt.Mu()) else Shl(1, fmt.Mu()) - 1, fmt.Bias())
  {
    hide Shl, Units, Bit, ToS;
    var normal, inf := f.e != 0, f.e == fmt.TopExp();
    var m1 := f.Mantissa(fmt);
    var fx := if f.sign then -m1 else m1;
    var e := ToS(f.e - fmt.Bias(), fmt.eBits);
    e := if normal then e else SetSubnormal(e);
    FormatFacts(fmt);
    FloatMult.MantissaBound(fmt, f);
    ghost var fx0, n;
    fx0 := fx;
    fx, e, n := Normalise(fmt, fx, e);
    if inf {
      e := fmt.Bias();
      fx := if f.sign then -Shl(1, fmt.Mu()) else Shl(1, fmt.Mu()) - 1;
    }
    r := AcFloat(fx, e);
    if !inf {
      UnbiasedExponent(fmt, f);
      ShlFew(fx0);
      if Misplaced(fmt, f) {
        MisplacedValue(fmt, f, fx0, n);
      } else {
        FitsS(f.Exponent() - fmt.Bias() - n, fmt.eBits);
        KeptValue(fmt, f, fx0, n);
      }
    }
  }

  /** Exactly then the value is kept. */
  method KeepsValue(fmt: Format, f: Float) returns (r: AcFloat)
    requires fmt.Ok() && f.Valid(fmt) && f.IsFinite(fmt)
    ensures r.InRange(fmt)
    ensures r.FourUnits(fmt) == 4 * SignedUnits(fmt, f) <==> !(fmt.eBits == 2 && f.e == 0 && f.m != 0)
  {
    hide Units;
    r := ToAcFloat(fmt, f);
    UnitsOfFloat(f, fmt);
    if SignedUnits(fmt, f) == 0 { FloatMult.MantissaBound(fmt, f); ShlMonotone(f.Mantissa(fmt), 0, f.Exponent() - 1); }
  }

  /** The unbiased exponent, biased again in a signed field: 0 and -1 stand for the two lowest exponents. */
  lemma ExponentField(fmt: Format, e: int)
    requires fmt.Ok() && -1 <= e <= 2 * fmt.Bias()
    ensures ToS(e, fmt.eBits) == 0 <==> e == 0
    ensures ToS(e, fmt.eBits) == -1 <==> e == -1
    ensures e >= 0 ==> Low(ToS(e, fmt.eBits), fmt.eBits) == e
    ensures Low(0, fmt.eBits) == 0
  {
    hide Shl, Shr, Low;
    FormatFacts(fmt);
    ShlStep(1, fmt.eBits - 1);
    FitsU(0, fmt.eBits);
    if e >= 0 {
      FitsU(e, fmt.eBits);
      ShlNegate(1, fmt.eBits);
      if e < Shl(1, fmt.eBits - 1) { FitsS(e, fmt.eBits); } else { ShrUnique(e - Shl(1, fmt.eBits), fmt.eBits, -1, e); }
    } else {
      FitsS(-1, fmt.eBits);
    }
  }

  /** The magnitude of a float given by its fields. */
  lemma FieldUnits(fmt: Format, f: Float)
    requires fmt.Ok() && f.Valid(fmt) && f.IsFinite(fmt)
    ensures Units(fmt, f.Packed(fmt)) == if f.e == 0 then f.m else Shl(Shl(1, fmt.mant) + f.m, f.e - 1)
  {
    hide Units, Shl;
    UnitsOfFloat(f, fmt);
    ShlFew(f.m);
  }

  lemma PowerLow(w: nat)
    ensures Low(Shl(1, w), w) == 0
  {
    ShrShl(1, w);
  }

  /** The mantissa of the result, before the shift for the lowest exponents. */
  method TakeMantissa(fmt: Format, a: AcFloat) returns (m: int, mostNeg: bool)
    requires fmt.Ok() && a.InRange(fmt)
    ensures mostNeg <==> a.m == -Shl(1, fmt.Mu())
    ensures !mostNeg ==> m == Abs(a.m)
    ensures mostNeg ==> m == if a.e == fmt.Bias() then Shl(1, fmt.Mu()) - 1 else Shl(1, fmt.mant)
    ensures 0 <= m < Shl(1, fmt.Mu()) == 2 * Shl(1, fmt.mant)
  {
    hide Shl, Shr, Low, Bit;
    var k, w := fmt.mant, fmt.Mu();
    FormatFacts(fmt);
    ShlStep(1, w);
    var mU := Low(Abs(a.m), w + 1);
    FitsU(Abs(a.m), w + 1);
    TopBit(mU, w);
    mostNeg := Bit(mU, w);
    m := if mostNeg && a.e == fmt.Bias() then Shl(1, w) - 1 else Low(mU, w);
    if mostNeg { PowerLow(w); } else { FitsU(mU, w); }
    TopBit(m, k);
    m := if mostNeg && !Bit(m, k) then m + Shl(1, k) else m; // m[mant_bits] = m[mant_bits] | most_neg_m
  }

  /** The mantissas and exponents the constructor is made for. */
  predicate Fit(fmt: Format, a: AcFloat)
    requires fmt.Ok()
  {
    a.m == 0 || Shl(1, fmt.mant) <= Abs(a.m) || a.e <= -fmt.Bias()
  }

  /** What the constructor adds to the magnitude of a mantissa it is not made for. */
  function GainedBit(fmt: Format, a: AcFloat): (g: int)
    requires fmt.Ok()
    ensures 0 <= g && (g == 0 <==> Fit(fmt, a))
  {
    if Fit(fmt, a) then 0
    else
      ShlMonotone(0, 1, fmt.mant + a.e + fmt.Bias() - 1);
      Shl(1, fmt.mant + a.e + fmt.Bias() - 1)
  }

  lemma MantissaField(fmt: Format, m: int)
    requires fmt.Ok() && 0 <= m < Shl(1, fmt.Mu())
    ensures Low(m, fmt.mant) == if m < Shl(1, fmt.mant) then m else m - Shl(1, fmt.mant)
    ensures 0 <= Low(m, fmt.mant) < Shl(1, fmt.mant)
  {
    hide Shl, Shr, Low;
    FormatFacts(fmt);
    ShlZero(fmt.mant);
    var h := Shl(1, fmt.mant);
    ShrUnique(m, fmt.mant, if m < h then 0 else 1, if m < h then m else m - h);
  }

  lemma MagnitudeShl(x: int, n: nat)
    ensures Abs(Shl(x, n)) == Shl(Abs(x), n)
  {
    hide Shl;
    ShlNegate(x, n);
    ShlMonotone(x, 0, n);
    ShlZero(n);
  }

  /** At the two lowest exponents the result is subnormal. */
  lemma LowEncoded(fmt: Format, a: AcFloat, m: int, e: int, mostNeg: bool, r: Float)
    requires fmt.Ok() && a.InRange(fmt) && (mostNeg <==> a.m == -Shl(1, fmt.Mu())) && a.e != fmt.Bias()
    requires m == if mostNeg then Shl(1, fmt.mant) else Abs(a.m)
    requires e == a.e + fmt.Bias() + Flag(mostNeg) && -1 <= e <= 0
    requires r == Float(a.m < 0, 0, if e == 0 then m / 2 else m / 4) && r.Valid(fmt)
    ensures r.IsFinite(fmt) && Fit(fmt, a)
    ensures Units(fmt, r.Packed(fmt)) == Abs(a.FourUnits(fmt)) / 4
  {
    hide Shl, Units;
    FormatFacts(fmt);
    FieldUnits(fmt, r);
    MagnitudeShl(a.m, a.e + fmt.Bias() + 1);
    ShlFew(Abs(a.m));
    ShlStep(1, fmt.mant - 1);
  }

  lemma ZeroEncoded(fmt: Format, a: AcFloat, r: Float)
    requires fmt.Ok() && a.InRange(fmt) && a.m == 0 && r == Float(false, 0, 0)
    ensures r.Valid(fmt) && r.IsFinite(fmt) && Fit(fmt, a)
    ensures Units(fmt, r.Packed(fmt)) == Abs(a.FourUnits(fmt)) / 4
  {
    hide Shl, Units;
    FormatFacts(fmt);
    ShlZero(a.e + fmt.Bias() + 1);
    FieldUnits(fmt, r);
  }

  /** At the others it has its hidden bit, whether the mantissa had one or not. */
  lemma HighEncoded(fmt: Format, a: AcFloat, m: int, e: int, mostNeg: bool, r: Float)
    requires fmt.Ok() && a.InRange(fmt) && (mostNeg <==> a.m == -Shl(1, fmt.Mu())) && a.m != 0
    requires m == if !mostNeg then Abs(a.m) else if a.e == fmt.Bias() then Shl(1, fmt.Mu()) - 1 else Shl(1, fmt.mant)
    requires e == a.e + fmt.Bias() + Flag(mostNeg && a.e != fmt.Bias()) && 1 <= e
    requires r == Float(a.m < 0, e, if m < Shl(1, fmt.mant) then m else m - Shl(1, fmt.mant)) && r.Valid(fmt)
    ensures r.IsFinite(fmt)
    ensures mostNeg && a.e == fmt.Bias() ==> r.Packed(fmt) == fmt.InfBits() - 1
    ensures !(mostNeg && a.e == fmt.Bias()) ==>
      Units(fmt, r.Packed(fmt)) == Abs(a.FourUnits(fmt)) / 4 + GainedBit(fmt, a)
  {
    hide Shl, Units;
    FormatFacts(fmt);
    FieldUnits(fmt, r);
    var k, n: nat := fmt.mant, e - 1;
    if mostNeg && a.e == fmt.Bias() {
      ShlPlus(e, 1, k);
    } else {
      MagnitudeShl(a.m, a.e + fmt.Bias() + 1);
      if mostNeg {
        ShlFew(Shl(1, k));
        ShlShl(Shl(1, k), 1, e);
        ShlShl(Shl(1, k), n, 2);
        ShlFew(Shl(Shl(1, k), n));
      } else {
        ShlShl(Abs(a.m), n, 2);
        ShlFew(Shl(Abs(a.m), n));
        ShlPlus(Shl(1, k), r.m, n);
        ShlShl(1, k, n);
      }
    }
  }

  lemma HalfMantissa(m: int, h: int)
    requires 0 <= m < 2 * h
    ensures Shr(m, 0) == m && Shr(m, 1) == m / 2 < h && Shr(m, 2) == m / 4 && Shr(m / 2, 0) == m / 2
  {
  }

  /**
   * The constructor from `ac_float`. The result is the value cut towards zero to the smallest subnormal exactly for a
   * mantissa that is zero, at least one in magnitude, or at one of the two lowest exponents; any other gains a hidden
   * bit it did not have. The most negative number of all is replaced by the largest finite one of its sign.
   */
  method FromAcFloat(fmt: Format, a: AcFloat) returns (r: Float)
    requires fmt.Ok() && a.InRange(fmt)
    ensures r.Valid(fmt) && r.IsFinite(fmt) && r.sign == (a.m < 0)
    ensures a.m == -Shl(1, fmt.Mu()) && a.e == fmt.Bias() ==> r.Packed(fmt) == fmt.InfBits() - 1
    ensures !(a.m == -Shl(1, fmt.Mu()) && a.e == fmt.Bias()) ==>
      Units(fmt, r.Packed(fmt)) == Abs(a.FourUnits(fmt)) / 4 + GainedBit(fmt, a)
  {
    hide Shl, Shr, Low, Units, ToS, Bit;
    var k := fmt.mant;
    FormatFacts(fmt);
    var m, mostNeg := TakeMantissa(fmt, a);
    ghost var m0, e0 := m, a.e + fmt.Bias() + Flag(mostNeg && a.e != fmt.Bias());
    var e := ToS(a.e + fmt.Bias() + Flag(mostNeg && a.e != fmt.Bias()), fmt.eBits);
    ExponentField(fmt, e0);
    var dontMap := e == 0 || e == -1;
    HalfMantissa(m, Shl(1, k));
    m := Shr(m, Flag(e == 0));
    m := Shr(m, 2 * Flag(e == -1));
    e := if !dontMap && m != 0 then e else 0;
    r := Float(a.m < 0, Low(e, fmt.eBits), Low(m, k));
    MantissaField(fmt, m);
    if e0 <= 0 {
      LowEncoded(fmt, a, m0, e0, mostNeg, r);
    } else if m0 == 0 {
      ZeroEncoded(fmt, a, r);
    } else {
      HighEncoded(fmt, a, m0, e0, mostNeg, r);
    }
  }

  lemma SmallPowers()
    ensures Shl(1, 2) == 4 && Shl(1, 3) == 8 && Shl(1, 4) == 16 && Shl(1, 5) == 32
  {
    assert Shl(1, 1) == 2 * Shl(1, 0);
  }

  /**
   * A concrete input: with three mantissa bits and E = 3 the mantissa 1 at exponent 0, four units, becomes 36 units.
   */
  method Unnormalised() returns (r: Float)
    ensures var fmt, a := Format(3, 3), AcFloat(1, 0);
      a.InRange(fmt) && !Fit(fmt, a) && a.FourUnits(fmt) == 4 * 4 && Units(fmt, r.Packed(fmt)) == 36
  {
    SmallPowers();
    r := FromAcFloat(Format(3, 3), AcFloat(1, 0));
  }

  lemma SubnormalZero(fmt: Format, f: Float, a: AcFloat)
    requires fmt.Ok() && f.Valid(fmt) && f.IsFinite(fmt) && a.InRange(fmt)
    requires a.FourUnits(fmt) == (if Misplaced(fmt, f) then 16 else 4) * SignedUnits(fmt, f)
    ensures f.IsZero() ==> a.m == 0 && a.FourUnits(fmt) == 4 * SignedUnits(fmt, f)
  {
    hide Units, Shl;
    UnitsOfFloat(f, fmt);
    if f.IsZero() {
      ShlZero(f.Exponent() - 1);
      ShlZero(a.e + fmt.Bias() + 1);
      ShlMonotone(a.m, 0, a.e + fmt.Bias() + 1);
    }
  }

  /** A number at least four times as large is another one. */
  lemma NotFourfold(fmt: Format, f: Float, r: Float, a: AcFloat)
    requires fmt.Ok() && f.Valid(fmt) && f.IsFinite(fmt) && Misplaced(fmt, f) && f.m != 0 && a.InRange(fmt)
    requires a.FourUnits(fmt) == 16 * SignedUnits(fmt, f)
    requires a.m == -Shl(1, fmt.Mu()) && a.e == fmt.Bias() ==> r.Packed(fmt) == fmt.InfBits() - 1
    requires !(a.m == -Shl(1, fmt.Mu()) && a.e == fmt.Bias()) ==>
      Units(fmt, r.Packed(fmt)) == Abs(a.FourUnits(fmt)) / 4 + GainedBit(fmt, a)
    ensures r != f
  {
    hide Units, Shl, GainedBit;
    UnitsOfFloat(f, fmt);
    FormatFacts(fmt);
    ShlMonotone(0, f.Mantissa(fmt), f.Exponent() - 1);
    if a.m == -Shl(1, fmt.Mu()) && a.e == fmt.Bias() {
      ShlZero(fmt.mant);
      ShlMonotone(2, fmt.TopExp(), fmt.mant);
      ShlPlus(1, 1, fmt.mant);
    }
  }

  lemma NormalFits(fmt: Format, a: AcFloat)
    requires fmt.Ok() && (a.m == 0 || a.Normal(fmt) || a.e <= -fmt.Bias())
    ensures Fit(fmt, a)
  {
    FormatFacts(fmt);
  }

  /** The sign survives, and a quarter of four times the magnitude is the magnitude. */
  lemma SignOf(fmt: Format, f: Float, a: AcFloat)
    requires fmt.Ok() && f.Valid(fmt) && f.IsFinite(fmt) && !(f.sign && f.IsZero()) && a.InRange(fmt)
    requires a.FourUnits(fmt) == 4 * SignedUnits(fmt, f)
    ensures (a.m < 0) == f.sign && Abs(a.FourUnits(fmt)) / 4 == Units(fmt, f.Packed(fmt))
  {
    hide Units, Shl;
    UnitsOfFloat(f, fmt);
    ShlMonotone(a.m, 0, a.e + fmt.Bias() + 1);
    ShlMonotone(f.Mantissa(fmt), 0, f.Exponent() - 1);
    ShlZero(a.e + fmt.Bias() + 1);
  }

  /** The most negative `ac_float` is beyond every finite float. */
  lemma NotLargest(fmt: Format, f: Float, a: AcFloat)
    requires fmt.Ok() && f.Valid(fmt) && f.IsFinite(fmt) && a.InRange(fmt)
    requires a.FourUnits(fmt) == 4 * SignedUnits(fmt, f)
    ensures !(a.m == -Shl(1, fmt.Mu()) && a.e == fmt.Bias())
  {
    hide Units, Shl;
    FormatFacts(fmt);
    if a.m == -Shl(1, fmt.Mu()) && a.e == fmt.Bias() {
      UnitsOfFloat(f, fmt);
      var e: nat := f.Exponent() - 1;
      ShlMonotone(f.Mantissa(fmt), Shl(1, fmt.Mu()), e);
      ShlMonotone(Shl(1, fmt.Mu()), 0, e);
      ShlGrows(Shl(1, fmt.Mu()), e, 2 * fmt.Bias() - 1);
      ShlNegate(Shl(1, fmt.Mu()), 2 * fmt.Bias() + 1);
      ShlShl(Shl(1, fmt.Mu()), 2 * fmt.Bias() - 1, 2);
      ShlFew(Shl(Shl(1, fmt.Mu()), 2 * fmt.Bias() - 1));
    }
  }

  /** Finite floats of one sign and magnitude are the same. */
  lemma SameUnits(fmt: Format, f: Float, g: Float)
    requires fmt.Ok() && f.Valid(fmt) && g.Valid(fmt) && f.IsFinite(fmt) && g.IsFinite(fmt) && f.sign == g.sign
    requires Units(fmt, f.Packed(fmt)) == Units(fmt, g.Packed(fmt))
    ensures f == g
  {
    hide Units, Shl;
    UnitsOfFloat(f, fmt);
    UnitsOfFloat(g, fmt);
    var b, c := f.Packed(fmt), g.Packed(fmt);
    if b < c { UnitsMonotone(fmt, b, c); }
    if c < b { UnitsMonotone(fmt, c, b); }
    ShrUnique(b, fmt.mant, f.e, f.m);
    ShrUnique(b, fmt.mant, g.e, g.m);
  }

  /**
   * Every finite float but -0 comes back from the conversion unchanged, subnormals and negative powers of two included,
   * except that with E = 2 no subnormal number does.
   */
  method RoundTrip(fmt: Format, f: Float) returns (r: Float)
    requires fmt.Ok() && f.Valid(fmt) && f.IsFinite(fmt) && !(f.sign && f.IsZero())
    ensures r == f <==> !(fmt.eBits == 2 && f.e == 0 && f.m != 0)
  {
    hide Units, Shl, Fit;
    var a := ToAcFloat(fmt, f);
    r := FromAcFloat(fmt, a);
    FormatFacts(fmt);
    UnitsOfFloat(f, fmt);
    if Misplaced(fmt, f) && f.m != 0 {
      NotFourfold(fmt, f, r, a);
    } else {
      SubnormalZero(fmt, f, a);
      NotLargest(fmt, f, a);
      NormalFits(fmt, a);
      SignOf(fmt, f, a);
      SameUnits(fmt, f, r);
    }
  }
}
