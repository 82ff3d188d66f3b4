/**
 * The numbers an `ac_std_float<W,E>` denotes, at every width, and what it means to round to one of them. Magnitudes are
 * counted in units of the smallest subnormal, so every finite magnitude is an integer; the infinity stands where the
 * next binade would begin (section 4.3.1 of IEEE 754-2008: it is the result exactly when rounding with an unbounded
 * exponent reaches it).
 */
module FloatFormat {
  import opened Arith
  import opened BitInt

  /** `mant` is `mant_bits`, `eBits` is `E`; the width W is mant + eBits + 1. */
  datatype Format = Format(mant: nat, eBits: nat) {
    predicate Ok() { 1 <= mant && 2 <= eBits }

    /** `exp_bias`. */
    function Bias(): int
      requires Ok()
    {
      Shl(1, eBits - 1) - 1
    }

    /** The exponent field of infinities and NaNs: all ones. */
    function TopExp(): int
      requires Ok()
    {
      2 * Bias() + 1
    }

    /** `mu_bits`: the mantissa with its hidden bit. */
    function Mu(): nat { mant + 1 }

    /** The packed magnitude of the infinity. */
    function InfBits(): int
      requires Ok()
    {
      Shl(TopExp(), mant)
    }

    /** Adding this to the exponent of a fraction makes it an exponent counted in units. */
    function UnitShift(): int
      requires Ok()
    {
      mant + Bias() - 1
    }
  }

  /** The three fields of the packed word. */
  datatype Float = Float(sign: bool, e: int, m: int) {
    predicate Valid(fmt: Format)
      requires fmt.Ok()
    {
      0 <= e <= fmt.TopExp() && 0 <= m < Shl(1, fmt.mant)
    }

    predicate IsNaN(fmt: Format)
      requires fmt.Ok()
    {
      e == fmt.TopExp() && m != 0
    }

    predicate IsInf(fmt: Format)
      requires fmt.Ok()
    {
      e == fmt.TopExp() && m == 0
    }

    predicate IsFinite(fmt: Format)
      requires fmt.Ok()
    {
      e != fmt.TopExp()
    }

    predicate IsZero() { e == 0 && m == 0 }

    /** The word without its sign bit. */
    function Packed(fmt: Format): int {
      Shl(e, fmt.mant) + m
    }

    /** The mantissa with its hidden bit, as `extract` returns it. */
    function Mantissa(fmt: Format): int {
      m + if e != 0 then Shl(1, fmt.mant) else 0
    }

    /** The exponent the hidden bit goes with: subnormals share the smallest one. */
    function Exponent(): int {
      if e != 0 then e else 1
    }
  }

  lemma FormatFacts(fmt: Format)
    requires fmt.Ok()
    ensures 1 <= fmt.Bias() && fmt.TopExp() == Shl(1, fmt.eBits) - 1
    ensures 3 <= fmt.eBits ==> 3 <= fmt.Bias()
    ensures 1 <= fmt.UnitShift()
    ensures Shl(1, fmt.Mu()) == 2 * Shl(1, fmt.mant) && 2 <= Shl(1, fmt.mant)
  {
    assert Shl(1, 1) == 2;
    assert Shl(1, 2) == 4;
    ShlGrows(1, 1, fmt.eBits - 1);
    if 3 <= fmt.eBits { ShlGrows(1, 2, fmt.eBits - 1); }
    ShlGrows(1, 1, fmt.mant);
  }

  /** The magnitude with packed bits b, in units of the smallest subnormal. */
  function Units(fmt: Format, b: int): int {
    var e, m := Shr(b, fmt.mant), Low(b, fmt.mant);
    if e <= 0 then m else Shl(Shl(1, fmt.mant) + m, e - 1)
  }

  lemma HalveAndShift(x: int, n: nat)
    ensures Shl(x, n + 1) == Shl(2 * x, n)
  {
    ShlPlus(x, x, n);
  }

  /** A mantissa at an exponent: packing adds, since the hidden bit carries into the exponent field. */
  lemma UnitsAt(fmt: Format, exp: int, m: int)
    requires fmt.Ok() && 1 <= exp
    requires 0 <= m <= Shl(1, fmt.Mu()) && (exp > 1 ==> Shl(1, fmt.mant) <= m)
    ensures Units(fmt, Shl(exp - 1, fmt.mant) + m) == Shl(m, exp - 1)
  {
    hide Shl, Shr, Low;
    var k := fmt.mant;
    var b := Shl(exp - 1, k) + m;
    FormatFacts(fmt);
    if m < Shl(1, k) {
      ShlZero(k);
      ShiftByZero(m);
      ShrUnique(b, k, 0, m);
    } else if m < Shl(1, fmt.Mu()) {
      ShlPlus(exp - 1, 1, k);
      ShrUnique(b, k, exp, m - Shl(1, k));
    } else {
      ShlPlus(exp - 1, 2, k);
      ShlPlus(1, 1, k);
      ShrUnique(b, k, exp + 1, 0);
      HalveAndShift(Shl(1, k), exp - 1);
    }
  }

  /** Every packed magnitude is a mantissa at an exponent. */
  lemma PackedParts(fmt: Format, b: int) returns (exp: int, m: int)
    requires fmt.Ok() && 0 <= b
    ensures 1 <= exp && 0 <= m < Shl(1, fmt.Mu()) && (exp > 1 ==> Shl(1, fmt.mant) <= m)
    ensures b == Shl(exp - 1, fmt.mant) + m
    ensures b < fmt.InfBits() ==> exp < fmt.TopExp()
  {
    var k := fmt.mant;
    FormatFacts(fmt);
    ShrSpec(b, k);
    ShrNonneg(b, k);
    var e := Shr(b, k);
    exp := if e == 0 then 1 else e;
    m := Low(b, k) + if e == 0 then 0 else Shl(1, k);
    ShlZero(k);
    if e != 0 { ShlPlus(e - 1, 1, k); }
    ShlMonotone(fmt.TopExp(), e, k);
  }

  /** One step up the packed magnitudes is one step of the last place. */
  lemma UnitsStep(fmt: Format, b: int)
    requires fmt.Ok() && 0 <= b
    ensures Units(fmt, b) < Units(fmt, b + 1)
    ensures 0 <= Units(fmt, b)
  {
    var exp, m := PackedParts(fmt, b);
    UnitsAt(fmt, exp, m);
    UnitsAt(fmt, exp, m + 1);
    ShlPlus(m, 1, exp - 1);
    ShlMonotone(1, 1, exp - 1);
    ShlMonotone(0, m, exp - 1);
    ShlZero(exp - 1);
  }

  lemma {:induction false} UnitsMonotone(fmt: Format, b: int, c: int)
    requires fmt.Ok() && 0 <= b < c
    ensures Units(fmt, b) < Units(fmt, c)
    decreases c - b
  {
    UnitsStep(fmt, b);
    if b + 1 < c { UnitsMonotone(fmt, b + 1, c); }
  }

  /** The magnitude of a finite number is its mantissa at its exponent. */
  lemma UnitsOfFloat(f: Float, fmt: Format)
    requires fmt.Ok() && f.Valid(fmt) && f.IsFinite(fmt)
    ensures Units(fmt, f.Packed(fmt)) == Shl(f.Mantissa(fmt), f.Exponent() - 1)
    ensures 0 <= f.Mantissa(fmt) < Shl(1, fmt.Mu()) && 0 <= f.Packed(fmt) < fmt.InfBits()
    ensures f.Mantissa(fmt) == 0 <==> f.IsZero()
  {
    var k := fmt.mant;
    FormatFacts(fmt);
    ShlZero(k);
    if f.e != 0 { ShlPlus(f.e - 1, 1, k); }
    UnitsAt(fmt, f.Exponent(), f.Mantissa(fmt));
    ShlMonotone(f.e + 1, fmt.TopExp(), k);
    ShlMonotone(0, f.e, k);
    ShlPlus(f.e, 1, k);
  }

  // ------------------------------------------------------------------ rounding

  function Dist(y: real, x: int): (d: real) {
    if y >= x as real then y - x as real else x as real - y
  }

  /** b is y rounded to nearest, ties to even (sections 4.3.1 of IEEE 754-2008). */
  ghost predicate Nearest(fmt: Format, y: real, b: int)
    requires fmt.Ok()
  {
    && 0 <= b <= fmt.InfBits()
    && forall c :: 0 <= c <= fmt.InfBits() && c != b ==>
         && Dist(y, Units(fmt, b)) <= Dist(y, Units(fmt, c))
         && (Dist(y, Units(fmt, b)) == Dist(y, Units(fmt, c)) ==> b % 2 == 0)
  }

  /** It is enough to look at the midpoints on the two sides. */
  lemma NearestFromMidpoints(fmt: Format, y: real, b: int)
    requires fmt.Ok() && 0 <= b <= fmt.InfBits()
    requires b > 0 ==> (Units(fmt, b - 1) + Units(fmt, b)) as real <= 2.0 * y
    requires b > 0 && (Units(fmt, b - 1) + Units(fmt, b)) as real == 2.0 * y ==> b % 2 == 0
    requires b < fmt.InfBits() ==> 2.0 * y <= (Units(fmt, b) + Units(fmt, b + 1)) as real
    requires b < fmt.InfBits() && (Units(fmt, b) + Units(fmt, b + 1)) as real == 2.0 * y ==> b % 2 == 0
    ensures Nearest(fmt, y, b)
  {
    hide Units;
    forall c | 0 <= c <= fmt.InfBits() && c != b
      ensures Dist(y, Units(fmt, b)) <= Dist(y, Units(fmt, c))
      ensures Dist(y, Units(fmt, b)) == Dist(y, Units(fmt, c)) ==> b % 2 == 0
    {
      if c < b {
        UnitsMonotone(fmt, c, b);
        if c < b - 1 { UnitsMonotone(fmt, c, b - 1); }
      } else {
        UnitsMonotone(fmt, b, c);
        if b + 1 < c { UnitsMonotone(fmt, b + 1, c); }
      }
    }
  }

  /** There is only one rounded result. */
  lemma NearestUnique(fmt: Format, y: real, b: int, c: int)
    requires fmt.Ok() && Nearest(fmt, y, b) && Nearest(fmt, y, c)
    ensures b == c
  {
    if b != c {
      var lo, hi := if b < c then b else c, if b < c then c else b;
      UnitsMonotone(fmt, lo, hi);
      assert Dist(y, Units(fmt, b)) == Dist(y, Units(fmt, c));
      assert hi != lo + 1;
      UnitsMonotone(fmt, lo, lo + 1);
      UnitsMonotone(fmt, lo + 1, hi);
    }
  }

  /** Dropping k bits, rounding to nearest with ties to even: the `AC_RND_CONV` conversion of an unsigned `ac_fixed`. */
  function RoundConv(x: int, k: nat): int
    requires 1 <= k
  {
    var q := Shr(x, k);
    var half := Bit(x, k - 1);
    var rest := Low(x, k - 1) != 0;
    q + Flag(half && (rest || q % 2 == 1))
  }

  /** The two magnitudes around the value, and the position t in between, in terms of the last place. */
  lemma LastPlace(fmt: Format, exp: int, t: int)
    requires fmt.Ok() && 1 <= exp
    requires 0 <= t < 2 * Shl(1, fmt.Mu()) && (exp > 1 ==> 2 * Shl(1, fmt.mant) <= t)
    ensures var u, d := Shl(t / 2, exp - 1), Shl(1, exp - 1);
      && Units(fmt, Shl(exp - 1, fmt.mant) + t / 2) == u
      && Units(fmt, Shl(exp - 1, fmt.mant) + t / 2 + 1) == u + d
      && Shl(t, exp - 1) == 2 * u + (t % 2) * d
      && Shl(t + 1, exp - 1) == 2 * u + (t % 2) * d + d
      && 0 < d
  {
    hide Units;
    var m, g, s: nat := t / 2, t % 2, exp - 1;
    UnitsAt(fmt, exp, m);
    UnitsAt(fmt, exp, m + 1);
    ShlPlus(m, 1, s);
    ShlPlus(t, 1, s);
    ShlPlus(2 * m, g, s);
    ShlPlus(m, m, s);
    ShlZero(s);
    ShlMonotone(1, 1, s);
  }

  lemma BelowInf(fmt: Format, exp: int, m: int)
    requires fmt.Ok() && 1 <= exp < fmt.TopExp() && 0 <= m < Shl(1, fmt.Mu())
    ensures 0 <= Shl(exp - 1, fmt.mant) + m < fmt.InfBits()
  {
    FormatFacts(fmt);
    ShlMonotone(exp + 1, fmt.TopExp(), fmt.mant);
    ShlPlus(exp - 1, 2, fmt.mant);
    ShlPlus(1, 1, fmt.mant);
    ShlMonotone(0, exp - 1, fmt.mant);
  }

  lemma EvenPacked(fmt: Format, s: int, m: int)
    requires fmt.Ok()
    ensures (Shl(s, fmt.mant) + m) % 2 == m % 2
  {
    var h := Shl(s, fmt.mant - 1);
    assert Shl(s, fmt.mant) + m == 2 * h + m;
  }

  /**
   * The rounding step common to the operations. y lies in the last-place interval of mantissa t/2 at exponent exp, t
   * holds one bit more than the mantissa, and sticky tells whether y is above t.
   */
  lemma RoundStep(fmt: Format, y: real, exp: int, t: int, sticky: bool)
    requires fmt.Ok() && 1 <= exp < fmt.TopExp()
    requires 0 <= t < 2 * Shl(1, fmt.Mu()) && (exp > 1 ==> 2 * Shl(1, fmt.mant) <= t)
    requires Shl(t, exp - 1) as real <= 2.0 * y < Shl(t + 1, exp - 1) as real
    requires sticky <==> 2.0 * y != Shl(t, exp - 1) as real
    ensures Nearest(fmt, y, Shl(exp - 1, fmt.mant) + t / 2 + Flag(t % 2 == 1 && (sticky || t / 2 % 2 == 1)))
  {
    hide Units, Nearest, Shl;
    var m, g, s: nat := t / 2, t % 2, exp - 1;
    var base := Shl(s, fmt.mant) + m;
    var up := g == 1 && (sticky || m % 2 == 1);
    LastPlace(fmt, exp, t);
    FormatFacts(fmt);
    BelowInf(fmt, exp, m);
    EvenPacked(fmt, s, m);
    if up {
      if base + 1 < fmt.InfBits() { UnitsStep(fmt, base + 1); }
      NearestFromMidpoints(fmt, y, base + 1);
    } else {
      if base > 0 { UnitsStep(fmt, base - 1); }
      NearestFromMidpoints(fmt, y, base);
    }
  }

  /** At or above the infinity's place the result is infinite. */
  lemma NearestInf(fmt: Format, y: real)
    requires fmt.Ok() && Units(fmt, fmt.InfBits()) as real <= y
    ensures Nearest(fmt, y, fmt.InfBits())
  {
    hide Units;
    FormatFacts(fmt);
    ShlMonotone(1, fmt.TopExp(), fmt.mant);
    ShlMonotone(0, 1, fmt.mant);
    UnitsStep(fmt, fmt.InfBits() - 1);
    NearestFromMidpoints(fmt, y, fmt.InfBits());
  }

  lemma NearestZero(fmt: Format)
    requires fmt.Ok()
    ensures Nearest(fmt, 0.0, 0)
  {
    hide Nearest;
    FormatFacts(fmt);
    ShlMonotone(1, fmt.TopExp(), fmt.mant);
    ShlMonotone(0, 1, fmt.mant);
    UnitsAt(fmt, 1, 0);
    UnitsStep(fmt, 0);
    ShlZero(fmt.mant);
    NearestFromMidpoints(fmt, 0.0, 0);
  }

  /** Rounding off a guard bit and a sticky bit. */
  lemma RoundConvTwo(t: int, sticky: bool)
    ensures RoundConv(2 * t + Flag(sticky), 2) == t / 2 + Flag(t % 2 == 1 && (sticky || t / 2 % 2 == 1))
  {
    var x := 2 * t + Flag(sticky);
    assert Shr(x, 0) == x;
    assert Shr(x, 1) == x / 2 == t;
    assert Shr(x, 2) == Shr(x, 1) / 2 == t / 2;
    assert Low(x, 1) == x - Shl(t, 1) == x - 2 * t by { assert Shl(t, 1) == 2 * Shl(t, 0); }
  }

  lemma HalfRoundsUp(t: int, n: int, sticky: bool)
    requires 0 <= t < 2 * n && n % 2 == 0
    ensures t / 2 + Flag(t % 2 == 1 && (sticky || t / 2 % 2 == 1)) == n <==> t == 2 * n - 1
  {
    if t / 2 == n - 1 { DivModUnique(n - 1, 2, n / 2 - 1, 1); }
  }

  lemma RoundsUpToCarry(fmt: Format, t: int, sticky: bool, r: int)
    requires fmt.Ok() && 0 <= t < 2 * Shl(1, fmt.Mu())
    requires r == t / 2 + Flag(t % 2 == 1 && (sticky || t / 2 % 2 == 1))
    ensures r == Shl(1, fmt.Mu()) <==> t == 2 * Shl(1, fmt.Mu()) - 1
  {
    hide Shl;
    FormatFacts(fmt);
    HalfRoundsUp(t, 2 * Shl(1, fmt.mant), sticky);
  }

  lemma AtLeastInf(fmt: Format, y: real, exp: int, t: int)
    requires fmt.Ok() && 1 <= exp && fmt.TopExp() <= exp && 2 * Shl(1, fmt.mant) <= t
    requires Shl(t, exp - 1) as real <= 2.0 * y
    ensures Units(fmt, fmt.InfBits()) as real <= y
  {
    hide Units;
    FormatFacts(fmt);
    var h, n: nat := Shl(1, fmt.mant), fmt.TopExp() - 1;
    UnitsAt(fmt, fmt.TopExp(), h);
    ShlPlus(n, 1, fmt.mant);
    ShlGrows(t, n, exp - 1);
    ShlMonotone(2 * h, t, n);
    ShlPlus(h, h, n);
  }

  /** The fields the rounded mantissa is packed into: a carry out of the mantissa lands in the exponent. */
  lemma PackRounded(fmt: Format, y: real, exp: int, t: int, sticky: bool, r: int)
    requires fmt.Ok() && 1 <= exp
    requires 0 <= t < 2 * Shl(1, fmt.Mu()) && (exp > 1 ==> 2 * Shl(1, fmt.mant) <= t)
    requires Shl(t, exp - 1) as real <= 2.0 * y < Shl(t + 1, exp - 1) as real
    requires sticky <==> 2.0 * y != Shl(t, exp - 1) as real
    requires r == t / 2 + Flag(t % 2 == 1 && (sticky || t / 2 % 2 == 1))
    ensures exp >= fmt.TopExp() ==> Nearest(fmt, y, fmt.InfBits())
    ensures exp < fmt.TopExp() && r == Shl(1, fmt.Mu()) ==> Nearest(fmt, y, Shl(exp + 1, fmt.mant))
    ensures exp < fmt.TopExp() && Shl(1, fmt.mant) <= r < Shl(1, fmt.Mu())
        ==> Nearest(fmt, y, Shl(exp, fmt.mant) + (r - Shl(1, fmt.mant)))
    ensures exp < fmt.TopExp() && r < Shl(1, fmt.mant) ==> exp == 1 && Nearest(fmt, y, r)
    ensures 0 <= r <= Shl(1, fmt.Mu())
    ensures r == Shl(1, fmt.Mu()) <==> t == 2 * Shl(1, fmt.Mu()) - 1
  {
    hide Units, Nearest;
    FormatFacts(fmt);
    RoundsUpToCarry(fmt, t, sticky, r);
    if exp >= fmt.TopExp() {
      AtLeastInf(fmt, y, exp, t);
      NearestInf(fmt, y);
    } else {
      RoundStep(fmt, y, exp, t, sticky);
      ShlPlus(exp - 1, 1, fmt.mant);
      ShlPlus(exp, 1, fmt.mant);
      ShlZero(fmt.mant);
    }
  }

  lemma RealPositive(a: real, c: real)
    requires a > 0.0 && c > 0.0
    ensures a * c > 0.0
  {
  }

  lemma RealOrder(a: real, b: real, c: real)
    requires c > 0.0
    ensures a * c <= b * c <==> a <= b
    ensures a * c < b * c <==> a < b
    ensures a * c == b * c <==> a == b
  {
    if a < b { RealPositive(b - a, c); }
    if b < a { RealPositive(a - b, c); }
  }

  lemma Quotient(x: int, d: int, lo: int, hi: int)
    requires 0 < d && lo * d <= x < hi * d
    ensures lo as real <= x as real / d as real < hi as real
    ensures x == lo * d <==> x as real / d as real == lo as real
  {
    var y, e := x as real / d as real, d as real;
    assert y * e == x as real;
    assert lo as real * e == (lo * d) as real && hi as real * e == (hi * d) as real;
    RealOrder(lo as real, y, e);
    RealOrder(y, hi as real, e);
  }

  /** A number scaled by 2^k, split at the place of 2^s. */
  lemma RealScale(x: int, k: nat, t: int, s: nat, rest: int)
    requires x == Shl(t, s + k) + rest && 0 <= rest < Shl(1, s + k)
    ensures Shl(t, s) as real <= x as real / Pow2(k) as real < Shl(t + 1, s) as real
    ensures rest == 0 <==> x as real / Pow2(k) as real == Shl(t, s) as real
  {
    ShlShl(t, s, k);
    ShlShl(t + 1, s, k);
    ShlPlus(t, 1, s + k);
    ShlIsTimes(Shl(t, s), k);
    ShlIsTimes(Shl(t + 1, s), k);
    Quotient(x, Pow2(k), Shl(t, s), Shl(t + 1, s));
  }

  /** The zeros above the leading one of a field of w bits: `leading_sign()` of an unsigned `ac_int`. */
  function LeadingZeros(x: int, w: nat): nat {
    if w == 0 || x >= Shl(1, w - 1) then 0 else 1 + LeadingZeros(x, w - 1)
  }

  lemma {:induction false} LeadingZerosShift(x: int, w: nat)
    requires 0 < x < Shl(1, w)
    ensures LeadingZeros(x, w) < w
    ensures Shl(1, w - 1) <= Shl(x, LeadingZeros(x, w)) < Shl(1, w)
    ensures LeadingZeros(x, w) == 0 <==> x >= Shl(1, w - 1)
  {
    if x < Shl(1, w - 1) {
      LeadingZerosShift(x, w - 1);
    }
  }
}
