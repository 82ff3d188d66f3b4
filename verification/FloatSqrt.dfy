/** `sqrt_generic<AC_RND_CONV,false>`: the square root correctly rounded to nearest, ties to even. */
module FloatSqrt {
  import opened Arith
  import opened BitInt
  import opened FloatFormat
  import opened FloatMult
  import FixedPointCores
  import FloatDiv

  function Sq(m: int): int {
    m * m
  }

  /**
   * b is the square root of x units rounded to nearest, ties to even, said without the root: the midpoint of two
   * magnitudes is on the near side of the root when its square is on the near side of x.
   */
  ghost predicate NearestRoot(fmt: Format, x: int, b: int)
    requires fmt.Ok()
  {
    && 0 <= b <= fmt.InfBits()
    && forall c :: 0 <= c <= fmt.InfBits() && c != b ==>
         && (c < b ==> Sq(Units(fmt, b) + Units(fmt, c)) <= 4 * x)
         && (b < c ==> 4 * x <= Sq(Units(fmt, b) + Units(fmt, c)))
         && (Sq(Units(fmt, b) + Units(fmt, c)) == 4 * x ==> b % 2 == 0)
  }

  /** y lies among the half-integers as the square root of x does. */
  ghost predicate StandsForRoot(x: int, y: real) {
    && 0.0 <= y
    && forall m: int :: 0 <= m ==>
         (m as real <= 2.0 * y <==> Sq(m) <= 4 * x) && (m as real == 2.0 * y <==> Sq(m) == 4 * x)
  }

  /** Rounding anything that stands for the root is rounding the root. */
  lemma StandInRounds(fmt: Format, x: int, y: real, b: int)
    requires fmt.Ok() && StandsForRoot(x, y)
    ensures Nearest(fmt, y, b) <==> NearestRoot(fmt, x, b)
  {
    hide Units, Sq;
    if 0 <= b <= fmt.InfBits() {
      forall c | 0 <= c <= fmt.InfBits() && c != b
        ensures var m, near := Units(fmt, b) + Units(fmt, c), Dist(y, Units(fmt, b)) <= Dist(y, Units(fmt, c));
          && (near <==> (c < b ==> Sq(m) <= 4 * x) && (b < c ==> 4 * x <= Sq(m)))
          && (Dist(y, Units(fmt, b)) == Dist(y, Units(fmt, c)) <==> Sq(m) == 4 * x)
      {
        UnitsStep(fmt, b);
        UnitsStep(fmt, c);
        if c < b { UnitsMonotone(fmt, c, b); } else { UnitsMonotone(fmt, b, c); }
        var m := Units(fmt, b) + Units(fmt, c);
        assert m as real <= 2.0 * y <==> Sq(m) <= 4 * x;
      }
    }
  }

  lemma SquareOfDouble(y: real)
    ensures (2.0 * y) * (2.0 * y) == 4.0 * (y * y)
  {
  }

  lemma SquareAsReal(m: int)
    ensures Sq(m) as real == m as real * m as real
  {
  }

  lemma SquareOrder(a: real, b: real)
    requires 0.0 <= a && 0.0 <= b
    ensures a <= b <==> a * a <= b * b
    ensures a == b <==> a * a == b * b
  {
    assert a * a - b * b == (a - b) * (a + b);
    if a < b { RealPositive(b - a, a + b); }
    if b < a { RealPositive(a - b, a + b); }
  }

  lemma CompareToRoot(m: int, x: int, y: real)
    requires 0 <= m && 0.0 <= y && y * y == x as real
    ensures (m as real <= 2.0 * y <==> Sq(m) <= 4 * x) && (m as real == 2.0 * y <==> Sq(m) == 4 * x)
  {
    hide Sq;
    SquareOrder(m as real, 2.0 * y);
    SquareOfDouble(y);
    SquareAsReal(m);
  }

  /** The real square root, where there is one, is what `NearestRoot` speaks of. */
  lemma NearestRootMeaning(fmt: Format, x: int, y: real, b: int)
    requires fmt.Ok() && 0.0 <= y && y * y == x as real
    ensures Nearest(fmt, y, b) <==> NearestRoot(fmt, x, b)
  {
    hide Nearest, NearestRoot;
    forall m: int | 0 <= m
      ensures (m as real <= 2.0 * y <==> Sq(m) <= 4 * x) && (m as real == 2.0 * y <==> Sq(m) == 4 * x)
    {
      CompareToRoot(m, x, y);
    }
    StandInRounds(fmt, x, y, b);
  }

  lemma IntSquareOrder(a: int, b: int)
    requires 0 <= a && 0 <= b
    ensures a <= b <==> Sq(a) <= Sq(b)
    ensures a == b <==> Sq(a) == Sq(b)
  {
    assert Sq(b) - Sq(a) == (b - a) * (a + b);
    if a < b { MulStrict(0, b - a, a + b); }
    if b < a { MulStrict(0, a - b, a + b); }
  }

  lemma {:induction false} IntRoot(x: int) returns (r: int)
    requires 0 <= x
    ensures 0 <= r && Sq(r) <= x < Sq(r + 1)
    decreases x
  {
    if x == 0 {
      r := 0;
    } else {
      r := IntRoot(x - 1);
      if Sq(r + 1) == x {
        r := r + 1;
        IntSquareOrder(r, r + 1);
      }
    }
  }

  /** Something stands for every root. */
  lemma StandIn(x: int) returns (y: real)
    requires 0 <= x
    ensures StandsForRoot(x, y)
  {
    var r := IntRoot(4 * x);
    y := r as real / 2.0 + if Sq(r) == 4 * x then 0.0 else 0.25;
    forall m: int | 0 <= m
      ensures (m as real <= 2.0 * y <==> Sq(m) <= 4 * x) && (m as real == 2.0 * y <==> Sq(m) == 4 * x)
    {
      hide Sq;
      IntSquareOrder(m, r);
      IntSquareOrder(r + 1, m);
    }
  }

  /** The radicand at the core's scale: four times the number of units, moved by an even number of places. */
  lemma CoreScale(fmt: Format, op: Float, ls: nat, odd: bool, exp: int)
    requires fmt.Ok() && op.Valid(fmt) && op.IsFinite(fmt)
    requires op.Exponent() - ls - fmt.Bias() == 2 * exp + Flag(odd)
    ensures 1 <= fmt.UnitShift()
    ensures var x := Shl(Units(fmt, op.Packed(fmt)), fmt.UnitShift());
      var n := Shl(Shl(Shl(op.Mantissa(fmt), ls), Flag(odd)), fmt.Mu() + 1);
      && (exp + fmt.Bias() >= 1 ==> 4 * x == Shl(n, 2 * (exp + fmt.Bias() - 1)))
      && (exp + fmt.Bias() < 1 ==> Shl(4 * x, 2 * (1 - exp - fmt.Bias())) == n)
  {
    hide Shl, Units;
    FormatFacts(fmt);
    UnitsOfFloat(op, fmt);
    var mu, us := op.Mantissa(fmt), fmt.UnitShift();
    var a: nat, b: nat := op.Exponent() - 1 + us + 2, ls + Flag(odd) + fmt.Mu() + 1;
    ShlShl(mu, op.Exponent() - 1, us);
    ShlShl(mu, op.Exponent() - 1 + us, 2);
    ShlFew(Shl(mu, op.Exponent() - 1 + us));
    ShlShl(mu, ls, Flag(odd));
    ShlShl(mu, ls + Flag(odd), fmt.Mu() + 1);
    var s := exp + fmt.Bias() - 1;
    assert a == b + 2 * s;
    if s >= 0 {
      ShlShl(mu, b, 2 * s);
    } else {
      ShlShl(mu, a, -2 * s);
    }
  }

  lemma ShlSquare(t: int, s: nat)
    ensures Shl(Sq(t), 2 * s) == Sq(Shl(t, s))
  {
    ShiftProduct(t, t, s, s);
  }

  /** The integer root of n, moved to the scale of x, bounds the root of x when the scale grows. */
  lemma RootUp(x: int, y: real, n: int, s: nat, t: int)
    requires StandsForRoot(x, y) && 4 * x == Shl(n, 2 * s) && 0 <= t && Sq(t) <= n < Sq(t + 1)
    ensures Shl(t, s) as real <= 2.0 * y < Shl(t + 1, s) as real
    ensures Sq(t) == n <==> 2.0 * y == Shl(t, s) as real
  {
    hide Shl, Sq;
    ShlSquare(t, s);
    ShlSquare(t + 1, s);
    ShlMonotone(Sq(t), n, 2 * s);
    ShlMonotone(Sq(t + 1), n, 2 * s);
    ShlMonotone(t, t, s);
    ShlMonotone(t + 1, t, s);
  }

  /** The same when the scale shrinks and the root's low bits are dropped. */
  lemma RootDown(x: int, y: real, n: int, k: nat, root: int)
    requires StandsForRoot(x, y) && Shl(4 * x, 2 * k) == n && 0 <= root && Sq(root) <= n < Sq(root + 1)
    ensures Shr(root, k) as real <= 2.0 * y < (Shr(root, k) + 1) as real
    ensures Sq(root) == n && Low(root, k) == 0 <==> 2.0 * y == Shr(root, k) as real
  {
    hide Shl, Sq, Shr, Low;
    var t := Shr(root, k);
    ShrNonneg(root, k);
    ShrSpec(root, k);
    ShlSquare(t, k);
    ShlSquare(t + 1, k);
    ShlMonotone(0, t, k);
    ShlZero(k);
    IntSquareOrder(Shl(t, k), root);
    IntSquareOrder(root + 1, Shl(t + 1, k));
    ShlMonotone(Sq(t), 4 * x, 2 * k);
    ShlMonotone(Sq(t + 1), 4 * x, 2 * k);
    assert t as real <= 2.0 * y <==> Sq(t) <= 4 * x;
    assert (t + 1) as real <= 2.0 * y <==> Sq(t + 1) <= 4 * x;
  }

  lemma RootRangeFacts(w: nat, mu: int, odd: bool)
    requires 2 <= w
    ensures Shl(mu, Flag(odd)) == if odd then 2 * mu else mu
    ensures Shl(1, w) == 2 * Shl(1, w - 1) && 4 <= Shl(1, w) && Shl(1, w) % 2 == 0
    ensures Pow2(w + 1) == 2 * Shl(1, w)
  {
    assert Shl(mu, 0) == mu && Shl(mu, 1) == 2 * mu;
    assert Shl(1, 2) == 4 by { assert Shl(1, 1) == 2; }
    ShlGrows(1, 2, w);
  }

  lemma RootRangeCore(one: int, x: int, n: int, even: bool, root: int)
    requires 4 <= one <= 2 * x && x <= 2 * one - 2 && (even ==> x <= 2 * one - 4)
    requires n == x * (2 * one) && 0 <= root && Sq(root) <= n < Sq(root + 1)
    ensures one <= root <= 2 * one - 2
    ensures even ==> root <= 2 * one - 3
  {
    MulMonotone(one, 2 * x, one);
    assert Sq(one) <= n;
    MulMonotone(x, 2 * one - 2, 2 * one);
    assert Sq(2 * one - 1) == (2 * one - 2) * (2 * one) + 1;
    if even {
      MulMonotone(x, 2 * one - 4, 2 * one);
      assert Sq(2 * one - 2) == (2 * one - 4) * (2 * one) + 4;
      IntSquareOrder(2 * one - 2, root);
    }
    IntSquareOrder(root + 1, one);
    IntSquareOrder(2 * one - 1, root);
  }

  /** How far the root of a normalised radicand reaches: rounding it up can never carry out of the mantissa. */
  lemma RootRange(w: nat, mu: int, odd: bool, even: bool, root: int)
    requires 2 <= w && Shl(1, w - 1) <= mu < Shl(1, w) && (even ==> mu % 2 == 0)
    requires 0 <= root && Sq(root) <= Shl(Shl(mu, Flag(odd)), w + 1) < Sq(root + 1)
    ensures Shl(1, w) <= root <= 2 * Shl(1, w) - 2
    ensures even ==> root <= 2 * Shl(1, w) - 3
  {
    hide Shl, Sq;
    var one := Shl(1, w);
    var x := Shl(mu, Flag(odd));
    RootRangeFacts(w, mu, odd);
    assert x <= 2 * one - 2 && (even ==> x <= 2 * one - 4);
    ShlIsTimes(x, w + 1);
    assert Pow2(w + 1) == 2 * one;
    RootRangeCore(one, x, x * (2 * one), even, root);
  }

  /** With as many result bits as operand bits the core sees the whole radicand. */
  lemma CoreRadicand(w: nat, x: int)
    requires 1 <= w
    ensures FixedPointCores.Leading(FixedPointCores.Radicand(w, x), w + w % 2, w) == Shl(x, w)
  {
    hide Shl, FixedPointCores.Leading;
    var odd: nat := w % 2;
    FixedPointCores.LeadingIsAll(Shl(x, odd), w + odd, w);
    ShlShl(x, odd, w - odd);
    assert 2 * w - (w + odd) == w - odd;
  }

  /** The bits kept of the root, as a position among the result's last places. */
  ghost predicate Placed(y: real, exp: int, t: int, sticky: bool)
    requires 1 <= exp
  {
    && Shl(t, exp - 1) as real <= 2.0 * y < Shl(t + 1, exp - 1) as real
    && (sticky <==> 2.0 * y != Shl(t, exp - 1) as real)
  }

  lemma BelowHidden(h: int, t: int, sticky: bool)
    requires 0 <= t <= 2 * h - 2
    ensures t / 2 + Flag(t % 2 == 1 && (sticky || t / 2 % 2 == 1)) < h
  {
    if t / 2 == h - 1 { assert t % 2 == 0; }
  }

  /** Rounding the kept bits: no carry leaves the mantissa, and a shifted root stays subnormal. */
  method RoundRoot(fmt: Format, ghost y: real, ghost exp: int, t: int, sticky: bool) returns (m: int)
    requires fmt.Ok() && 1 <= exp < fmt.TopExp() && 0 <= t < 2 * Shl(1, fmt.Mu())
    ensures 0 <= m < Shl(1, fmt.mant)
    ensures 2 * Shl(1, fmt.mant) <= t < 2 * Shl(1, fmt.Mu()) - 1 && Placed(y, exp, t, sticky)
      ==> Nearest(fmt, y, Shl(exp, fmt.mant) + m)
    ensures exp == 1 && t <= Shl(1, fmt.Mu()) - 2 && Placed(y, exp, t, sticky) ==> Nearest(fmt, y, m)
  {
    hide Shl, RoundConv, Nearest;
    var rounded := Low(RoundConv(2 * t + Flag(sticky), 2), fmt.Mu());
    m := Low(rounded, fmt.mant);
    LowRange(rounded, fmt.mant);
    RoundConvTwo(t, sticky);
    FormatFacts(fmt);
    ghost var r := t / 2 + Flag(t % 2 == 1 && (sticky || t / 2 % 2 == 1));
    Fields(fmt, r);
    if Placed(y, exp, t, sticky) && (2 * Shl(1, fmt.mant) <= t < 2 * Shl(1, fmt.Mu()) - 1 || exp == 1) {
      PackRounded(fmt, y, exp, t, sticky, r);
      if t <= Shl(1, fmt.Mu()) - 2 { BelowHidden(Shl(1, fmt.mant), t, sticky); }
    }
  }

  /** The exponent, halved towards minus infinity, and what its range says of the operand's normalising shift. */
  lemma HalvedExponent(fmt: Format, op: Float, ls: nat, exp: int, odd: bool)
    requires fmt.Ok() && op.Valid(fmt) && op.IsFinite(fmt) && !op.IsZero()
    requires ls == LeadingZeros(op.Mantissa(fmt), fmt.Mu())
    requires op.Exponent() - ls - fmt.Bias() == 2 * exp + Flag(odd)
    ensures exp + fmt.Bias() < fmt.TopExp()
    ensures exp + fmt.Bias() < 1 ==> ls >= 1 && fmt.mant > fmt.Bias() - 1
  {
    hide LeadingZeros;
    FormatFacts(fmt);
    MantissaBound(fmt, op);
    LeadingZerosShift(op.Mantissa(fmt), fmt.Mu());
  }

  lemma EvenShift(mu: int, ls: nat)
    requires 1 <= ls
    ensures Shl(mu, ls) % 2 == 0
  {
  }

  /** A root of w+1 bits shifted down at least once has at most w. */
  lemma RootShifted(root: int, one: int, k: nat)
    requires 0 <= root <= 2 * one - 3 && 1 <= k
    ensures 0 <= Shr(root, k) <= one - 2
  {
    assert Shr(root, 0) == root;
    ShrShr(root, 1, k - 1);
    ShrNonneg(Shr(root, 1), k - 1);
  }

  /** The size of the root, before and after the shift to the smallest exponent. */
  lemma RootFits(fmt: Format, op: Float, ls: nat, odd: bool, exp: int, root: int)
    requires fmt.Ok() && op.Valid(fmt) && op.IsFinite(fmt) && !op.IsZero()
    requires ls == LeadingZeros(op.Mantissa(fmt), fmt.Mu()) && op.Exponent() - ls - fmt.Bias() == 2 * exp + Flag(odd)
    requires 0 <= root && Sq(root) <= Shl(Shl(Shl(op.Mantissa(fmt), ls), Flag(odd)), fmt.Mu() + 1) < Sq(root + 1)
    ensures var e := exp + fmt.Bias();
      && (e >= 1 ==> 2 * Shl(1, fmt.mant) <= root < 2 * Shl(1, fmt.Mu()) - 1)
      && (e < 1 ==> Shr(root, 1 - e) <= Shl(1, fmt.Mu()) - 2)
  {
    hide Shl, Shr, Sq, LeadingZeros;
    FormatFacts(fmt);
    HalvedExponent(fmt, op, ls, exp, odd);
    FloatDiv.Normalised(fmt, op);
    var e := exp + fmt.Bias();
    if e < 1 { EvenShift(op.Mantissa(fmt), ls); }
    RootRange(fmt.Mu(), Shl(op.Mantissa(fmt), ls), odd, e < 1, root);
    if e < 1 { RootShifted(root, Shl(1, fmt.Mu()), 1 - e); }
  }

  lemma PlacedUp(x: int, y: real, n: int, e: int, t: int)
    requires 1 <= e && StandsForRoot(x, y) && 4 * x == Shl(n, 2 * (e - 1)) && 0 <= t && Sq(t) <= n < Sq(t + 1)
    ensures Placed(y, e, t, Sq(t) != n)
  {
    hide Shl, Sq, StandsForRoot;
    RootUp(x, y, n, e - 1, t);
  }

  lemma PlacedDown(x: int, y: real, n: int, k: nat, root: int)
    requires StandsForRoot(x, y) && Shl(4 * x, 2 * k) == n && 0 <= root && Sq(root) <= n < Sq(root + 1)
    ensures Placed(y, 1, Shr(root, k), Sq(root) != n || Low(root, k) != 0)
  {
    hide Shl, Shr, Low, Sq, StandsForRoot;
    RootDown(x, y, n, k, root);
    ShiftByZero(Shr(root, k));
    ShiftByZero(Shr(root, k) + 1);
  }

  /** Where the root lies among the result's last places, in each of the two branches. */
  lemma RootPlaced(fmt: Format, op: Float, ls: nat, odd: bool, exp: int, root: int, y: real)
    requires fmt.Ok() && op.Valid(fmt) && op.IsFinite(fmt) && !op.IsZero()
    requires ls == LeadingZeros(op.Mantissa(fmt), fmt.Mu()) && op.Exponent() - ls - fmt.Bias() == 2 * exp + Flag(odd)
    requires StandsForRoot(Shl(Units(fmt, op.Packed(fmt)), fmt.UnitShift()), y)
    requires 0 <= root && Sq(root) <= Shl(Shl(Shl(op.Mantissa(fmt), ls), Flag(odd)), fmt.Mu() + 1) < Sq(root + 1)
    ensures var n, e := Shl(Shl(Shl(op.Mantissa(fmt), ls), Flag(odd)), fmt.Mu() + 1), exp + fmt.Bias();
      && (e >= 1 ==> 2 * Shl(1, fmt.mant) <= root < 2 * Shl(1, fmt.Mu()) - 1 && Placed(y, e, root, Sq(root) != n))
      && (e < 1 ==> (Shr(root, 1 - e) <= Shl(1, fmt.Mu()) - 2
        && Placed(y, 1, Shr(root, 1 - e), Sq(root) != n || Low(root, 1 - e) != 0)))
  {
    hide Shl, Shr, Low, Units, Sq, StandsForRoot, LeadingZeros, Placed;
    var n := Shl(Shl(Shl(op.Mantissa(fmt), ls), Flag(odd)), fmt.Mu() + 1);
    var x := Shl(Units(fmt, op.Packed(fmt)), fmt.UnitShift());
    var e := exp + fmt.Bias();
    RootFits(fmt, op, ls, odd, exp, root);
    CoreScale(fmt, op, ls, odd, exp);
    if e >= 1 {
      PlacedUp(x, y, n, e, root);
    } else {
      PlacedDown(x, y, n, 1 - e, root);
    }
  }

  /** The mantissa moved to the core's scale, by an even number of places from the operand's. */
  ghost function CoreOperand(fmt: Format, op: Float, ls: nat, odd: bool): int {
    Shl(Shl(Shl(op.Mantissa(fmt), ls), Flag(odd)), fmt.Mu() + 1)
  }

  /** The shift to the smallest exponent, when the root is below it; the lost bits join the sticky bit. */
  method AlignRoot(fmt: Format, root: int, rem: bool, exp0: int) returns (exp: int, t: int, sticky: bool, normal: bool)
    requires fmt.Ok() && 0 <= root
    ensures normal <==> exp0 + fmt.Bias() >= 1 || fmt.mant <= fmt.Bias() - 1
    ensures normal ==> exp == exp0 && t == root && sticky == rem
    ensures !normal ==> exp + fmt.Bias() == 1 && t == Shr(root, 1 - (exp0 + fmt.Bias())) && 0 <= t <= root
    ensures !normal ==> (sticky <==> rem || Low(root, 1 - (exp0 + fmt.Bias())) != 0)
  {
    hide Shr, Low;
    exp, t, sticky, normal := exp0, root, rem, true;
    if fmt.mant > fmt.Bias() - 1 { // -min_exp
      var expOver := 1 - fmt.Bias() - exp;
      if expOver > 0 {
        sticky := sticky || Low(t, expOver) != 0;
        t := Shr(t, expOver);
        exp := 1 - fmt.Bias();
        normal := false;
        ShrNonneg(root, expOver);
      }
    }
  }

  /** The number of units whose root, in units, is the root of the operand. */
  ghost function SqrtRadicand(fmt: Format, op: Float): int
    requires fmt.Ok()
  {
    FormatFacts(fmt);
    Shl(Units(fmt, op.Packed(fmt)), fmt.UnitShift())
  }

  lemma RadicandNonneg(fmt: Format, op: Float)
    requires fmt.Ok() && op.Valid(fmt) && op.IsFinite(fmt)
    ensures 0 <= SqrtRadicand(fmt, op)
  {
    hide Units, Shl;
    FormatFacts(fmt);
    UnitsOfFloat(op, fmt);
    ShlMonotone(op.Mantissa(fmt), 0, op.Exponent() - 1);
    ShlMonotone(Units(fmt, op.Packed(fmt)), 0, fmt.UnitShift());
  }

  /** What the root found and the exponent say about the exact root. */
  lemma RootSpec(fmt: Format, op: Float, root: int, rem: bool, exp: int, odd: bool) returns (y: real)
    requires fmt.Ok() && op.Valid(fmt) && 0 <= root
    requires var ls := LeadingZeros(op.Mantissa(fmt), fmt.Mu());
      && op.Exponent() - ls - fmt.Bias() == 2 * exp + Flag(odd)
      && (!op.IsZero() ==> (Sq(root) <= CoreOperand(fmt, op, ls, odd) < Sq(root + 1)
        && (rem <==> Sq(root) != CoreOperand(fmt, op, ls, odd))))
    ensures op.IsFinite(fmt) && !op.IsZero() ==> (
      && StandsForRoot(SqrtRadicand(fmt, op), y)
      && exp + fmt.Bias() < fmt.TopExp()
      && (exp + fmt.Bias() < 1 ==> fmt.mant > fmt.Bias() - 1)
      && (exp + fmt.Bias() >= 1 ==>
        2 * Shl(1, fmt.mant) <= root < 2 * Shl(1, fmt.Mu()) - 1 && Placed(y, exp + fmt.Bias(), root, rem))
      && (exp + fmt.Bias() < 1 ==> (Shr(root, 1 - (exp + fmt.Bias())) <= Shl(1, fmt.Mu()) - 2
        && Placed(y, 1, Shr(root, 1 - (exp + fmt.Bias())), rem || Low(root, 1 - (exp + fmt.Bias())) != 0))))
  {
    hide Shl, Shr, Low, LeadingZeros, StandsForRoot, Placed, Units, Sq;
    y := 0.0;
    if op.IsFinite(fmt) && !op.IsZero() {
      var ls := LeadingZeros(op.Mantissa(fmt), fmt.Mu());
      RadicandNonneg(fmt, op);
      y := StandIn(SqrtRadicand(fmt, op));
      HalvedExponent(fmt, op, ls, exp, odd);
      RootPlaced(fmt, op, ls, odd, exp, root, y);
    }
  }

  lemma ZeroRoot(fmt: Format, op: Float)
    requires fmt.Ok() && op.IsZero()
    ensures NearestRoot(fmt, SqrtRadicand(fmt, op), 0)
  {
    hide Nearest, NearestRoot, Units;
    FormatFacts(fmt);
    ShlZero(fmt.mant);
    ZeroUnits(fmt);
    ShlZero(fmt.UnitShift());
    NearestZero(fmt);
    NearestRootMeaning(fmt, 0, 0.0, 0);
  }

  /** `op1_mu[mu_bits-1] = true`. */
  function WithTopBit(mu: int, w: nat): int
    requires 1 <= w
  {
    if Bit(mu, w - 1) then mu else mu + Shl(1, w - 1)
  }

  lemma WithTopBitFits(mu: int, w: nat)
    requires 1 <= w && 0 <= mu < Shl(1, w)
    ensures Shl(1, w - 1) <= WithTopBit(mu, w) < Shl(1, w)
    ensures Shl(1, w - 1) <= mu ==> WithTopBit(mu, w) == mu
  {
    TopBit(mu, w - 1);
  }

  /** The integer root of the normalised mantissa, and the exponent, halved towards minus infinity. */
  method RootOfMantissa(fmt: Format, op: Float) returns (root: int, rem: bool, exp: int, ghost odd: bool)
    requires fmt.Ok() && op.Valid(fmt)
    ensures 0 <= root < 2 * Shl(1, fmt.Mu())
    ensures var ls := LeadingZeros(op.Mantissa(fmt), fmt.Mu());
      && op.Exponent() - ls - fmt.Bias() == 2 * exp + Flag(odd)
      && (!op.IsZero() ==> (Sq(root) <= CoreOperand(fmt, op, ls, odd) < Sq(root + 1)
        && (rem <==> Sq(root) != CoreOperand(fmt, op, ls, odd))))
  {
    hide Shl, Shr, LeadingZeros, FixedPointCores.Leading;
    var w := fmt.Mu();
    FormatFacts(fmt);
    var ls := LeadingZeros(op.Mantissa(fmt), w);
    var low := Low(Shl(op.Mantissa(fmt), ls), w);
    var mu := WithTopBit(low, w);
    FloatDiv.Normalised(fmt, op);
    WithTopBitFits(low, w);
    var e := op.Exponent() - ls - fmt.Bias();
    var expOdd := e % 2 == 1;
    exp := e / 2;
    odd := expOdd;
    RootRangeFacts(w, mu, expOdd);
    ShlStep(1, w);
    var mi := Low(Shl(mu, Flag(expOdd)), w + 1);
    FitsU(Shl(mu, Flag(expOdd)), w + 1);
    root, rem := FixedPointCores.Sqrt(w + 1, w + 1, mi);
    CoreRadicand(w + 1, mi);
  }

  /**
   * `sqrt_generic`: for a finite operand that is positive, or zero of either sign, the result is the square root
   * rounded to nearest with ties to even. It always carries the positive sign, the root of -0 included, where section
   * 5.4.1 of IEEE 754-2008 asks for -0.
   */
  method Sqrt(fmt: Format, op: Float) returns (r: Float)
    requires fmt.Ok() && op.Valid(fmt)
    ensures r.Valid(fmt) && !r.sign
    ensures r.IsNaN(fmt) <==> op.IsNaN(fmt) || (op.sign && !op.IsZero())
    ensures r.IsInf(fmt) <==> op.IsInf(fmt) && !op.sign
    ensures op.IsFinite(fmt) && (!op.sign || op.IsZero()) ==>
      NearestRoot(fmt, SqrtRadicand(fmt, op), r.Packed(fmt))
  {
    hide Shl, Shr, Low, LeadingZeros, NearestRoot, Nearest, StandsForRoot, Placed, Units, Sq, CoreOperand;
    hide SqrtRadicand;
    FormatFacts(fmt);
    var root, rem, exp0, odd := RootOfMantissa(fmt, op);
    var exp, t, sticky, normal := AlignRoot(fmt, root, rem, exp0);
    ghost var y := RootSpec(fmt, op, root, rem, exp0, odd);
    var place := if op.IsFinite(fmt) && !op.IsZero() then exp + fmt.Bias() else 1;
    var m := RoundRoot(fmt, y, place, t, sticky);
    var nan := op.IsNaN(fmt) || (op.sign && !op.IsZero());
    var exception := nan || op.IsInf(fmt);
    exp := exp + fmt.Bias();
    var eR := if exception then fmt.TopExp() else if op.IsZero() || !normal then 0 else exp;
    if exception || op.IsZero() {
      m := if nan then Shl(1, fmt.mant - 1) else 0;
    }
    r := Float(false, eR, m);
    SpecialFields(fmt);
    if op.IsFinite(fmt) && (!op.sign || op.IsZero()) {
      if op.IsZero() {
        ZeroRoot(fmt, op);
      } else {
        StandInRounds(fmt, SqrtRadicand(fmt, op), y, r.Packed(fmt));
      }
    }
  }

  lemma OnlyZeroRoot(fmt: Format, op: Float, r: Float)
    requires fmt.Ok() && op.IsZero() && r.Valid(fmt) && NearestRoot(fmt, SqrtRadicand(fmt, op), r.Packed(fmt))
    ensures r.e == 0 && r.m == 0
  {
    hide Units, Shl;
    var b := r.Packed(fmt);
    ShlZero(fmt.mant);
    ZeroUnits(fmt);
    ShlZero(fmt.UnitShift());
    ShlMonotone(0, r.e, fmt.mant);
    if b > 0 {
      UnitsMonotone(fmt, 0, b);
      IntSquareOrder(Units(fmt, b), 0);
    }
  }

  /** The root of -0 is +0 in every format. */
  method RootOfMinusZero(fmt: Format) returns (r: Float)
    requires fmt.Ok()
    ensures r == Float(false, 0, 0)
  {
    var op := Float(true, 0, 0);
    FormatFacts(fmt);
    r := Sqrt(fmt, op);
    OnlyZeroRoot(fmt, op, r);
  }
}
