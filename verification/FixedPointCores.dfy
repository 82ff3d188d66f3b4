/** The digit-recurrence divider and square root under the floating-point operations, at every width. */
module FixedPointCores {
  import opened Arith
  import opened BitInt

  // ------------------------------------------------------------------ division

  /** The non-restoring state: a quotient prefix and a partial remainder that may be one divisor too low. */
  ghost predicate NonRestoring(op1: int, d: int, p: int, q: int, steps: nat) {
    && -d <= p < d
    && Shl(op1, steps) == q * d + (if p < 0 then p + d else p)
    && 0 <= q
  }

  lemma NonRestoringFirst(op1: int, d: int)
    requires 0 <= op1 < 2 * d
    ensures NonRestoring(op1, d, op1 - d, Flag(op1 - d >= 0), 0)
  {
  }

  lemma NonRestoringStep(op1: int, d: int, p: int, q: int, steps: nat, p': int)
    requires NonRestoring(op1, d, p, q, steps)
    requires p' == 2 * p + if p < 0 then d else -d
    ensures NonRestoring(op1, d, p', 2 * q + Flag(p' >= 0), steps + 1)
  {
    assert Shl(op1, steps + 1) == 2 * (q * d) + 2 * (if p < 0 then p + d else p);
    assert (2 * q + Flag(p' >= 0)) * d == 2 * (q * d) + if p' >= 0 then d else 0;
  }

  /** The quotient of a numerator below twice the divisor, with w+1 fraction bits, has w+2 bits. */
  lemma QuotientWidth(op1: int, d: int, p: int, q: int, steps: nat)
    requires 0 <= op1 < 2 * d && NonRestoring(op1, d, p, q, steps)
    ensures q < Shl(1, steps + 1)
  {
    ShlTimes(d, 2, steps);
    ShlMonotone(op1 + 1, 2 * d, steps);
    ShlPlus(op1, 1, steps);
    ShlMonotone(1, 1, steps);
    var t := Shl(2, steps);
    assert t == Shl(1, steps + 1) by { ShlPlus(1, 1, steps); }
    assert t * d == d * t;
    if q >= t { MulMonotone(t, q, d); }
  }

  lemma SimWidth(op1: int, d: int, n: nat)
    requires 0 <= op1 < 2 * d
    ensures 0 <= Shl(op1, n) / d < Shl(1, n + 1)
  {
    ShlMonotone(0, op1, n);
    ShlTimes(d, 2, n);
    ShlMonotone(op1 + 1, 2 * d, n);
    ShlPlus(op1, 1, n);
    ShlMonotone(1, 1, n);
    ShlPlus(1, 1, n);
    var x, t := Shl(op1, n), Shl(1, n + 1);
    DivModEq(x, d);
    assert t * d == d * t;
    if x / d >= t { MulMonotone(t, x / d, d); }
    if x / d <= -1 { MulMonotone(x / d, -1, d); }
  }

  /** The simulation divider: the quotient with w+1 fraction bits, and whether nothing is left. */
  method DivSim(w: nat, op1: int, op2: int) returns (quotient: int, exact: bool)
    requires 0 <= op1 < Shl(1, w) && 0 < op2 < Shl(1, w) && op1 < 2 * op2
    ensures quotient == Shl(op1, w + 1) / op2 && 0 <= quotient < Shl(1, w + 2)
    ensures exact <==> Shl(op1, w + 1) % op2 == 0
  {
    var op1Mi := Low(op1, 2 * w + 1);
    assert op1Mi == op1 by {
      ShlGrows(1, w, 2 * w + 1);
      FitsU(op1, 2 * w + 1);
    }
    op1Mi := Low(Shl(op1Mi, w + 1), 2 * w + 1);
    assert op1Mi == Shl(op1, w + 1) by {
      ShlMonotone(op1 + 1, Shl(1, w), w + 1);
      ShlPlus(op1, 1, w + 1);
      ShlMonotone(1, op1, w + 1);
      ShlShl(1, w, w + 1);
      FitsU(Shl(op1, w + 1), 2 * w + 1);
    }
    SimWidth(op1, op2, w + 1);
    quotient := Low(op1Mi / op2, w + 2);
    FitsU(op1Mi / op2, w + 2);
    exact := op1Mi % op2 == 0;
  }

  lemma Widths(w: nat)
    ensures Shl(1, w + 1) == 2 * Shl(1, w) && Shl(1, w + 2) == 4 * Shl(1, w)
  {
  }

  lemma StateBounds(op1: int, d: int, p: int, q: int, i: nat, w: nat)
    requires 0 <= op1 < 2 * d && NonRestoring(op1, d, p, q, i) && i <= w + 1
    ensures -d <= p < d && 0 <= q < Shl(1, w + 2)
  {
    QuotientWidth(op1, d, p, q, i);
    ShlGrows(1, i + 1, w + 2);
  }

  /**
   * After the last step the prefix is the whole quotient; nothing is left when the remainder is 0 or one divisor low.
   */
  lemma NonRestoringLast(op1: int, d: int, p: int, q: int, n: nat)
    requires 0 < d && NonRestoring(op1, d, p, q, n)
    ensures q == Shl(op1, n) / d
    ensures Shl(op1, n) % d == 0 <==> p == 0 || p == -d
  {
    DivModUnique(Shl(op1, n), d, q, if p < 0 then p + d else p);
  }

  lemma Halved(p: int)
    ensures Shr(2 * p, 1) == p
  {
    assert Shr(2 * p, 0) == 2 * p;
  }

  /**
   * `fx_div`, the synthesis divider, agrees with the simulation divider on quotient and exactness. The partial
   * remainder stays in [-D, D), so bit W of its W+2 bits is its sign and no shift loses a bit.
   */
  method Div(w: nat, op1: int, op2: int) returns (quotient: int, exact: bool)
    requires 0 <= op1 < Shl(1, w) && 0 < op2 < Shl(1, w) && op1 < 2 * op2
    ensures quotient == Shl(op1, w + 1) / op2 && 0 <= quotient < Shl(1, w + 2)
    ensures exact <==> Shl(op1, w + 1) % op2 == 0
  {
    hide NonRestoring, Shl, ToS, Bit, Shr;
    Widths(w);
    var r := ToS(op1, w + 2);
    var rNeg := false;
    var d := op2;
    var negD := ToS(-d, w + 1);
    var q := 0;
    FitsS(op1, w + 2);
    FitsS(-d, w + 1);
    FitsS(d, w + 1);
    ghost var p := 0;
    for i := 0 to w + 2
      invariant i == 0 ==> r == op1 && !rNeg && q == 0
      invariant i > 0 ==> NonRestoring(op1, d, p, q, i - 1) && r == 2 * p && (rNeg <==> p < 0) && -d <= p < d
    {
      ghost var p' := r + if rNeg then d else -d;
      ghost var q' := 2 * q + Flag(p' >= 0);
      if i == 0 {
        NonRestoringFirst(op1, d);
      } else {
        NonRestoringStep(op1, d, p, q, i - 1, p');
      }
      StateBounds(op1, d, p', q', i, w);
      FitsS(p', w + 2);
      FitsU(q', w + 2);
      SignBit(p', w);
      FitsS(2 * p', w + 2);
      r := ToS(r + if rNeg then ToS(d, w + 1) else negD, w + 2);
      q := Low(2 * q + Flag(r >= 0), w + 2);
      rNeg := Bit(r, w);
      r := ToS(2 * r, w + 2);
      p := p';
    }
    quotient := q;
    exact := r == 0 || (rNeg && Shr(r, 1) == negD);
    Halved(p);
    NonRestoringLast(op1, d, p, q, w + 1);
    StateBounds(op1, d, p, q, w + 1, w);
  }

  // ------------------------------------------------------------------ square root

  /** The top 2j bits of a zw-bit radicand, continued with zeros. */
  function Leading(z: int, zw: nat, j: nat): int {
    Shr(Shl(z, 2 * j), zw)
  }

  /** r is the root of the bits seen so far and d what is left of them. */
  ghost predicate Root(z: int, zw: nat, j: nat, r: int, d: int) {
    && r * r + d == Leading(z, zw, j)
    && 0 <= d <= 2 * r
    && 0 <= r < Shl(1, j)
  }

  lemma RootFirst(z: int, zw: nat)
    requires 0 <= z < Shl(1, zw)
    ensures Root(z, zw, 0, 0, 0)
  {
    ShlZero(zw);
    ShrUnique(z, zw, 0, z);
  }

  /** The two bits that come next. */
  function NextBits(z: int, zw: nat, j: nat): int {
    Leading(z, zw, j + 1) - 4 * Leading(z, zw, j)
  }

  lemma RootStep(z: int, zw: nat, j: nat, r: int, d: int, b: int)
    requires Root(z, zw, j, r, d) && b == NextBits(z, zw, j) && 0 <= b <= 3
    ensures 4 * d + b >= 4 * r + 1 ==> Root(z, zw, j + 1, 2 * r + 1, 4 * d + b - (4 * r + 1))
    ensures 4 * d + b < 4 * r + 1 ==> Root(z, zw, j + 1, 2 * r, 4 * d + b)
  {
    assert (2 * r + 1) * (2 * r + 1) == 4 * (r * r) + 4 * r + 1;
    assert (2 * r) * (2 * r) == 4 * (r * r);
  }

  /** The bits at the top of the register after j shifts are the next two of the radicand. */
  lemma RegisterTop(z: int, zw: nat, j: nat)
    requires 2 <= zw && 0 <= z < Shl(1, zw)
    ensures 0 <= NextBits(z, zw, j) <= 3
    ensures 0 <= Low(Shl(z, 2 * j), zw) < Shl(1, zw)
    ensures Shr(Low(Shl(z, 2 * j), zw), zw - 2) == NextBits(z, zw, j)
    ensures Low(Shl(Low(Shl(z, 2 * j), zw), 2), zw) == Low(Shl(z, 2 * (j + 1)), zw)
  {
    var x := Shl(z, 2 * j);
    ShrSpec(x, zw);
    var q, l := Shr(x, zw), Low(x, zw);
    var t, u := Shr(l, zw - 2), Low(l, zw - 2);
    ShrSpec(l, zw - 2);
    var one := Shl(1, zw - 2);
    assert Shl(1, zw - 1) == 2 * one && Shl(1, zw) == 4 * one;
    ShlTimes(t, 1, zw - 2);
    assert 0 <= t <= 3 by {
      if t >= 4 { MulMonotone(4, t, one); }
      if t <= -1 { MulMonotone(t, -1, one); }
    }
    assert Shl(x, 2) == 4 * x == Shl(z, 2 * (j + 1)) by {
      assert Shl(x, 1) == 2 * x;
      ShlShl(z, 2 * j, 2);
    }
    ShlTimes(4, q, zw);
    ShlPlus(4 * q, t, zw);
    ShlShl(t, zw - 2, 2);
    assert Shl(Shl(t, zw - 2), 2) == 4 * Shl(t, zw - 2) by { assert Shl(Shl(t, zw - 2), 1) == 2 * Shl(t, zw - 2); }
    assert 4 * x == Shl(4 * q + t, zw) + 4 * u;
    ShrUnique(4 * x, zw, 4 * q + t, 4 * u);
    assert 4 * l == Shl(t, zw) + 4 * u;
    ShrUnique(4 * l, zw, t, 4 * u);
    assert Shl(l, 2) == 4 * l by { assert Shl(l, 1) == 2 * l; }
  }

  /** A field of w bits keeps at most w of a run of ones. */
  lemma LowOnes(a: nat, w: nat)
    ensures Low(Shl(1, a) - 1, w) == Shl(1, if a < w then a else w) - 1
  {
    ShlMonotone(1, 1, a);
    ShlMonotone(1, 1, w);
    if a <= w {
      ShlGrows(1, a, w);
      FitsU(Shl(1, a) - 1, w);
    } else {
      ShlShl(1, a - w, w);
      var h := Shl(1, a - w);
      ShlPlus(h - 1, 1, w);
      ShrUnique(Shl(1, a) - 1, w, h - 1, Shl(1, w) - 1);
    }
  }

  /** The number of ones in the mask before step j. */
  function MaskBits(wr: nat, j: nat): nat {
    if 2 * j < wr + 2 then 2 * j else wr + 2
  }

  lemma MaskStep(wr: nat, j: nat)
    ensures Low(4 * (Shl(1, MaskBits(wr, j)) - 1) + 3, wr + 2) == Shl(1, MaskBits(wr, j + 1)) - 1
  {
    var m := MaskBits(wr, j);
    assert Shl(1, m + 1) == 2 * Shl(1, m) && Shl(1, m + 2) == 4 * Shl(1, m);
    LowOnes(m + 2, wr + 2);
  }

  /** The mask never removes a bit of a value that fits under it. */
  lemma MaskKeeps(wr: nat, j: nat, y: int)
    requires 0 <= y < Shl(1, MaskBits(wr, j))
    ensures And(Shl(1, MaskBits(wr, j)) - 1, y) == y
  {
    AndOnes(MaskBits(wr, j), y);
    FitsU(y, MaskBits(wr, j));
  }

  /** What is left of the radicand, before and after the next step, fits the mask and the register. */
  lemma MaskRoom(wr: nat, j: nat, r: int, d: int)
    requires 0 <= r < Shl(1, j) && 0 <= d <= 2 * r && j < wr
    ensures 4 * d < Shl(1, MaskBits(wr, j + 1)) <= Shl(1, wr + 2)
    ensures 4 * r + 3 <= Shl(1, MaskBits(wr, j + 1))
    ensures 4 * r + 3 < Shl(1, wr + 1) && 2 * r + 1 < Shl(1, wr)
  {
    var one := Shl(1, j);
    assert Shl(1, j + 1) == 2 * one && Shl(1, j + 2) == 4 * one && Shl(1, j + 3) == 8 * one;
    ShlGrows(1, j + 1, wr);
    ShlGrows(1, j + 2, wr + 1);
    ShlGrows(1, MaskBits(wr, j + 1), wr + 2);
    if j == 0 {
      assert Shl(1, 2) == 4 by { assert Shl(1, 1) == 2; }
      ShlGrows(1, 2, MaskBits(wr, 1));
    } else if j == 1 {
      assert Shl(1, 4) == 16 by { assert Shl(1, 1) == 2 && Shl(1, 2) == 4 && Shl(1, 3) == 8; }
      ShlGrows(1, 4, MaskBits(wr, 2));
    } else {
      ShlGrows(1, j + 3, MaskBits(wr, j + 1));
    }
  }

  lemma RootRange(z: int, zw: nat, j: nat, r: int, d: int)
    requires Root(z, zw, j, r, d)
    ensures 0 <= d <= 2 * r && 0 <= r < Shl(1, j)
  {
  }

  /** `x & 0x3`. */
  function LowTwo(x: int): int {
    x % 4
  }

  lemma LowTwoIs(b: int)
    requires 0 <= b <= 3
    ensures LowTwo(b) == b
  {
  }

  /** The top bit of the unsigned difference is set exactly when the difference is negative. */
  lemma TrialDifference(x: int, wr: nat)
    requires -Shl(1, wr + 1) <= x < Shl(1, wr + 1)
    ensures x >= 0 ==> Low(x, wr + 2) == x
    ensures Bit(Low(x, wr + 2), wr + 1) <==> x < 0
  {
    assert Shl(1, wr + 2) == 2 * Shl(1, wr + 1);
    if x >= 0 {
      FitsU(x, wr + 2);
      TopBit(x, wr + 1);
    } else {
      ShlNegate(1, wr + 2);
      ShrUnique(x, wr + 2, -1, x + Shl(1, wr + 2));
      TopBit(x + Shl(1, wr + 2), wr + 1);
    }
  }

  /** One turn of the loop. The trial difference never wraps into a pattern whose top bit misleads. */
  method SqrtStep(wr: nat, zw: nat, r0: int, maskD0: int, d0: int, z0: int, ghost z: int, ghost j: nat)
    returns (r: int, maskD: int, d: int, zNext: int)
    requires 2 <= zw && 0 <= z < Shl(1, zw) && j < wr
    requires Root(z, zw, j, r0, d0) && maskD0 == Shl(1, MaskBits(wr, j)) - 1 && z0 == Low(Shl(z, 2 * j), zw)
    ensures Root(z, zw, j + 1, r, d) && maskD == Shl(1, MaskBits(wr, j + 1)) - 1
    ensures zNext == Low(Shl(z, 2 * (j + 1)), zw)
  {
    hide Root, MaskBits, Shl, Shr, Low, And, Bit, Leading;
    assert 0 <= d0 <= 2 * r0 && 0 <= r0 < Shl(1, j) by { RootRange(z, zw, j, r0, d0); }
    MaskRoom(wr, j, r0, d0);
    RegisterTop(z, zw, j);
    ghost var m, b := MaskBits(wr, j + 1), NextBits(z, zw, j);
    r := Low(2 * r0, wr);
    FitsU(2 * r0, wr);
    maskD := Low(4 * maskD0 + 3, wr + 2);
    MaskStep(wr, j);
    d := And(maskD, Low(4 * d0, wr + 2)) + LowTwo(Shr(z0, zw - 2));
    FitsU(4 * d0, wr + 2);
    MaskKeeps(wr, j + 1, 4 * d0);
    LowTwoIs(b);
    assert d == 4 * d0 + b;
    RootStep(z, zw, j, r0, d0, b);
    var t := Low(d - (Low(2 * r, wr + 1) + 1), wr + 2);
    FitsU(2 * r, wr + 1);
    TrialDifference(d - (2 * r + 1), wr);
    if !Bit(t, wr + 1) {
      assert 4 * d0 + b >= 4 * r0 + 1 && t == d - (2 * r + 1);
      r := r + 1; // `r |= 1` on an even r
      MaskKeeps(wr, j + 1, t);
      d := And(maskD, t);
    }
    zNext := Low(Shl(z0, 2), zw);
    assert zNext == Low(Shl(z0, 2), zw);
  }

  /** The radicand `fx_sqrt` works on: x moved to an even number of bits. */
  function Radicand(w: nat, x: int): int {
    Shl(x, w % 2)
  }

  lemma RadicandFits(w: nat, x: int)
    requires 1 <= w && 0 <= x < Shl(1, w)
    ensures Low(x, w + w % 2) == x
    ensures Low(Shl(x, w % 2), w + w % 2) == Radicand(w, x)
    ensures 0 <= Radicand(w, x) < Shl(1, w + w % 2)
  {
    hide Shl, Shr, Low;
    ShlGrows(1, w, w + w % 2);
    FitsU(x, w + w % 2);
    ShlStep(1, w);
    ShiftByZero(x);
    ShlFew(x);
    FitsU(Radicand(w, x), w + w % 2);
  }

  lemma SqrtStart(wr: nat, z: int, zw: nat)
    requires 0 <= z < Shl(1, zw)
    ensures Shl(1, MaskBits(wr, 0)) - 1 == 0 && Low(Shl(z, 2 * 0), zw) == z
  {
    FitsU(z, zw);
  }

  lemma NothingAbove(z: int, zw: nat, w: nat)
    requires 1 <= w && zw == w + w % 2 && 0 <= z < Shl(1, zw)
    ensures Shr(z, 2 * w) == 0
  {
    ShlGrows(1, zw, 2 * w);
    ShlZero(2 * w);
    ShrUnique(z, 2 * w, 0, z);
  }

  lemma RootResult(z: int, zw: nat, wr: nat, r: int, d: int)
    requires Root(z, zw, wr, r, d)
    ensures 0 <= r < Shl(1, wr)
    ensures r * r <= Leading(z, zw, wr) < (r + 1) * (r + 1)
    ensures d != 0 <==> r * r != Leading(z, zw, wr)
  {
    assert (r + 1) * (r + 1) == r * r + 2 * r + 1;
  }

  /**
   * `fx_sqrt`: the root of the leading 2*wr bits of the radicand, rounded down. The flag is whether those bits are more
   * than a square; the test on what is left in z never contributes.
   */
  method Sqrt(w: nat, wr: nat, x: int) returns (root: int, rem: bool)
    requires 1 <= w && 0 <= x < Shl(1, w)
    ensures 0 <= root < Shl(1, wr)
    ensures root * root <= Leading(Radicand(w, x), w + w % 2, wr) < (root + 1) * (root + 1)
    ensures rem <==> root * root != Leading(Radicand(w, x), w + w % 2, wr)
  {
    hide Root, MaskBits, Shl, Shr, Low, Leading;
    var zw := w + w % 2;
    var z := Low(x, zw);
    RadicandFits(w, x);
    z := Low(Shl(z, w % 2), zw);
    ghost var z0 := z;
    var maskD, d, r := 0, 0, 0;
    RootFirst(z0, zw);
    assert maskD == Shl(1, MaskBits(wr, 0)) - 1 && z == Low(Shl(z0, 2 * 0), zw) by { SqrtStart(wr, z0, zw); }
    for i := 0 to wr
      invariant Root(z0, zw, i, r, d)
      invariant maskD == Shl(1, MaskBits(wr, i)) - 1
      invariant z == Low(Shl(z0, 2 * i), zw)
    {
      r, maskD, d, z := SqrtStep(wr, zw, r, maskD, d, z, z0, i);
    }
    RegisterTop(z0, zw, wr);
    NothingAbove(z, zw, w);
    rem := d != 0 || Shr(z, 2 * w) != 0;
    root := r;
    RootResult(z0, zw, wr, r, d);
  }

  /** With enough result bits the leading bits are the whole radicand, scaled. */
  lemma LeadingIsAll(z: int, zw: nat, wr: nat)
    requires zw <= 2 * wr
    ensures Leading(z, zw, wr) == Shl(z, 2 * wr - zw)
  {
    ShlShl(z, 2 * wr - zw, zw);
    ShrShl(Shl(z, 2 * wr - zw), zw);
  }

  ghost predicate IsSquare(y: int) {
    exists s: int :: 0 <= s && s * s == y
  }

  /** A square between root^2 and (root+1)^2 is root^2. */
  lemma SquareBetween(root: int, y: int)
    requires 0 <= root && root * root <= y < (root + 1) * (root + 1)
    ensures IsSquare(y) <==> y == root * root
  {
    if s: int :| 0 <= s && s * s == y {
      if s < root { MulStrict(s, root, root); MulMonotone(s, root, s); }
      if s > root { MulMonotone(root + 1, s, root + 1); MulMonotone(root + 1, s, s); }
    }
  }

  /** The radicand as a number of the leading bits' scale is a square: the root found is exact. */
  ghost predicate ExactRoot(z: int, zw: nat, wr: nat)
    requires 2 * wr <= zw
  {
    exists s: int :: 0 <= s && Shl(s * s, zw - 2 * wr) == z
  }

  lemma LeadingIsHigh(z: int, zw: nat, wr: nat)
    requires 2 * wr <= zw
    ensures Leading(z, zw, wr) == Shr(z, zw - 2 * wr)
  {
    ShrOfShl(z, 2 * wr, zw - 2 * wr);
  }

  /**
   * With fewer result bits than half the radicand's, the flag `fx_sqrt` returns means "inexact" on exactly those
   * radicands whose leading bits are no square or whose other bits are all zero; on the others it reports an exact root
   * of a number that has none in the result's places.
   */
  lemma FlagMeaning(z: int, zw: nat, wr: nat, root: int, rem: bool)
    requires 0 <= z && 2 * wr <= zw && 0 <= root
    requires root * root <= Leading(z, zw, wr) < (root + 1) * (root + 1)
    requires rem <==> root * root != Leading(z, zw, wr)
    ensures (rem <==> !ExactRoot(z, zw, wr)) <==> !(IsSquare(Leading(z, zw, wr)) && Low(z, zw - 2 * wr) != 0)
  {
    hide Shl, Shr, Low, Leading;
    var k := zw - 2 * wr;
    LeadingIsHigh(z, zw, wr);
    ShrSpec(z, k);
    SquareBetween(root, Leading(z, zw, wr));
    if s: int :| 0 <= s && Shl(s * s, k) == z { ShrShl(s * s, k); }
    if IsSquare(Leading(z, zw, wr)) && Low(z, k) == 0 { assert Shl(root * root, k) == z; }
  }

  lemma SmallShifts()
    ensures Shl(1, 4) == 16 && Shl(1, 1) == 2 && Radicand(4, 5) == 5 && Leading(5, 4, 1) == 1
  {
    assert Shl(1, 2) == 4;
    LeadingIsHigh(5, 4, 1);
    assert Shr(5, 1) == 2;
  }

  /** A concrete input: with one result bit the root of 5 is 1, and the flag does not say that this is inexact. */
  method FlagMissed() returns (root: int, rem: bool)
    ensures root == 1 && !rem && !IsSquare(5) && !ExactRoot(Radicand(4, 5), 4, 1)
  {
    SmallShifts();
    root, rem := Sqrt(4, 1, 5);
    SquareBetween(2, 5);
    forall s: int | 0 <= s ensures Shl(s * s, 2) != 5 {
      assert Shl(s * s, 1) == 2 * (s * s);
    }
  }
}
