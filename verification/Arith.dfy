/**
 * Shifts by a variable number of bits on unbounded integers, and the few facts about products, quotients and
 * remainders that the other modules share.
 */
module Arith {
  /** `x << n` without truncation. */
  function Shl(x: int, n: nat): int {
    if n == 0 then x else 2 * Shl(x, n - 1)
  }

  /** `x >> n`: the arithmetic shift, which rounds towards minus infinity. */
  function Shr(x: int, n: nat): int {
    if n == 0 then x else Shr(x, n - 1) / 2
  }

  /** The low n bits of x, as `ac_int<n,false>(x)` keeps them. */
  function Low(x: int, n: nat): (r: int)
  {
    x - Shl(Shr(x, n), n)
  }

  /** The order is kept strictly, in both directions. */
  lemma {:induction false} ShlMonotone(x: int, y: int, n: nat)
    ensures x <= y <==> Shl(x, n) <= Shl(y, n)
    ensures x == y <==> Shl(x, n) == Shl(y, n)
    ensures 0 <= x <==> 0 <= Shl(x, n)
    ensures 0 < x <==> 0 < Shl(x, n)
    ensures 0 <= x ==> x <= Shl(x, n)
  {
    if n > 0 { ShlMonotone(x, y, n - 1); }
  }

  function Pow2(n: nat): (r: int)
    ensures r >= 1
  {
    ShlMonotone(1, 1, n);
    Shl(1, n)
  }

  // ------------------------------------------------------------------ shifts

  lemma ShiftByZero(x: int)
    ensures Shl(x, 0) == x && Shr(x, 0) == x && Low(x, 0) == 0
  {
  }

  lemma ShlStep(x: int, n: nat)
    ensures Shl(x, n + 1) == 2 * Shl(x, n)
  {
  }

  lemma ShlFew(x: int)
    ensures Shl(x, 0) == x && Shl(x, 1) == 2 * x && Shl(x, 2) == 4 * x
  {
    assert Shl(x, 1) == 2 * Shl(x, 0);
  }

  lemma {:induction false} ShlZero(n: nat)
    ensures Shl(0, n) == 0
  {
    if n > 0 { ShlZero(n - 1); }
  }

  lemma {:induction false} ShlPlus(x: int, y: int, n: nat)
    ensures Shl(x + y, n) == Shl(x, n) + Shl(y, n)
  {
    if n > 0 { ShlPlus(x, y, n - 1); }
  }

  lemma {:induction false} ShlNegate(x: int, n: nat)
    ensures Shl(-x, n) == -Shl(x, n)
  {
    if n > 0 { ShlNegate(x, n - 1); }
  }

  lemma ShlMinus(x: int, y: int, n: nat)
    ensures Shl(x - y, n) == Shl(x, n) - Shl(y, n)
  {
    ShlPlus(x - y, y, n);
  }

  lemma {:induction false} ShlShl(x: int, a: nat, b: nat)
    ensures Shl(Shl(x, a), b) == Shl(x, a + b)
  {
    if b > 0 { ShlShl(x, a, b - 1); }
  }

  lemma {:induction false} ShlTimes(c: int, x: int, n: nat)
    ensures Shl(c * x, n) == c * Shl(x, n)
  {
    if n > 0 {
      ShlTimes(c, x, n - 1);
      var y := Shl(x, n - 1);
      assert 2 * (c * y) == c * (2 * y);
    }
  }

  lemma ShlGrows(x: int, a: nat, b: nat)
    requires 0 <= x && a <= b
    ensures Shl(x, a) <= Shl(x, b)
  {
    ShlShl(x, a, b - a);
    ShlMonotone(x, x, a);
    ShlMonotone(Shl(x, a), 0, b - a);
  }

  lemma ShlIsTimes(x: int, n: nat)
    ensures Shl(x, n) == x * Pow2(n)
  {
    ShlTimes(x, 1, n);
  }

  lemma Pow2Monotone(a: nat, b: nat)
    requires a <= b
    ensures Pow2(a) <= Pow2(b)
  {
    ShlGrows(1, a, b);
  }

  lemma Shl8(x: int)
    ensures Shl(x, 8) == 0x100 * x
  {
    assert Shl(x, 1) == 2 * x;
    assert Shl(x, 2) == 4 * x;
    assert Shl(x, 3) == 8 * x;
    assert Shl(x, 4) == 16 * x;
    assert Shl(x, 5) == 32 * x;
    assert Shl(x, 6) == 64 * x;
    assert Shl(x, 7) == 128 * x;
  }

  lemma Shl16(x: int)
    ensures Shl(x, 16) == 0x1_0000 * x
  {
    Shl8(x);
    ShlShl(x, 8, 8);
    Shl8(Shl(x, 8));
  }

  lemma Shl32(x: int)
    ensures Shl(x, 32) == 0x1_0000_0000 * x
  {
    Shl16(x);
    ShlShl(x, 16, 16);
    Shl16(Shl(x, 16));
  }

  lemma {:induction false} ShrSpec(x: int, n: nat)
    ensures Shl(Shr(x, n), n) <= x < Shl(Shr(x, n) + 1, n)
    ensures 0 <= Low(x, n) < Shl(1, n)
    ensures x == Shl(Shr(x, n), n) + Low(x, n)
  {
    if n > 0 {
      ShrSpec(x, n - 1);
      var h, q := Shr(x, n - 1), Shr(x, n);
      assert h == 2 * q || h == 2 * q + 1;
      ShlPlus(q, q, n - 1);
      ShlPlus(2 * q, 1, n - 1);
      ShlPlus(2 * q + 1, 1, n - 1);
      ShlPlus(q, 1, n - 1);
      ShlPlus(q, 1, n);
    }
  }

  lemma ShrUnique(x: int, n: nat, q: int, r: int)
    requires x == Shl(q, n) + r && 0 <= r < Shl(1, n)
    ensures Shr(x, n) == q && Low(x, n) == r
  {
    ShrSpec(x, n);
    var p := Shr(x, n);
    ShlPlus(p, 1, n);
    ShlPlus(q, 1, n);
    ShlMonotone(p + 1, q, n);
    ShlMonotone(q + 1, p, n);
  }

  lemma ShrShl(x: int, n: nat)
    ensures Shr(Shl(x, n), n) == x && Low(Shl(x, n), n) == 0
  {
    ShlMonotone(1, 1, n);
    ShrUnique(Shl(x, n), n, x, 0);
  }

  lemma {:induction false} ShrShr(x: int, a: nat, b: nat)
    ensures Shr(Shr(x, a), b) == Shr(x, a + b)
  {
    if b > 0 { ShrShr(x, a, b - 1); }
  }

  lemma {:induction false} ShrMonotone(x: int, y: int, n: nat)
    requires x <= y
    ensures Shr(x, n) <= Shr(y, n)
  {
    if n > 0 { ShrMonotone(x, y, n - 1); }
  }

  lemma {:induction false} ShrNonneg(x: int, n: nat)
    requires 0 <= x
    ensures 0 <= Shr(x, n) <= x
  {
    if n > 0 { ShrNonneg(x, n - 1); }
  }

  /** Bits below position n do not reach a shift by n or more. */
  lemma ShrDropLow(a: int, low: int, n: nat, m: nat)
    requires 0 <= low < Shl(1, n)
    ensures Shr(Shl(a, n) + low, n + m) == Shr(a, m)
  {
    ShrUnique(Shl(a, n) + low, n, a, low);
    ShrShr(Shl(a, n) + low, n, m);
  }

  /** What two right shifts in a row drop is what one shift by the sum drops. */
  lemma DroppedBits(x: int, a: nat, b: nat)
    ensures Shr(Shr(x, a), b) == Shr(x, a + b)
    ensures Low(x, a + b) == Shl(Low(Shr(x, a), b), a) + Low(x, a)
    ensures Low(x, a + b) != 0 <==> Low(x, a) != 0 || Low(Shr(x, a), b) != 0
  {
    hide Shl, Shr, Low;
    ShrShr(x, a, b);
    ShrSpec(x, a);
    ShrSpec(Shr(x, a), b);
    ShrSpec(x, a + b);
    var t, l := Shr(x, a + b), Low(Shr(x, a), b);
    ShlPlus(Shl(t, b), l, a);
    ShlShl(t, b, a);
    ShlMonotone(0, l, a);
    ShlZero(a);
  }

  /** The low j bits of the low k bits. */
  lemma LowOfLow(x: int, j: nat, k: nat)
    requires j <= k
    ensures Low(Low(x, k), j) == Low(x, j)
  {
    hide Shl, Shr, Low;
    ShrSpec(x, k);
    ShrSpec(Low(x, k), j);
    var q, l := Shr(x, k), Low(x, k);
    ShlShl(q, k - j, j);
    ShlPlus(Shl(q, k - j), Shr(l, j), j);
    ShrUnique(x, j, Shl(q, k - j) + Shr(l, j), Low(l, j));
  }

  /** A left shift followed by a longer right shift. */
  lemma ShrOfShl(x: int, a: nat, b: nat)
    ensures Shr(Shl(x, a), a + b) == Shr(x, b)
  {
    ShrShl(x, a);
    ShrShr(Shl(x, a), a, b);
  }

  // ------------------------------------------------------------------ products and quotients

  function Abs(x: int): int {
    if x < 0 then -x else x
  }

  lemma MulNonneg(a: int, b: int)
    requires 0 <= a && 0 <= b
    ensures 0 <= a * b
  {
  }

  lemma MulMonotone(a: int, b: int, c: int)
    requires a <= b && 0 <= c
    ensures a * c <= b * c
  {
    MulNonneg(b - a, c);
  }

  lemma MulStrict(a: int, b: int, c: int)
    requires a < b && 0 < c
    ensures a * c < b * c
  {
    MulMonotone(a + 1, b, c);
  }

  /** Cancelling a non-negative factor in a strict inequality. */
  lemma MulCancel(a: int, b: int, c: int)
    requires a * c < b * c && 0 <= c
    ensures a < b
  {
    if a >= b {
      MulMonotone(b, a, c);
    }
  }

  /** Quotient and remainder are the only pair with the defining property. */
  lemma DivModUnique(x: int, d: int, q: int, r: int)
    requires 0 < d && x == q * d + r && 0 <= r < d
    ensures x / d == q && x % d == r
  {
    var q', r' := x / d, x % d;
    assert x == d * q' + r';
    assert (q - q') * d == r' - r;
    if q < q' {
      MulMonotone(q + 1, q', d);
      assert false;
    }
    if q > q' {
      MulMonotone(q' + 1, q, d);
      assert false;
    }
  }

  lemma Distribute(a: int, b: int, c: int)
    ensures (a + b) * c == a * c + b * c
  {
  }

  lemma DivModEq(x: int, d: int)
    requires 0 < d
    ensures x == (x / d) * d + x % d && 0 <= x % d < d
  {
  }
}
