/** Storing a value in a field of w bits: what `ac_int<w,false>` and `ac_int<w,true>` keep of it. */
module BitInt {
  import opened Arith

  type Byte = i: int | 0 <= i < 0x100

  /** `ac_int<w,true>(x)`. */
  function ToS(x: int, w: nat): int
    requires 1 <= w
  {
    var u := Low(x, w);
    if u >= Shl(1, w - 1) then u - Shl(1, w) else u
  }

  /** Bit i of the two's-complement pattern of x. */
  function Bit(x: int, i: nat): bool {
    Shr(x, i) % 2 == 1
  }

  function Flag(b: bool): int {
    if b then 1 else 0
  }

  lemma FitsU(x: int, w: nat)
    requires 0 <= x < Shl(1, w)
    ensures Low(x, w) == x
  {
    ShlZero(w);
    ShrUnique(x, w, 0, x);
  }

  lemma FitsS(x: int, w: nat)
    requires 1 <= w && -Shl(1, w - 1) <= x < Shl(1, w - 1)
    ensures ToS(x, w) == x
  {
    if x >= 0 {
      FitsU(x, w);
    } else {
      ShlNegate(1, w);
      ShrUnique(x, w, -1, x + Shl(1, w));
    }
  }

  /** The top bit of a field says on which side of half its range the pattern lies. */
  lemma TopBit(x: int, i: nat)
    requires 0 <= x < Shl(1, i + 1)
    ensures Bit(x, i) <==> x >= Shl(1, i)
  {
    ShlZero(i);
    if x < Shl(1, i) {
      ShrUnique(x, i, 0, x);
    } else {
      ShrUnique(x, i, 1, x - Shl(1, i));
    }
  }

  /** Bit w of a number in [-2^w, 2^w) is its sign. */
  lemma SignBit(x: int, w: nat)
    requires -Shl(1, w) <= x < Shl(1, w)
    ensures Bit(x, w) <==> x < 0
  {
    ShlZero(w);
    ShlNegate(1, w);
    if x < 0 {
      ShrUnique(x, w, -1, x + Shl(1, w));
    } else {
      ShrUnique(x, w, 0, x);
    }
  }

  /** Bit i of a negative number that needs no more than i+1 bits and a sign. */
  lemma BelowTop(s: int, i: nat)
    requires -Shl(1, i + 1) <= s < 0
    ensures Bit(s, i) <==> s >= -Shl(1, i)
  {
    hide Shl, Shr;
    ShlStep(1, i);
    ShlNegate(1, i);
    ShlNegate(2, i);
    ShlPlus(1, 1, i);
    if s >= -Shl(1, i) {
      ShrUnique(s, i, -1, s + Shl(1, i));
    } else {
      ShrUnique(s, i, -2, s + Shl(2, i));
    }
  }

  /** `x & y` on non-negative numbers. */
  function And(x: int, y: int): (r: int)
    decreases if x > 0 then x else 0
  {
    if x <= 0 || y <= 0 then 0 else 2 * And(x / 2, y / 2) + (x % 2) * (y % 2)
  }

  lemma AndOnesStep(k: nat, y: int)
    requires 1 <= k && 0 <= y
    ensures And(Shl(1, k) - 1, y) == 2 * And(Shl(1, k - 1) - 1, y / 2) + y % 2
  {
    ShlMonotone(1, 1, k - 1);
    var ones := Shl(1, k - 1) - 1;
    assert Shl(1, k) - 1 == 2 * ones + 1;
    assert (2 * ones + 1) / 2 == ones && (2 * ones + 1) % 2 == 1;
  }

  lemma LowStep(y: int, k: nat)
    requires 1 <= k
    ensures Low(y, k) == 2 * Low(y / 2, k - 1) + y % 2
  {
    ShrSpec(y / 2, k - 1);
    var q, r := Shr(y / 2, k - 1), Low(y / 2, k - 1);
    assert y == Shl(q, k) + (2 * r + y % 2);
    ShrUnique(y, k, q, 2 * r + y % 2);
  }

  /** Masking with k ones keeps the low k bits. */
  lemma {:induction false} AndOnes(k: nat, y: int)
    requires 0 <= y
    ensures And(Shl(1, k) - 1, y) == Low(y, k)
  {
    if k == 0 {
      assert Shl(1, 0) == 1 && Shl(y, 0) == y;
    } else {
      hide And, Shl, Low;
      LowStep(y, k);
      AndOnes(k - 1, y / 2);
      AndOnesStep(k, y);
    }
  }
}
