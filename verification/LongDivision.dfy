/**
 * `iv_udiv`: schoolbook long division on 16-bit digits of numbers kept in 32-bit limbs. Each step estimates one
 * quotient digit from the top digits, subtracts the multiple with a signed 64-bit running borrow, and adds the divisor
 * back when the estimate was one too large.
 */
module LongDivision {
  import opened Arith
  import opened Limbs

  const H: int := 0x1_0000

  /** x moved up by k 16-bit digits. */
  function Digits(x: int, k: nat): int {
    Shl(x, 16 * k)
  }

  lemma DigitStep(x: int, k: nat)
    ensures Digits(x, 0) == x
    ensures Digits(x, k + 1) == H * Digits(x, k) == Digits(H * x, k)
  {
    Shl16(x);
    ShlShl(x, 16, 16 * k);
    ShlTimes(H, x, 16 * k);
  }

  lemma DigitsAdd(x: int, a: nat, b: nat)
    ensures Digits(Digits(x, a), b) == Digits(x, a + b)
  {
    ShlShl(x, 16 * a, 16 * b);
  }

  lemma DigitsOfLimbs(x: int, i: nat)
    ensures Digits(x, 2 * i) == Up(x, i)
    ensures Digits(x, 2 * i + 1) == Up(H * x, i) == H * Up(x, i)
    ensures Digits(x, 2 * i + 2) == Up(B * x, i) == B * Up(x, i)
  {
    DigitStep(x, 2 * i);
    DigitStep(H * x, 2 * i);
    DigitStep(x, 2 * i + 1);
  }

  // ------------------------------------------------------------------ multiply and subtract

  lemma WrapOfProduct(p: int)
    requires 0 <= p <= (B - 1) * (B - 1)
    ensures Wrap64(p) == if p < TWO63 then p else p - TWO64
  {
  }

  lemma WrapOfDifference(x: int, exactProd: int, prod: int)
    requires -B <= x < B && 0 <= exactProd <= (B - 1) * (B - 1)
    requires prod == exactProd || prod == exactProd - TWO64
    ensures Wrap64(x - prod) == if x - exactProd < -TWO63 then x - exactProd + TWO64 else x - exactProd
  {
    var y := if x - exactProd < -TWO63 then x - exactProd + TWO64 else x - exactProd;
    if y == x - prod {
      Wrap64Is(x - prod, y, 0);
    } else if y == x - prod + TWO64 {
      Wrap64Is(x - prod, y, -1);
    } else {
      Wrap64Is(x - prod, y, 1);
    }
  }

  /** `l | (~0 << 32)` for a non-negative l below 2^32. */
  function OrHighOnes(l: int): (r: int)
    requires 0 <= l < B
    ensures r == l - B
  {
    l % B - B
  }

  /** `l ^= 1 << 32`. */
  function FlipBit32(l: int): int {
    if l / B % 2 == 0 then l + B else l - B
  }

  /**
   * One limb of the multiply-subtract: `l` enters as a borrow in [-2^32, 0], is computed modulo 2^64, and the test
   * `ov1` restores the borrow that a wrap-around has lost. `ov2` never holds.
   */
  method MulSubLimb(l0: int, limb: Word, dj: Word, q2: Word) returns (l: int, r: Word)
    requires -B <= l0 <= 0
    ensures -B <= l <= 0
    ensures r + l * B == l0 + limb - dj * q2
  {
    l := Wrap64(l0 + limb);
    var lSign := l < 0;
    var prod := Wrap64(dj * q2);
    ghost var exact := l0 + limb - dj * q2;
    ProductBound(dj, q2);
    assert l == l0 + limb by { Wrap64Is(l0 + limb, l0 + limb, 0); }
    assert prod == if dj * q2 < TWO63 then dj * q2 else dj * q2 - TWO64 by { WrapOfProduct(dj * q2); }
    l := Wrap64(l - prod);
    assert l == if exact < -TWO63 then exact + TWO64 else exact by {
      WrapOfDifference(l0 + limb, dj * q2, prod);
    }
    var ov1 := l >= 0 && (prod < 0 || lSign);
    var ov2 := l < 0 && prod < 0 && lSign;
    assert !ov2;
    assert ov1 == (exact < -TWO63);
    r := Low32(l);
    l := l / B;
    if ov1 {
      l := OrHighOnes(l);
    }
    if ov2 {
      l := FlipBit32(l);
    }
    assert r + l * B == exact;
  }

  /** The limbs `after` with the borrow l above them are the limbs `before` less q2 times the divisor's limbs. */
  ghost predicate Subtracted(after: seq<Word>, l: int, before: seq<Word>, dd: seq<Word>, q2: int) {
    UVal(after) + Up(l, |after|) == UVal(before) - UVal(dd) * q2
  }

  lemma SubtractedStep(after: seq<Word>, r: Word, l1: int, l0: int, seg: seq<Word>, dd: seq<Word>, q2: int, j: nat)
    requires |after| == j < |seg| && j < |dd|
    requires Subtracted(after, l0, seg[..j], dd[..j], q2)
    requires r + l1 * B == l0 + seg[j] - dd[j] * q2
    ensures Subtracted(after + [r], l1, seg[..j + 1], dd[..j + 1], q2)
  {
    hide UVal, Up;
    UValAppend(after, [r]);
    UValOne(r);
    UValSnoc(seg, j);
    UValSnoc(dd, j);
    ghost var p := dd[j] * q2;
    assert Up(r + l1 * B, j) == Up(r, j) + Up(l1, j + 1) by {
      UpPlus(r, B * l1, j);
      UpStep(l1, j);
    }
    assert Up(l0 + seg[j] - p, j) == Up(l0, j) + Up(seg[j], j) - Up(p, j) by {
      UpPlus(l0, seg[j] - p, j);
      UpMinus(seg[j], p, j);
    }
    UpTimes(q2, dd[j], j);
    Distribute(UVal(dd[..j]), Up(dd[j], j), q2);
  }

  lemma NothingSubtracted(q2: int)
    ensures Subtracted([], 0, [], [], q2)
  {
  }

  /** Subtracts q2 times the divisor from the limbs of r1 starting at off; the result is the final borrow. */
  method MulSub(r1: array<Word>, off: nat, d: array<Word>, m: nat, q2: Word) returns (l: int)
    requires r1 != d && m < d.Length && off + m < r1.Length
    modifies r1
    ensures -B <= l <= 0
    ensures r1[..off] == old(r1[..off]) && r1[off + m + 1..] == old(r1[off + m + 1..])
    ensures Subtracted(r1[off..off + m + 1], l, old(r1[off..off + m + 1]), d[..m + 1], q2)
  {
    hide UVal, Up, Subtracted;
    l := 0;
    ghost var seg := r1[off..off + m + 1];
    ghost var dd := d[..m + 1];
    assert Subtracted(r1[off..off], l, seg[..0], dd[..0], q2) by {
      NothingSubtracted(q2);
      assert r1[off..off] == [] && seg[..0] == [] && dd[..0] == [];
    }
    for j := 0 to m + 1
      invariant -B <= l <= 0
      invariant d[..m + 1] == dd
      invariant r1[..off] == old(r1[..off]) && r1[off + j..] == old(r1[off + j..])
      invariant Subtracted(r1[off..off + j], l, seg[..j], dd[..j], q2)
    {
      ghost var l0, before := l, r1[off..off + j];
      assert r1[off + j] == r1[off + j..][0] == seg[j];
      var r;
      l, r := MulSubLimb(l, r1[off + j], d[j], q2);
      r1[off + j] := r;
      SubtractedStep(before, r, l, l0, seg, dd, q2, j);
      assert r1[off..off + (j + 1)] == before + [r];
    }
    assert seg[..m + 1] == seg && dd[..m + 1] == dd;
  }

  method AddLimb(l0: int, limb: Word, dj: Word, sh: int) returns (l: int, r: Word)
    requires 0 <= l0 <= H && (sh == 1 || sh == H)
    ensures 0 <= l <= H
    ensures r + l * B == l0 + limb + dj * sh
  {
    l := l0 + dj * sh;
    l := l + limb;
    r := Low32(l);
    l := l / B;
  }

  /** Adds the divisor, shifted by one digit when sh is 2^16, back to the limbs of r1 starting at off. */
  method AddBack(r1: array<Word>, off: nat, d: array<Word>, m: nat, sh: int) returns (l: int)
    requires r1 != d && m < d.Length && off + m < r1.Length && (sh == 1 || sh == H)
    modifies r1
    ensures 0 <= l <= H
    ensures r1[..off] == old(r1[..off]) && r1[off + m + 1..] == old(r1[off + m + 1..])
    ensures Subtracted(r1[off..off + m + 1], l, old(r1[off..off + m + 1]), d[..m + 1], -sh)
  {
    hide UVal, Up, Subtracted;
    l := 0;
    ghost var seg := r1[off..off + m + 1];
    ghost var dd := d[..m + 1];
    assert Subtracted(r1[off..off], l, seg[..0], dd[..0], -sh) by {
      NothingSubtracted(-sh);
      assert r1[off..off] == [] && seg[..0] == [] && dd[..0] == [];
    }
    for j := 0 to m + 1
      invariant 0 <= l <= H
      invariant d[..m + 1] == dd
      invariant r1[..off] == old(r1[..off]) && r1[off + j..] == old(r1[off + j..])
      invariant Subtracted(r1[off..off + j], l, seg[..j], dd[..j], -sh)
    {
      ghost var l0, before := l, r1[off..off + j];
      assert r1[off + j] == r1[off + j..][0] == seg[j];
      var r;
      l, r := AddLimb(l, r1[off + j], d[j], sh);
      r1[off + j] := r;
      assert dd[j] * -sh == -(dd[j] * sh);
      SubtractedStep(before, r, l, l0, seg, dd, -sh, j);
      assert r1[off..off + (j + 1)] == before + [r];
    }
    assert seg[..m + 1] == seg && dd[..m + 1] == dd;
  }

  // ------------------------------------------------------------------ the estimate

  /** Digits k+1 down to k-2 of the number, as the 64-bit word the estimate divides; digits below 0 read as zero. */
  function TopDigits(s: seq<Word>, k: nat): int
    requires (k + 1) / 2 < |s|
  {
    var i := k / 2;
    var below: Word := if i > 0 then s[i - 1] else 0;
    if k % 2 == 1 then (Low32(s[i + 1] * H) + s[i] / H) * B + (Low32(s[i] * H) + below / H)
    else s[i] * B + below
  }

  lemma TopDigitsTail(s: seq<Word>, k: nat)
    requires 4 <= k && (k + 1) / 2 < |s|
    ensures TopDigits(s, k) == TopDigits(s[1..], k - 2)
  {
  }

  lemma OneLimb(s: seq<Word>)
    requires s != [] && UVal(s) < Digits(1, 2)
    ensures UVal(s) == s[0]
  {
    DigitsOfLimbs(1, 1);
    UValBelow(s, 1);
    assert s[..1] == [s[0]];
  }

  lemma ShrPastLimb(v: int, s0: Word, n: nat)
    requires 32 <= n
    ensures Shr(B * (s0 + B * v), n + 32) == Shr(B * v, n)
  {
    Shl32(s0 + B * v);
    ShrOfShl(s0 + B * v, 32, n);
    Shl32(v);
    Shl32(1);
    ShrDropLow(v, s0, 32, n - 32);
    ShrOfShl(v, 32, n - 32);
  }

  lemma TailBound(s: seq<Word>, k: nat)
    requires 2 <= k && s != [] && UVal(s) < Digits(1, k + 2)
    ensures UVal(s[1..]) < Digits(1, k)
  {
    DigitStep(1, k);
    DigitStep(1, k + 1);
  }

  lemma SmallDigits()
    ensures Digits(1, 3) == H * B && Digits(1, 4) == B * B && Digits(1, 5) == H * B * B && Digits(1, 6) == B * B * B
  {
    DigitStep(1, 0);
    DigitStep(1, 1);
    DigitStep(1, 2);
    DigitStep(1, 3);
    DigitStep(1, 4);
    DigitStep(1, 5);
  }

  lemma TwoLimbs(s: seq<Word>)
    requires 2 <= |s| && UVal(s) < B * B
    ensures UVal(s) == s[0] + B * s[1]
  {
    SmallDigits();
    DigitsOfLimbs(1, 2);
    UValBelow(s, 2);
    assert s[..2][1..] == [s[1]];
    UValOne(s[1]);
  }

  lemma ThreeLimbs(s: seq<Word>)
    requires 3 <= |s| && UVal(s) < B * B * B
    ensures UVal(s) == s[0] + B * (s[1] + B * s[2])
  {
    SmallDigits();
    DigitsOfLimbs(1, 3);
    UValBelow(s, 3);
    assert s[..3][1..][1..] == [s[2]];
    UValOne(s[2]);
  }

  lemma Shr16(x: int)
    ensures Shr(x, 16) == x / H
  {
    DivModEq(x, H);
    Shl16(x / H);
    Shl16(1);
    ShrUnique(x, 16, x / H, x % H);
  }

  lemma Shr48(x: int)
    ensures Shr(B * x, 48) == x / H
  {
    ShrShr(B * x, 32, 16);
    ShrByLimb(B * x);
    Shr16(x);
  }

  lemma OddPacking(hi: Word, mid: Word, lo: Word)
    requires hi < H
    ensures (Low32(hi * H) + mid / H) * B + (Low32(mid * H) + lo / H) == (lo + B * (mid + B * hi)) / H
  {
    assert Low32(hi * H) == hi * H;
    DivModEq(mid, H);
    assert mid * H == (mid / H) * B + (mid % H) * H;
    DivModUnique(mid * H, B, mid / H, (mid % H) * H);
    assert Low32(mid * H) == (mid % H) * H;
    assert lo + B * (mid + B * hi) == (hi * H * B + mid * H + lo / H) * H + lo % H;
    DivModUnique(lo + B * (mid + B * hi), H, hi * H * B + mid * H + lo / H, lo % H);
  }

  lemma TopDigitsLow(s: seq<Word>, k: nat)
    requires 1 <= k <= 3 && (k + 1) / 2 < |s| && UVal(s) < Digits(1, k + 2)
    ensures TopDigits(s, k) == Shr(B * UVal(s), 16 * k)
  {
    hide UVal, Shr, Digits;
    SmallDigits();
    if k == 1 {
      TwoLimbs(s);
      Shr16(B * UVal(s));
      OddPacking(s[1], s[0], 0);
    } else if k == 2 {
      TwoLimbs(s);
      ShrByLimb(B * UVal(s));
    } else {
      ThreeLimbs(s);
      Shr48(UVal(s));
      OddPacking(s[2], s[1], s[0]);
    }
  }

  /** The packed top digits are the value scaled so that digit k lands at bit 32, rounded down. */
  lemma {:induction false} TopDigitsValue(s: seq<Word>, k: nat)
    requires (k + 1) / 2 < |s| && UVal(s) < Digits(1, k + 2)
    ensures TopDigits(s, k) == Shr(B * UVal(s), 16 * k)
    decreases k
  {
    hide Digits, Up, Low32;
    if k == 0 {
      OneLimb(s);
    } else if k <= 3 {
      TopDigitsLow(s, k);
    } else {
      var t := s[1..];
      TailBound(s, k);
      TopDigitsValue(t, k - 2);
      TopDigitsTail(s, k);
      ShrPastLimb(UVal(t), s[0], 16 * (k - 2));
    }
  }

  lemma QuotientDigit(v: int, e: int, q: int, r: int)
    requires 0 <= v < e * H && v == q * e + r && 0 <= r < e
    ensures 0 <= q < H
  {
    MulCancel(q, H, e);
    MulCancel(-1, q, e);
  }

  lemma EstimateLower(v: int, e: int, p: int, n1: int, d1: int, q: int)
    requires 0 < p && 0 <= q && q * e <= v
    requires B * v < n1 * p + p && d1 * p <= B * e
    ensures q * d1 <= n1
  {
    MulMonotone(d1 * p, B * e, q);
    MulMonotone(q * e, v, B);
    assert (q * d1) * p == (d1 * p) * q;
    assert (B * e) * q == (q * e) * B;
    assert (n1 + 1) * p == n1 * p + p;
    MulCancel(q * d1, n1 + 1, p);
  }

  lemma Reorder(a: int, b: int, c: int)
    ensures (a * b) * c == (c * b) * a == (b * c) * a
    ensures a * b == b * a
  {
  }

  lemma EstimateUpper(v: int, e: int, p: int, n1: int, d1: int, q: int, r: int)
    requires 0 < p && 0 <= q < H && v == q * e + r && r < e && d1 >= B
    requires n1 * p <= B * v && B * e < d1 * p + p
    ensures n1 < (q + 2) * d1
  {
    Distribute(q, 1, e);
    MulStrict(v, (q + 1) * e, B);
    MulStrict(B * e, (d1 + 1) * p, q + 1);
    Reorder(q + 1, e, B);
    Reorder(q + 1, d1 + 1, p);
    Distribute(d1, 1, p);
    MulCancel(n1, (q + 1) * (d1 + 1), p);
    Distribute(q + 1, 1, d1);
    Distribute(d1, 1, q + 1);
  }

  /** Division of the top digits overestimates a quotient digit by at most one. */
  lemma Estimate(v: int, e: int, p: int, n1: int, d1: int)
    requires 0 < p && 0 < e && 0 <= v < e * H && d1 >= B
    requires n1 * p <= B * v < n1 * p + p && d1 * p <= B * e < d1 * p + p
    ensures 0 <= v / e < H
    ensures v / e <= n1 / d1 <= v / e + 1
  {
    var q, r := v / e, v % e;
    DivModEq(v, e);
    QuotientDigit(v, e, q, r);
    EstimateLower(v, e, p, n1, d1, q);
    EstimateUpper(v, e, p, n1, d1, q, r);
    DivModEq(n1, d1);
    if n1 / d1 < q { MulMonotone(n1 / d1 + 1, q, d1); }
    if n1 / d1 >= q + 2 { MulMonotone(q + 2, n1 / d1, d1); }
  }

  // ------------------------------------------------------------------ one quotient digit

  /** The divisor's top limb is at index m, its top digit at 2m or 2m+1, and d1 packs its three top digits. */
  ghost predicate Divisor(dv: int, dMss: nat, d1: int) {
    Digits(1, dMss) <= dv < Digits(1, dMss + 1) && d1 == Shr(B * dv, 16 * dMss)
  }

  lemma DivisorTop(dv: int, dMss: nat, d1: int)
    requires Divisor(dv, dMss, d1)
    ensures 0 < dv && d1 >= B
  {
    ShlMonotone(1, 1, 16 * dMss);
    Shl32(Digits(1, dMss));
    ShlTimes(B, 1, 16 * dMss);
    ShrMonotone(Shl(B, 16 * dMss), B * dv, 16 * dMss);
    ShrShl(B, 16 * dMss);
  }

  lemma EstimateAtDigit(v: int, dv: int, dMss: nat, k2: nat, n1: int, d1: int)
    requires Divisor(dv, dMss, d1) && n1 == Shr(B * v, 16 * (dMss + k2))
    requires 0 <= v < Digits(dv, k2) * H
    ensures 0 < Digits(dv, k2)
    ensures 0 <= v / Digits(dv, k2) < H
    ensures 0 < d1
    ensures v / Digits(dv, k2) <= n1 / d1 <= v / Digits(dv, k2) + 1
  {
    DivisorTop(dv, dMss, d1);
    ShlMonotone(1, dv, 16 * k2);
    ShlMonotone(0, dv, 16 * k2);
    var n := 16 * (dMss + k2);
    var e := Digits(dv, k2);
    ShrSpec(B * v, n);
    ShlPlus(n1, 1, n);
    ShlIsTimes(n1, n);
    assert d1 == Shr(B * e, n) by {
      ShlTimes(B, dv, 16 * k2);
      ShrOfShl(B * dv, 16 * k2, 16 * dMss);
    }
    ShrSpec(B * e, n);
    ShlPlus(d1, 1, n);
    ShlIsTimes(d1, n);
    Estimate(v, e, Pow2(n), n1, d1);
  }

  /** The digit the estimate yields, one too large at most. */
  method EstimateDigit(r1: array<Word>, k: nat, d1: int, ghost v: int, ghost dv: int, ghost dMss: nat)
    returns (q1: Word)
    requires (k + 1) / 2 < r1.Length && dMss <= k && Divisor(dv, dMss, d1)
    requires UVal(r1[..]) == v < Digits(1, k + 2) && v < Digits(dv, k - dMss) * H
    ensures q1 < H
    ensures 0 < Digits(dv, k - dMss)
    ensures q1 == v / Digits(dv, k - dMss) || q1 == v / Digits(dv, k - dMss) + 1
  {
    hide UVal, Digits, Divisor, TopDigits;
    var n1 := TopDigits(r1[..], k);
    TopDigitsValue(r1[..], k);
    DivisorTop(dv, dMss, d1);
    EstimateAtDigit(v, dv, dMss, k - dMss, n1, d1);
    q1 := n1 / d1;
    if q1 / H != 0 {
      q1 := q1 - 1;
    }
    assert q1 / H == 0;
  }

  lemma DigitRemainder(v: int, e: int, q1: int)
    requires 0 < e && (q1 == v / e || q1 == v / e + 1)
    ensures v - q1 * e == v % e - if q1 == v / e then 0 else e
    ensures 0 <= v % e < e
  {
    DivModEq(v, e);
    var q := v / e;
    assert (q + 1) * e == q * e + e;
  }

  lemma SignOfDifference(low: int, n: nat, t: int, c: int, r: int, exact: bool)
    requires 0 <= low < Shl(1, n) && 0 <= r < Shl(c, n)
    requires low + Shl(t, n) == r - if exact then 0 else Shl(c, n)
    ensures t < 0 <==> !exact
    ensures exact ==> t < c
    ensures !exact ==> 0 <= t + c
  {
    hide Shl;
    ShlNegate(1, n);
    if exact {
      ShlMonotone(t, -1, n);
      ShlMonotone(c, t, n);
    } else {
      ShlMonotone(t, t, n);
      ShlPlus(t, c, n);
      ShlMonotone(t + c, -1, n);
    }
  }

  /** What the sign of the difference says about the digit, and where the difference lies. */
  lemma AfterSubtract(v: int, low: int, n: nat, t: int, c: int, q1: int)
    requires 0 <= low < Shl(1, n) && 0 < Shl(c, n)
    requires v - q1 * Shl(c, n) == low + Shl(t, n)
    requires q1 == v / Shl(c, n) || q1 == v / Shl(c, n) + 1
    ensures t < 0 <==> q1 == v / Shl(c, n) + 1
    ensures t >= 0 ==> t < c && v / Shl(c, n) == q1
    ensures t < 0 ==> 0 <= t + c
  {
    var e := Shl(c, n);
    DigitRemainder(v, e, q1);
    SignOfDifference(low, n, t, c, v % e, q1 == v / e);
  }

  /** The vector as limbs below off, a window of m+1 limbs, and the limbs above the window. */
  lemma Window(s: seq<Word>, off: nat, m: nat)
    requires off + m + 1 <= |s|
    ensures UVal(s) == UVal(s[..off]) + Up(UVal(s[off..off + m + 1]) + Up(UVal(s[off + m + 1..]), m + 1), off)
  {
    hide UVal;
    UValSplit(s, off);
    UValSplit(s[off..], m + 1);
    assert s[off..][..m + 1] == s[off..off + m + 1] && s[off..][m + 1..] == s[off + m + 1..];
  }

  /** Above limb (k+1)/2 there is nothing. */
  lemma AboveTop(s: seq<Word>, k: nat)
    requires (k + 1) / 2 < |s| && UVal(s) < Digits(1, k + 2)
    ensures UVal(s[(k + 1) / 2 + 1..]) == 0
    ensures UVal(s[(k + 1) / 2..]) == s[(k + 1) / 2]
  {
    var t: nat := (k + 1) / 2 + 1;
    ShlGrows(1, 16 * (k + 2), 32 * t);
    UValBelow(s, t);
    assert s[t - 1..][1..] == s[t..];
  }

  /** Moving the estimate's multiple of the divisor under the window. */
  lemma UnderWindow(v: int, low: int, x: int, dv: int, q1: int, sh: int, k2: nat)
    requires sh == (if k2 % 2 == 1 then H else 1) && v == low + Up(x, k2 / 2)
    ensures Digits(dv, k2) == Up(dv * sh, k2 / 2)
    ensures v - q1 * Digits(dv, k2) == low + Up(x - dv * (q1 * sh), k2 / 2)
  {
    var off := k2 / 2;
    DigitsOfLimbs(dv, off);
    var c := dv * sh;
    assert dv * (q1 * sh) == c * q1;
    UpTimes(q1, c, off);
    UpMinus(x, c * q1, off);
  }

  lemma SubtractedWindow(after: seq<Word>, l: int, before: seq<Word>, dd: seq<Word>, q2: int, above: int)
    requires Subtracted(after, l, before, dd, q2)
    ensures UVal(before) + Up(above, |after|) - UVal(dd) * q2 == UVal(after) + Up(l + above, |after|)
  {
    UpPlus(l, above, |after|);
  }

  /** A number made of a window and a signed part above it has the sign of the upper part. */
  lemma SignFromTop(window: seq<Word>, top: int)
    ensures UVal(window) + Up(top, |window|) < 0 <==> top < 0
    ensures UVal(window) + Up(top, |window|) < Up(1, |window|) ==> top <= 0
  {
    hide UVal, Up;
    UValBound(window);
    var n := |window|;
    UpMonotone(top, -1, n);
    UpMinus(0, 1, n);
    UpMonotone(0, top, n);
    UpMonotone(1, top, n);
    assert Up(0, n) == 0 by { UpZero(n); }
  }

  lemma RemainderBound(v: int, dv: int, dMss: nat, d1: int, k2: nat)
    requires Divisor(dv, dMss, d1) && v < Digits(dv, k2 + 1)
    ensures v < Digits(dv, k2) * H
    ensures v < Digits(1, dMss + k2 + 2)
  {
    DigitStep(dv, k2);
    ShlMonotone(dv, Digits(1, dMss + 1), 16 * (k2 + 1));
    DigitsAdd(1, dMss + 1, k2 + 1);
  }

  /** The limb past the window takes part when the divisor's top digit or the shift is odd. */
  ghost predicate Reaches(k: nat, dMss: nat, off: nat, top: nat, extra: bool) {
    && dMss <= k && off == (k - dMss) / 2 && top == off + dMss / 2 + 1
    && extra == ((k - dMss) % 2 == 1 || dMss % 2 == 1)
  }

  lemma Halves(k: int, c: int, o: int, p: int)
    requires k == 2 * c + o + p && 0 <= o <= 1 && 0 <= p <= 1
    ensures (k + 1) / 2 == c + if o + p == 0 then 0 else 1
  {
  }

  lemma TopLimb(k: nat, dMss: nat, off: nat, top: nat, extra: bool)
    requires Reaches(k, dMss, off, top, extra)
    ensures extra ==> top == (k + 1) / 2
    ensures !extra ==> top == (k + 1) / 2 + 1
  {
    Halves(k, dMss / 2 + off, dMss % 2, (k - dMss) % 2);
  }

  lemma Above(s: seq<Word>, k: nat, top: nat, extra: bool)
    requires (k + 1) / 2 < |s| && UVal(s) < Digits(1, k + 2)
    requires top == (k + 1) / 2 + if extra then 0 else 1
    ensures UVal(s[top..]) == if extra then s[top] else 0
    ensures extra ==> UVal(s[top + 1..]) == 0
  {
    AboveTop(s, k);
  }

  /** The value of a vector whose limbs above the window are at most the one word at top. */
  lemma Assemble(s: seq<Word>, off: nat, m: nat, extra: bool, hi: int)
    requires off + m + 1 <= |s|
    requires if extra then off + m + 1 < |s| && s[off + m + 1] == hi && UVal(s[off + m + 2..]) == 0
             else hi == 0 == UVal(s[off + m + 1..])
    ensures UVal(s) == UVal(s[..off]) + Up(UVal(s[off..off + m + 1]) + Up(hi, m + 1), off)
  {
    hide Up, UVal;
    Window(s, off, m);
    if extra {
      UValTail(s, off + m + 1);
    }
  }

  /** The subtraction, with the limb past the window; the returned l carries the sign of the difference t. */
  method SubtractDigit(r1: array<Word>, d: array<Word>, dMss: nat, k: nat, q1: Word, ghost x: int) returns (l: int)
    requires r1 != d && dMss / 2 < d.Length && (k + 1) / 2 < r1.Length && dMss <= k && q1 < H
    requires UVal(r1[..]) < Digits(1, k + 2)
    requires x == UVal(r1[(k - dMss) / 2..])
    modifies r1
    ensures var off, top := (k - dMss) / 2, (k - dMss) / 2 + dMss / 2 + 1;
      var extra := (k - dMss) % 2 == 1 || dMss % 2 == 1;
      && -B <= l < B && (!extra ==> l <= 0)
      && r1[..off] == old(r1[..off])
      && (if extra then r1[top] == Low32(l) && UVal(r1[top + 1..]) == 0 else UVal(r1[top..]) == 0)
      && UVal(r1[off..top]) + Up(l, dMss / 2 + 1)
         == x - UVal(d[..dMss / 2 + 1]) * (q1 * if (k - dMss) % 2 == 1 then H else 1)
  {
    hide UVal, Up, Digits, Subtracted, Low32;
    var k2: nat := k - dMss;
    var off, m := k2 / 2, dMss / 2;
    var odd2, dOdd := k2 % 2 == 1, dMss % 2 == 1;
    ghost var s0 := r1[..];
    ghost var top: nat := off + m + 1;
    TopLimb(k, dMss, off, top, odd2 || dOdd);
    Above(s0, k, top, odd2 || dOdd);
    ghost var above := UVal(s0[top..]);
    assert x == UVal(s0[off..top]) + Up(above, m + 1) by {
      UValSplit(s0[off..], m + 1);
      assert s0[off..][..m + 1] == s0[off..top] && s0[off..][m + 1..] == s0[top..];
    }
    l := MulSub(r1, off, d, m, q1 * if odd2 then H else 1);
    SubtractedWindow(r1[off..top], l, s0[off..top], d[..m + 1], q1 * if odd2 then H else 1, above);
    ghost var seg1 := r1[off..top];
    assert r1[top..] == s0[top..];
    if odd2 || dOdd {
      assert r1[off + m + 1] == s0[top..][0];
      l := l + r1[off + m + 1];
      r1[off + m + 1] := Low32(l);
      assert r1[top + 1..] == s0[top..][1..] == s0[top + 1..];
    }
    assert r1[off..top] == seg1;
  }

  lemma SmallWord(l: int)
    requires 0 <= l < B
    ensures Low32(l) == l
  {
  }

  lemma CarryLow(l: int, carry: int)
    requires -B <= l < 0 && 0 <= carry <= H && 0 <= l + carry
    ensures Low32(Low32(l) + carry) == l + carry
  {
  }

  /**
   * The value below the window and the window's difference, as a whole, once the difference is known not to be
   * negative.
   */
  lemma StepResult(low: int, t: int, off: nat, v: int, e: int, q1: int)
    requires v - q1 * e == low + Up(t, off) && 0 < e && q1 == v / e
    ensures low + Up(t, off) == v % e
  {
    hide Up;
    DivModEq(v, e);
  }

  /** The add-back after an estimate that was one too large. */
  method CorrectDigit(r1: array<Word>, d: array<Word>, dMss: nat, k: nat, l: int, ghost t: int)
    requires r1 != d && dMss / 2 < d.Length && (k + 1) / 2 < r1.Length && dMss <= k
    requires var off, top := (k - dMss) / 2, (k - dMss) / 2 + dMss / 2 + 1;
      var extra := (k - dMss) % 2 == 1 || dMss % 2 == 1;
      && -B <= l < 0
      && (if extra then r1[top] == Low32(l) && UVal(r1[top + 1..]) == 0 else UVal(r1[top..]) == 0)
      && UVal(r1[off..top]) + Up(l, dMss / 2 + 1) == t
      && 0 <= t + UVal(d[..dMss / 2 + 1]) * (if (k - dMss) % 2 == 1 then H else 1)
    requires t < 0
    modifies r1
    ensures r1[..(k - dMss) / 2] == old(r1[..(k - dMss) / 2])
    ensures UVal(r1[..]) == UVal(r1[..(k - dMss) / 2])
        + Up(t + UVal(d[..dMss / 2 + 1]) * (if (k - dMss) % 2 == 1 then H else 1), (k - dMss) / 2)
  {
    hide UVal, Up, Digits, Subtracted, Low32;
    var k2: nat := k - dMss;
    var off, m := k2 / 2, dMss / 2;
    var odd2, dOdd := k2 % 2 == 1, dMss % 2 == 1;
    var sh := if odd2 then H else 1;
    ghost var top: nat := off + m + 1;
    TopLimb(k, dMss, off, top, odd2 || dOdd);
    ghost var s1 := r1[..];
    ghost var dv := UVal(d[..m + 1]);
    var carry := AddBack(r1, off, d, m, sh);
    ghost var seg := r1[off..top];
    assert UVal(seg) + Up(carry + l, m + 1) == t + dv * sh by {
      SubtractedWindow(seg, carry, s1[off..top], d[..m + 1], -sh, l);
      assert dv * -sh == -(dv * sh);
    }
    SignFromTop(seg, carry + l);
    assert r1[top..] == s1[top..];
    if odd2 || dOdd {
      assert r1[off + m + 1] == s1[top..][0] == Low32(l);
      r1[off + m + 1] := Low32(r1[off + m + 1] + carry);
      CarryLow(l, carry);
      assert r1[top + 1..] == s1[top..][1..] == s1[top + 1..];
    } else {
      UValBound(d[..m + 1]);
    }
    assert r1[off..top] == seg;
    Assemble(r1[..], off, m, odd2 || dOdd, carry + l);
    assert r1[..][..off] == r1[..off] && r1[..][off..top] == r1[off..top];
  }

  lemma Back(x: int, dv: int, q1: int, sh: int)
    ensures x - dv * ((q1 - 1) * sh) == x - dv * (q1 * sh) + dv * sh
  {
    assert (q1 - 1) * sh == q1 * sh - sh;
  }

  lemma AfterSubtractUp(v: int, low: int, off: nat, t: int, c: int, q1: int)
    requires 0 <= low < Up(1, off) && 0 < Up(c, off)
    requires v - q1 * Up(c, off) == low + Up(t, off)
    requires q1 == v / Up(c, off) || q1 == v / Up(c, off) + 1
    ensures t < 0 <==> q1 == v / Up(c, off) + 1
    ensures t >= 0 ==> t < c && v / Up(c, off) == q1
    ensures t < 0 ==> 0 <= t + c
  {
    AfterSubtract(v, low, 32 * off, t, c, q1);
  }

  /** One turn of the digit loop: the digit is exact and the limbs hold the remainder. */
  method DivideStep(r1: array<Word>, d: array<Word>, dMss: nat, d1: int, k: nat, ghost v: int) returns (q1: Word)
    requires r1 != d && dMss / 2 < d.Length && (k + 1) / 2 < r1.Length && dMss <= k
    requires Divisor(UVal(d[..dMss / 2 + 1]), dMss, d1)
    requires UVal(r1[..]) == v < Digits(UVal(d[..dMss / 2 + 1]), k - dMss + 1)
    modifies r1
    ensures q1 < H && 0 < Digits(UVal(d[..dMss / 2 + 1]), k - dMss)
    ensures q1 == v / Digits(UVal(d[..dMss / 2 + 1]), k - dMss)
    ensures UVal(r1[..]) == v % Digits(UVal(d[..dMss / 2 + 1]), k - dMss)
  {
    hide UVal, Up, Digits, Divisor, Low32;
    var k2: nat := k - dMss;
    ghost var off, m, sh := k2 / 2, dMss / 2, if k2 % 2 == 1 then H else 1;
    ghost var dv, low, x := UVal(d[..m + 1]), UVal(r1[..off]), UVal(r1[off..]);
    RemainderBound(v, dv, dMss, d1, k2);
    q1 := EstimateDigit(r1, k, d1, v, dv, dMss);
    UValSplit(r1[..], off);
    assert r1[..][..off] == r1[..off] && r1[..][off..] == r1[off..];
    UnderWindow(v, low, x, dv, q1, sh, k2);
    UValBound(r1[..off]);
    ghost var e, t := Digits(dv, k2), x - dv * (q1 * sh);
    AfterSubtractUp(v, low, off, t, dv * sh, q1);
    var l := SubtractDigit(r1, d, dMss, k, q1, x);
    SignFromTop(r1[off..off + m + 1], l);
    if l < 0 {
      UnderWindow(v, low, x, dv, q1 - 1, sh, k2);
      Back(x, dv, q1, sh);
      CorrectDigit(r1, d, dMss, k, l, t);
      q1 := q1 - 1;
      StepResult(low, t + dv * sh, off, v, e, q1);
    } else {
      SmallWord(l);
      Assemble(r1[..], off, m, k2 % 2 == 1 || dMss % 2 == 1, l);
      assert r1[..][..off] == r1[..off] && r1[..][off..off + m + 1] == r1[off..off + m + 1];
      StepResult(low, t, off, v, e, q1);
    }
  }

  // ------------------------------------------------------------------ the whole division

  /** `for (i = N-1; i > 0 && !a[i]; i--) {}` */
  method MostSignificantLimb(a: array<Word>, n: nat) returns (i: nat)
    requires 1 <= n <= a.Length
    ensures i < n && UVal(a[..n]) == UVal(a[..i + 1])
    ensures UVal(a[..n]) > 0 ==> a[i] != 0
  {
    i := n - 1;
    while i > 0 && a[i] == 0
      invariant i < n
      invariant forall j :: i < j < n ==> a[j] == 0
    {
      i := i - 1;
    }
    UValHighZeros(a[..n], i + 1);
    assert a[..n][..i + 1] == a[..i + 1];
    if i == 0 && a[0] == 0 {
      UValZeros(a[..1]);
    }
  }

  /** The index of the most significant non-zero digit below the limb i. */
  lemma TopDigitBounds(s: seq<Word>, odd: bool)
    requires s != [] && odd == (s[|s| - 1] / H != 0)
    ensures UVal(s) < Digits(1, 2 * (|s| - 1) + (if odd then 1 else 0) + 1)
    ensures s[|s| - 1] != 0 ==> Digits(1, 2 * (|s| - 1) + (if odd then 1 else 0)) <= UVal(s)
  {
    hide UVal;
    var i := |s| - 1;
    var w: int := s[i];
    assert s[..i + 1] == s;
    UValSnoc(s, i);
    UValBound(s[..i]);
    DigitsOfLimbs(1, i);
    UpPlus(w, 1, i);
    UpMonotone(if odd then H else 1, w, i);
    UpMonotone(w + 1, if odd then B else H, i);
    UpStep(1, i);
    DigitsOfLimbs(1, i + 1);
    UpTimes(H, 1, i);
    UpTimes(B, 1, i);
  }

  /** The three top digits of the divisor, packed as the code packs them. */
  lemma PackedDivisor(s: seq<Word>, odd: bool)
    requires s != [] && s[|s| - 1] != 0 && odd == (s[|s| - 1] / H != 0)
    ensures var m := |s| - 1;
      var below: Word := if m > 0 then s[m - 1] else 0;
      Divisor(UVal(s), 2 * m + (if odd then 1 else 0),
              if odd then s[m] * H + below / H else s[m] * B + below)
  {
    hide UVal, Shr, Digits;
    var m, dMss := |s| - 1, 2 * (|s| - 1) + if odd then 1 else 0;
    var below: Word := if m > 0 then s[m - 1] else 0;
    TopDigitBounds(s, odd);
    var t := s + [0];
    UValAppend(s, [0]);
    UValOne(0);
    UpZero(|s|);
    DigitStep(1, dMss + 1);
    TopDigitsValue(t, dMss);
    if odd {
      OddPacking(0, s[m], below);
      DivModEq(below, H);
      assert below + B * s[m] == (s[m] * H + below / H) * H + below % H;
      DivModUnique(below + B * s[m], H, s[m] * H + below / H, below % H);
    }
  }

  /** The digits below index kk of the quotient are still zero. */
  ghost predicate Unset(q: seq<Word>, kk: nat) {
    forall i :: 0 <= i < |q| ==> (2 * i + 1 < kk ==> q[i] == 0) && (2 * i < kk ==> q[i] % H == 0)
  }

  /** Writes quotient digit k2, if the quotient has room for it. */
  method StoreDigit(q: array<Word>, Q: nat, k2: nat, q1: Word)
    requires Q <= q.Length && q1 < H && Unset(q[..Q], k2 + 1)
    modifies q
    ensures Unset(q[..Q], k2) && q[Q..] == old(q[Q..])
    ensures UVal(q[..Q]) == old(UVal(q[..Q])) + if k2 / 2 < Q then Digits(q1, k2) else 0
  {
    hide UVal;
    var i := k2 / 2;
    if i < Q {
      ghost var before := q[..Q];
      assert before[i] == q[i];
      if k2 % 2 == 1 {
        q[i] := q1 * H;
      } else {
        assert q[i] % H == 0;
        q[i] := q[i] + q1; // `|=` on a limb whose low half is zero
      }
      assert q[..Q] == before[i := q[i]];
      UValUpdate(before, i, q[i]);
      DigitsOfLimbs(q1, i);
    }
  }

  /** Digits that have no room change the quotient by a multiple of its modulus. */
  lemma DroppedDigit(q1: int, k2: nat, Q: nat)
    requires Q <= k2 / 2
    ensures Digits(q1, k2) == Up(Digits(q1, k2 - 2 * Q), Q)
  {
    DigitsAdd(q1, k2 - 2 * Q, 2 * Q);
    DigitsOfLimbs(Digits(q1, k2 - 2 * Q), Q);
  }

  lemma CopiedValue(src: seq<Word>, r: seq<Word>)
    requires src != []
    requires |r| <= |src| ==> r == src[..|r|]
    requires |r| > |src| ==> UVal(r) == UVal(src)
    ensures 0 < Up(1, |r|)
    ensures UVal(r) == UVal(src) % Up(1, |r|)
  {
    hide UVal;
    var n := |r|;
    UpMonotone(1, 1, n);
    if n <= |src| {
      UValSplit(src, n);
      UValBound(r);
      ModuloLimbs(UVal(src), UVal(r), UVal(src[n..]), n);
    } else {
      UValBound(src);
      ShlGrows(1, 32 * |src|, 32 * n);
      UpZero(n);
      ModuloLimbs(UVal(src), UVal(r), 0, n);
    }
  }

  /** Copies a number into R limbs, dropping or zero-filling at the top. */
  method CopyRemainder(src: array<Word>, msi: nat, r: array<Word>, R: nat)
    requires src != r && msi < src.Length && R <= r.Length
    modifies r
    ensures 0 < Up(1, R)
    ensures UVal(r[..R]) == UVal(src[..msi + 1]) % Up(1, R)
    ensures r[R..] == old(r[R..])
  {
    if R > 0 {
      var rMsi := if R - 1 < msi then R - 1 else msi;
      for j := 0 to rMsi + 1
        invariant forall i :: 0 <= i < j ==> r[i] == src[i]
        invariant r[R..] == old(r[R..])
      {
        r[j] := src[j];
      }
      for j := rMsi + 1 to R
        invariant forall i :: 0 <= i < j ==> r[i] == if i <= rMsi then src[i] else 0
        invariant r[R..] == old(r[R..])
      {
        r[j] := 0;
      }
      UValHighZeros(r[..R], rMsi + 1);
      assert r[..R][..rMsi + 1] == src[..rMsi + 1];
    }
    CopiedValue(src[..msi + 1], r[..R]);
  }

  /** The dividend is what the remaining limbs hold plus the divisor times the quotient digits found so far. */
  lemma QuotientStep(nv: int, v: int, dv: int, qacc: int, k2: nat, q1: int, e: int)
    requires nv == v + dv * qacc && e == Digits(dv, k2) && 0 < e && q1 == v / e
    ensures nv == v % e + dv * (qacc + Digits(q1, k2))
  {
    DivModEq(v, e);
    ShlTimes(q1, dv, 16 * k2);
    ShlTimes(dv, q1, 16 * k2);
    assert q1 * dv == dv * q1;
    Distribute(qacc, Digits(q1, k2), dv);
  }

  lemma RemainderStep(v: int, e: int)
    requires 0 < e
    ensures v % e < e && 0 <= v % e
  {
  }

  lemma FirstBound(nv: int, dv: int, dMss: nat, d1: int, nMss: nat)
    requires Divisor(dv, dMss, d1) && dMss <= nMss && nv < Digits(1, nMss + 1)
    ensures nv < Digits(dv, nMss + 1 - dMss)
  {
    DigitsAdd(1, dMss, nMss + 1 - dMss);
    ShlMonotone(Digits(1, dMss), dv, 16 * (nMss + 1 - dMss));
  }

  /** The digit loop: leaves the remainder in r1 and the quotient, as far as it fits, in q. */
  method DigitLoop(r1: array<Word>, d: array<Word>, dMss: nat, d1: int, nMss: nat, q: array<Word>, Q: nat,
                   ghost nv: int)
    returns (ghost qacc: int)
    requires r1 != d && q != r1 && q != d && dMss / 2 < d.Length && (nMss + 1) / 2 < r1.Length && dMss <= nMss
    requires Divisor(UVal(d[..dMss / 2 + 1]), dMss, d1)
    requires UVal(r1[..]) == nv < Digits(1, nMss + 1)
    requires Q <= q.Length && forall i :: 0 <= i < Q ==> q[i] == 0
    modifies r1, q
    ensures q[Q..] == old(q[Q..])
    ensures nv == UVal(r1[..]) + UVal(d[..dMss / 2 + 1]) * qacc
    ensures UVal(r1[..]) < UVal(d[..dMss / 2 + 1])
    ensures 0 < Up(1, Q) && UVal(q[..Q]) == qacc % Up(1, Q)
  {
    hide UVal, Up, Digits, Divisor;
    ghost var dd := d[..dMss / 2 + 1];
    ghost var dv := UVal(dd);
    ghost var v, c := nv, 0;
    qacc := 0;
    UValZeros(q[..Q]);
    UpZero(Q);
    FirstBound(nv, dv, dMss, d1, nMss);
    var k: int := nMss;
    while k >= dMss
      invariant dMss - 1 <= k <= nMss
      invariant d[..dMss / 2 + 1] == dd
      invariant UVal(r1[..]) == v < Digits(dv, k + 1 - dMss)
      invariant nv == v + dv * qacc
      invariant Unset(q[..Q], k + 1 - dMss) && q[Q..] == old(q[Q..])
      invariant qacc == UVal(q[..Q]) + Up(c, Q)
    {
      ghost var k2: nat := k - dMss;
      var q1 := DivideStep(r1, d, dMss, d1, k, v);
      ghost var e := Digits(dv, k2);
      QuotientStep(nv, v, dv, qacc, k2, q1, e);
      RemainderStep(v, e);
      v := UVal(r1[..]);
      qacc := qacc + Digits(q1, k2);
      StoreDigit(q, Q, k - dMss, q1);
      if k2 / 2 >= Q {
        DroppedDigit(q1, k2, Q);
        UpPlus(c, Digits(q1, k2 - 2 * Q), Q);
        c := c + Digits(q1, k2 - 2 * Q);
      }
      k := k - 1;
    }
    DigitStep(dv, 0);
    UValBound(q[..Q]);
    UpMonotone(1, 1, Q);
    ModuloLimbs(qacc, UVal(q[..Q]), c, Q);
  }

  /** The words of the partial remainder: the dividend with one zero limb above it. */
  method WorkingCopy(n: array<Word>, nMsi: nat) returns (r1: array<Word>)
    requires nMsi < n.Length
    ensures fresh(r1) && r1.Length == nMsi + 2
    ensures UVal(r1[..]) == UVal(n[..nMsi + 1])
  {
    hide UVal;
    r1 := new Word[nMsi + 2];
    r1[nMsi + 1] := 0;
    var k: nat := nMsi + 1;
    while k > 0
      invariant 0 <= k <= nMsi + 1
      invariant r1[nMsi + 1] == 0
      invariant forall j :: k <= j <= nMsi ==> r1[j] == n[j]
    {
      k := k - 1;
      r1[k] := n[k];
    }
    UValHighZeros(r1[..], nMsi + 1);
    assert r1[..][..nMsi + 1] == n[..nMsi + 1];
  }

  /**
   * The first writes to the results: a zero quotient, and R limbs of n that are written again at the end. Past the end
   * of n the copy reads what happens to lie there.
   */
  method ClearResults(n: array<Word>, q: array<Word>, Q: nat, r: array<Word>, R: nat, beyond: nat -> Word)
    returns (ghost overRead: bool)
    requires q != r && q != n && r != n && Q <= q.Length && R <= r.Length
    modifies q, r
    ensures forall j :: 0 <= j < Q ==> q[j] == 0
    ensures q[Q..] == old(q[Q..]) && r[R..] == old(r[R..])
    ensures overRead <==> n.Length < R
  {
    for i := 0 to Q
      invariant forall j :: 0 <= j < i ==> q[j] == 0
      invariant q[Q..] == old(q[Q..]) && r[R..] == old(r[R..])
    {
      q[i] := 0;
    }
    overRead := false;
    for i := 0 to R
      invariant forall j :: 0 <= j < Q ==> q[j] == 0
      invariant q[Q..] == old(q[Q..]) && r[R..] == old(r[R..])
      invariant overRead <==> n.Length < i
    {
      if i < n.Length {
        r[i] := n[i];
      } else {
        overRead := true;
        r[i] := beyond(i);
      }
    }
  }

  /** The index of the divisor's top digit and the word of its three top digits. */
  method PackDivisor(d: array<Word>, dMsi: nat) returns (dMss: nat, d1: int)
    requires dMsi < d.Length && d[dMsi] != 0
    ensures dMss / 2 == dMsi && Divisor(UVal(d[..dMsi + 1]), dMss, d1)
  {
    hide UVal, Divisor;
    var odd := d[dMsi] / H != 0;
    dMss := 2 * dMsi + if odd then 1 else 0;
    d1 := if odd then d[dMsi] * H else d[dMsi] * B;
    if dMsi > 0 {
      d1 := d1 + if odd then d[dMsi - 1] / H else d[dMsi - 1];
    }
    PackedDivisor(d[..dMsi + 1], odd);
  }

  lemma NoDigits(nv: int, dv: int, nMss: nat, dMss: nat, d1: int, Q: nat)
    requires 0 <= nv < Digits(1, nMss + 1) && Divisor(dv, dMss, d1) && nMss < dMss
    ensures 0 < dv && nv / dv == 0 && nv % dv == nv
    ensures 0 < Up(1, Q) && 0 % Up(1, Q) == 0
  {
    ShlGrows(1, 16 * (nMss + 1), 16 * dMss);
    DivModUnique(nv, dv, 0, nv);
    UpMonotone(1, 1, Q);
  }

  lemma RemainderFits(s: seq<Word>, n: nat, nv: int, dv: int, qacc: int)
    requires n <= |s| && nv == UVal(s) + dv * qacc && UVal(s) < dv && 0 <= nv < Up(1, n)
    ensures UVal(s) == UVal(s[..n])
  {
    hide UVal, Up;
    if qacc <= -1 {
      MulMonotone(qacc, -1, dv);
    }
    MulNonneg(dv, qacc);
    UValBelow(s, n);
  }

  /**
   * `iv_udiv<N,D,Q,R>`: the Q low limbs of the quotient and the R low limbs of the remainder of the unsigned division.
   * With R limbs asked of a shorter n the code reads past the end of n; the results do not depend on what it finds
   * there.
   */
  method UDiv(n: array<Word>, N: nat, d: array<Word>, D: nat, q: array<Word>, Q: nat, r: array<Word>, R: nat,
              beyond: nat -> Word)
    returns (ghost overRead: bool)
    requires 1 <= N <= n.Length && 1 <= D <= d.Length && Q <= q.Length && R <= r.Length
    requires q != r && q != n && q != d && r != n && r != d
    requires UVal(d[..D]) > 0
    modifies q, r
    ensures 0 < Up(1, Q) && UVal(q[..Q]) == UVal(n[..N]) / UVal(d[..D]) % Up(1, Q)
    ensures 0 < Up(1, R) && UVal(r[..R]) == UVal(n[..N]) % UVal(d[..D]) % Up(1, R)
    ensures q[Q..] == old(q[Q..]) && r[R..] == old(r[R..])
    ensures overRead <==> n.Length < R
  {
    hide UVal, Up, Digits, Divisor;
    ghost var nv, dv := UVal(n[..N]), UVal(d[..D]);
    var dMsi := MostSignificantLimb(d, D);
    var nMsi := MostSignificantLimb(n, N);
    overRead := ClearResults(n, q, Q, r, R, beyond);
    var dMss, d1 := PackDivisor(d, dMsi);
    var nMss := 2 * nMsi + if n[nMsi] / H != 0 then 1 else 0;
    TopDigitBounds(n[..nMsi + 1], n[nMsi] / H != 0);
    UValBound(n[..nMsi + 1]);
    if nMss < dMss {
      NoDigits(nv, dv, nMss, dMss, d1, Q);
      UValZeros(q[..Q]);
      CopyRemainder(n, nMsi, r, R);
    } else {
      var r1 := WorkingCopy(n, nMsi);
      ghost var dd := d[..dMsi + 1];
      assert (nMss + 1) / 2 <= nMsi + 1;
      ghost var qacc := DigitLoop(r1, d, dMss, d1, nMss, q, Q, nv);
      assert d[..dMsi + 1] == dd;
      DivModUnique(nv, dv, qacc, UVal(r1[..]));
      RemainderFits(r1[..], nMsi + 1, nv, dv, qacc);
      assert r1[..][..nMsi + 1] == r1[..nMsi + 1];
      CopyRemainder(r1, nMsi, r, R);
    }
  }
}
