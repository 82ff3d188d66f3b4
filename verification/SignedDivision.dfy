/**
 * `iv_div` and `iv_rem`: signed division as C++ defines it, truncating towards zero. Operands of one or two limbs use
 * the machine's 64-bit division; longer ones divide magnitudes with `iv_udiv` and then give the result its sign.
 */
module SignedDivision {
  import opened Arith
  import opened Limbs
  import opened LimbOps
  import opened LongDivision

  // ------------------------------------------------------------------ truncated division

  /** C++ `a / b`. */
  function Quot(a: int, b: int): int
    requires b != 0
  {
    if (a < 0) != (b < 0) then -(Abs(a) / Abs(b)) else Abs(a) / Abs(b)
  }

  /** C++ `a % b`. */
  function Rem(a: int, b: int): int
    requires b != 0
  {
    if a < 0 then -(Abs(a) % Abs(b)) else Abs(a) % Abs(b)
  }

  /** What truncation towards zero means. */
  ghost predicate Truncates(a: int, b: int, q: int, r: int) {
    && a == q * b + r
    && Abs(r) < Abs(b)
    && (r != 0 ==> (r < 0 <==> a < 0))
  }

  lemma QuotRemTruncate(a: int, b: int)
    requires b != 0
    ensures Truncates(a, b, Quot(a, b), Rem(a, b))
  {
    DivModEq(Abs(a), Abs(b));
    var q, r := Abs(a) / Abs(b), Abs(a) % Abs(b);
    assert (-q) * (-Abs(b)) == q * Abs(b) && (-q) * Abs(b) == -(q * Abs(b)) && q * (-Abs(b)) == -(q * Abs(b));
  }

  lemma Magnitudes(a: int, b: int, q: int, r: int, s: int)
    requires a == q * b + r && (r != 0 ==> (r < 0 <==> a < 0))
    requires s == if (a < 0) != (b < 0) then -q else q
    ensures Abs(a) == s * Abs(b) + Abs(r)
  {
    if b < 0 {
      assert q * b == -(q * -b) && (-q) * (-b) == q * b;
    } else {
      assert (-q) * b == -(q * b);
    }
  }

  /** There is only one such quotient and remainder. */
  lemma TruncatesUnique(a: int, b: int, q: int, r: int)
    requires b != 0 && Truncates(a, b, q, r)
    ensures q == Quot(a, b) && r == Rem(a, b)
  {
    var s := if (a < 0) != (b < 0) then -q else q;
    Magnitudes(a, b, q, r, s);
    DivModUnique(Abs(a), Abs(b), s, Abs(r));
  }

  lemma QuotientRange(x: int, y: int)
    requires 0 <= x && 0 < y
    ensures 0 <= x / y <= x && 0 <= x % y <= x
  {
    DivModEq(x, y);
    var q := x / y;
    if q <= -1 { MulMonotone(q, -1, y); }
    MulMonotone(1, y, q);
    MulNonneg(q, y);
    assert 1 * q == q && y * q == q * y;
  }

  lemma QuotBound(a: int, b: int)
    requires b != 0
    ensures Abs(Quot(a, b)) <= Abs(a)
    ensures b > 0 && a >= 0 ==> 0 <= Quot(a, b)
    ensures Abs(Rem(a, b)) <= Abs(a) && Abs(Rem(a, b)) < Abs(b)
  {
    QuotientRange(Abs(a), Abs(b));
  }

  /** A most negative numerator over -1 is the only quotient that outgrows the numerator. */
  lemma QuotFits(a: int, b: int, half: int)
    requires b != 0 && -half <= a < half
    requires a == -half ==> b > 0
    ensures -half <= Quot(a, b) < half
  {
    QuotBound(a, b);
    if a < 0 && b < 0 && Quot(a, b) == half {
      assert a != -half;
    }
  }

  // ------------------------------------------------------------------ what the callers guarantee

  /**
   * The template arguments `Num_s` and `Den_s`: 0 for an unsigned operand, whose top bit is then clear; 1 for a signed
   * operand narrower than its limbs, which is then not the most negative vector; 2 for a signed operand filling its
   * limbs.
   */
  ghost predicate Describes(sign: int, s: seq<Word>)
    requires s != []
  {
    && 0 <= sign <= 2
    && (sign == 0 ==> SVal(s) >= 0)
    && (sign == 1 ==> SVal(s) > -Up(HALF, |s| - 1))
  }

  // ------------------------------------------------------------------ machine division

  /** `((Slong) op[1] << 32) | (unsigned) op[0]`, or `op[0]` alone. */
  function Machine(op: seq<Word>): int
    requires 1 <= |op| <= 2
  {
    if |op| == 1 then Signed(op[0]) else B * Signed(op[1]) + op[0]
  }

  lemma MachineValue(op: seq<Word>)
    requires 1 <= |op| <= 2
    ensures Machine(op) == SVal(op)
    ensures -HALF * B <= SVal(op) < HALF * B
  {
    if |op| == 1 {
      assert op == [op[0]];
      SValOne(op[0]);
    } else {
      SValTwo(op);
    }
  }

  /** The most negative number only meets a positive divisor. */
  lemma MachineQuotFits(a: seq<Word>, b: seq<Word>, numS: int, denS: int)
    requires 1 <= |a| <= 2 && 1 <= |b| <= 2 && Describes(numS, a) && Describes(denS, b) && SVal(b) != 0
    requires numS == 2 && denS != 0 ==> |a| == 1
    ensures -HALF * B <= Quot(SVal(a), SVal(b)) < HALF * B
    ensures |a| == 1 && !(numS == 2 && denS != 0) ==> -HALF <= Quot(SVal(a), SVal(b)) < HALF
  {
    hide SVal, Quot;
    MachineValue(a);
    MachineValue(b);
    UpStep(HALF, 0);
    if |a| == 1 {
      assert -HALF <= SVal(a) < HALF;
      QuotFits(SVal(a), SVal(b), HALF * B);
      if !(numS == 2 && denS != 0) {
        QuotFits(SVal(a), SVal(b), HALF);
      }
    } else {
      QuotFits(SVal(a), SVal(b), HALF * B);
    }
  }

  /** A number that fits one limb, sign-extended from it. */
  method AssignInt32(r: array<Word>, x: int)
    requires 1 <= r.Length && -HALF <= x < HALF
    modifies r
    ensures 0 < Up(1, r.Length)
    ensures SVal(r[..]) == Wrap(x, Up(1, r.Length)) == x
  {
    hide SVal, Wrap, Up;
    r[0] := Low32(x);
    assert r[..1] == [Low32(x)];
    assert Signed(Low32(x)) == x;
    SValOne(Low32(x));
    SignExtend(r, 1);
    WrapWider([Low32(x)], r.Length);
  }

  // ------------------------------------------------------------------ division by magnitudes

  /** An unsigned number below half the range of its limbs reads the same as signed. */
  lemma SmallMagnitude(s: seq<Word>)
    requires s != [] && UVal(s) < Up(HALF, |s| - 1)
    ensures SVal(s) == UVal(s)
  {
    SValBound(s);
    UValBound(s);
  }

  /** Gives an unsigned result its sign and the size of r. */
  method ApplySign(m: array<Word>, neg: bool, r: array<Word>, ghost x: int)
    requires 1 <= m.Length && 1 <= r.Length && m != r
    requires UVal(m[..]) == x < Up(HALF, m.Length - 1)
    modifies r
    ensures 0 < Up(1, r.Length)
    ensures SVal(r[..]) == Wrap(if neg then -x else x, Up(1, r.Length))
  {
    hide SVal, UVal, Wrap, Up;
    SmallMagnitude(m[..]);
    if neg {
      Negate(m, r);
    } else {
      ghost var o := m[..];
      var n := Min(m.Length, r.Length);
      for i := 0 to n
        invariant m[..] == o && r[..i] == o[..i]
      {
        r[i] := m[i];
      }
      if m.Length < r.Length {
        SignExtend(r, m.Length);
        assert o[..m.Length] == o;
        WrapWider(o, r.Length);
      } else {
        assert r[..n] == r[..];
        SValPrefixWrap(o, n, x);
      }
    }
  }

  lemma MagnitudeBound(s: seq<Word>, sign: int, n: nat)
    requires s != [] && Describes(sign, s) && n == |s| + if sign == 2 then 1 else 0
    ensures Abs(SVal(s)) < Up(HALF, n - 1)
  {
    hide SVal, Up;
    SValBound(s);
    if sign == 2 {
      var k := |s| - 1;
      UpStep(HALF, k);
      UpMonotone(HALF, HALF, k);
    }
  }

  lemma UpTimesHalf(n: nat)
    requires 1 <= n
    ensures Up(1, n) == 2 * Up(HALF, n - 1)
  {
    UpStep(1, n - 1);
    UpPlus(HALF, HALF, n - 1);
  }

  lemma MagnitudeQuotient(a: int, b: int, n: nat)
    requires b != 0 && 1 <= n && Abs(a) < Up(HALF, n - 1)
    ensures 0 < Up(1, n)
    ensures Abs(a) / Abs(b) % Up(1, n) == Abs(a) / Abs(b) < Up(HALF, n - 1)
  {
    hide Up;
    QuotBound(a, b);
    assert Abs(Quot(a, b)) == Abs(a) / Abs(b) by { QuotientRange(Abs(a), Abs(b)); }
    QuotientRange(Abs(a), Abs(b));
    UpStep(1, n - 1);
    UpTimesHalf(n);
    UpMonotone(1, 1, n);
    DivModUnique(Abs(a) / Abs(b), Up(1, n), 0, Abs(a) / Abs(b));
  }

  /** Magnitudes divided by `iv_udiv`; the extra limb keeps the largest quotient out of the sign bit. */
  method DivMagnitudes(op1: array<Word>, numS: int, op2: array<Word>, denS: int, r: array<Word>)
    requires 1 <= op1.Length && 1 <= op2.Length && 1 <= r.Length && r != op1 && r != op2
    requires Describes(numS, op1[..]) && Describes(denS, op2[..]) && SVal(op2[..]) != 0
    modifies r
    ensures 0 < Up(1, r.Length)
    ensures SVal(r[..]) == Wrap(Quot(SVal(op1[..]), SVal(op2[..])), Up(1, r.Length))
  {
    hide SVal, UVal, Wrap, Up;
    var n1 := op1.Length + if numS == 2 then 1 else 0;
    var n2 := op2.Length + if denS == 2 then 1 else 0;
    var numerator, denominator, quotient := new Word[n1], new Word[n2], new Word[n1];
    var none := new Word[0];
    ghost var a, b := op1[..], op2[..];
    SValBound(a);
    SValBound(b);
    AbsLimbs(op1, numS != 0, numerator, n1);
    AbsLimbs(op2, denS != 0, denominator, n2);
    assert op1[..] == a && op2[..] == b;
    ghost var _ := UDiv(numerator, n1, denominator, n2, quotient, n1, none, 0, _ => 0);
    assert op1[..] == a && op2[..] == b && quotient[..n1] == quotient[..];
    MagnitudeBound(a, numS, n1);
    ghost var x := Abs(SVal(a)) / Abs(SVal(b));
    MagnitudeQuotient(SVal(a), SVal(b), n1);
    var neg := (numS != 0 && op1[op1.Length - 1] >= HALF) != (denS != 0 && op2[op2.Length - 1] >= HALF);
    ApplySign(quotient, neg, r, x);
  }

  lemma WrapOfModulo(s: seq<Word>, x: int)
    requires s != [] && 0 < Up(1, |s|) && UVal(s) == x % Up(1, |s|)
    ensures SVal(s) == Wrap(x, Up(1, |s|))
  {
    var n := |s|;
    var c := x / Up(1, n);
    DivModEq(x, Up(1, n));
    UpTimes(c, 1, n);
    SValIsWrap(s, x, c);
  }

  lemma UnsignedOperands(a: int, b: int)
    requires 0 <= a && 0 < b
    ensures Quot(a, b) == a / b && Rem(a, b) == a % b
  {
  }

  /**
   * `iv_div<N1,Num_s,N2,Den_s,Nr>`: the quotient truncated towards zero, modulo 2^(32 Nr). The most negative numerator
   * over -1 comes out right because a numerator that fills its limbs is divided with one limb to spare.
   */
  method Div(op1: array<Word>, numS: int, op2: array<Word>, denS: int, r: array<Word>)
    requires 1 <= op1.Length && 1 <= op2.Length && 1 <= r.Length && r != op1 && r != op2
    requires Describes(numS, op1[..]) && Describes(denS, op2[..]) && SVal(op2[..]) != 0
    modifies r
    ensures 0 < Up(1, r.Length)
    ensures SVal(r[..]) == Wrap(Quot(SVal(op1[..]), SVal(op2[..])), Up(1, r.Length))
  {
    hide SVal, UVal, Wrap, Up, Quot, Machine;
    ghost var a, b := op1[..], op2[..];
    var n1Over := op1.Length + if denS != 0 && numS == 2 then 1 else 0;
    if n1Over == 1 && op2.Length == 1 {
      MachineValue(a);
      MachineValue(b);
      MachineQuotFits(a, b, numS, denS);
      AssignInt32(r, Quot(Machine(op1[..]), Machine(op2[..])));
    } else if n1Over <= 2 && op2.Length <= 2 {
      MachineValue(a);
      MachineValue(b);
      MachineQuotFits(a, b, numS, denS);
      AssignInt64(r, Quot(Machine(op1[..]), Machine(op2[..])));
    } else if numS == 0 && denS == 0 {
      var none := new Word[0];
      NonNegative(a);
      NonNegative(b);
      assert op1[..op1.Length] == a && op2[..op2.Length] == b;
      ghost var _ := UDiv(op1, op1.Length, op2, op2.Length, r, r.Length, none, 0, _ => 0);
      assert r[..r.Length] == r[..] && op1[..] == a && op2[..] == b;
      UnsignedOperands(SVal(a), SVal(b));
      WrapOfModulo(r[..], Quot(SVal(a), SVal(b)));
    } else {
      DivMagnitudes(op1, numS, op2, denS, r);
    }
  }

  lemma RemainderMagnitude(a: int, b: seq<Word>)
    requires b != [] && SVal(b) != 0
    ensures 0 < Up(1, |b|)
    ensures Abs(a) % Abs(SVal(b)) % Up(1, |b|) == Abs(a) % Abs(SVal(b)) < Up(HALF, |b| - 1)
  {
    hide Up, SVal;
    SValBound(b);
    DivModEq(Abs(a), Abs(SVal(b)));
    UpTimesHalf(|b|);
    UpMonotone(1, 1, |b|);
    DivModUnique(Abs(a) % Abs(SVal(b)), Up(1, |b|), 0, Abs(a) % Abs(SVal(b)));
  }

  /** Magnitudes reduced by `iv_udiv`; the remainder takes the numerator's sign. */
  method RemMagnitudes(op1: array<Word>, numS: int, op2: array<Word>, denS: int, r: array<Word>, beyond: nat -> Word)
    returns (ghost overRead: bool)
    requires 1 <= op1.Length && 1 <= op2.Length && 1 <= r.Length && r != op1 && r != op2
    requires Describes(numS, op1[..]) && Describes(denS, op2[..]) && SVal(op2[..]) != 0
    modifies r
    ensures 0 < Up(1, r.Length)
    ensures SVal(r[..]) == Wrap(Rem(SVal(op1[..]), SVal(op2[..])), Up(1, r.Length))
    ensures overRead <==> op1.Length + (if numS == 2 then 1 else 0) < op2.Length
  {
    hide SVal, UVal, Wrap, Up;
    var n1 := op1.Length + if numS == 2 then 1 else 0; // `N1_neg`
    var n2 := op2.Length + if denS == 2 then 1 else 0;
    var numerator, denominator, remainder := new Word[n1], new Word[n2], new Word[op2.Length];
    var none := new Word[0];
    ghost var a, b := op1[..], op2[..];
    SValBound(a);
    SValBound(b);
    AbsLimbs(op1, numS != 0, numerator, n1);
    AbsLimbs(op2, denS != 0, denominator, n2);
    assert op1[..] == a && op2[..] == b;
    overRead := UDiv(numerator, n1, denominator, n2, none, 0, remainder, op2.Length, beyond);
    assert op1[..] == a && op2[..] == b && remainder[..op2.Length] == remainder[..];
    ghost var x := Abs(SVal(a)) % Abs(SVal(b));
    RemainderMagnitude(SVal(a), b);
    var neg := numS != 0 && op1[op1.Length - 1] >= HALF;
    ApplySign(remainder, neg, r, x);
  }

  lemma MachineRemFits(a: seq<Word>, b: seq<Word>)
    requires 1 <= |a| <= 2 && 1 <= |b| <= 2 && SVal(b) != 0
    ensures -HALF * B <= Rem(SVal(a), SVal(b)) < HALF * B
    ensures |b| == 1 ==> -HALF <= Rem(SVal(a), SVal(b)) < HALF
  {
    hide SVal, Rem;
    MachineValue(a);
    MachineValue(b);
    QuotBound(SVal(a), SVal(b));
    if |b| == 1 {
      assert b == [b[0]];
      SValOne(b[0]);
    }
  }

  /** Whether the operands are divided by the machine. */
  predicate MachineSized(n1: nat, numS: int, n2: nat, denS: int) {
    n1 + (if denS != 0 && numS == 2 then 1 else 0) <= 2 && n2 <= 2
  }

  /** The sizes for which `iv_udiv` is asked for more limbs of the numerator than there are. */
  predicate ReadsBeyond(n1: nat, numS: int, n2: nat, denS: int, nr: nat) {
    && !MachineSized(n1, numS, n2, denS)
    && if numS == 0 && denS == 0 then n1 < nr else n1 + (if numS == 2 then 1 else 0) < n2
  }

  /**
   * `iv_rem<N1,Num_s,N2,Den_s,Nr>`: the remainder, with the sign of the numerator, modulo 2^(32 Nr). For some sizes the
   * code reads past the end of the numerator; whatever lies there, the result is the same.
   */
  method Remainder(op1: array<Word>, numS: int, op2: array<Word>, denS: int, r: array<Word>, beyond: nat -> Word)
    returns (ghost overRead: bool)
    requires 1 <= op1.Length && 1 <= op2.Length && 1 <= r.Length && r != op1 && r != op2
    requires Describes(numS, op1[..]) && Describes(denS, op2[..]) && SVal(op2[..]) != 0
    modifies r
    ensures 0 < Up(1, r.Length)
    ensures SVal(r[..]) == Wrap(Rem(SVal(op1[..]), SVal(op2[..])), Up(1, r.Length))
    ensures overRead <==> ReadsBeyond(op1.Length, numS, op2.Length, denS, r.Length)
  {
    hide SVal, UVal, Wrap, Up, Rem, Machine;
    ghost var a, b := op1[..], op2[..];
    overRead := false;
    var n1Over := op1.Length + if denS != 0 && numS == 2 then 1 else 0;
    if n1Over == 1 && op2.Length == 1 {
      MachineValue(a);
      MachineValue(b);
      MachineRemFits(a, b);
      AssignInt32(r, Rem(Machine(op1[..]), Machine(op2[..])));
    } else if n1Over <= 2 && op2.Length <= 2 {
      MachineValue(a);
      MachineValue(b);
      MachineRemFits(a, b);
      AssignInt64(r, Rem(Machine(op1[..]), Machine(op2[..])));
    } else if numS == 0 && denS == 0 {
      var none := new Word[0];
      NonNegative(a);
      NonNegative(b);
      assert op1[..op1.Length] == a && op2[..op2.Length] == b;
      overRead := UDiv(op1, op1.Length, op2, op2.Length, none, 0, r, r.Length, beyond);
      assert r[..r.Length] == r[..] && op1[..] == a && op2[..] == b;
      UnsignedOperands(SVal(a), SVal(b));
      WrapOfModulo(r[..], Rem(SVal(a), SVal(b)));
    } else {
      overRead := RemMagnitudes(op1, numS, op2, denS, r, beyond);
    }
  }

  lemma NotZero(s: seq<Word>)
    requires s != [] && s[|s| - 1] < HALF && s[0] != 0
    ensures SVal(s) != 0
  {
    if UVal(s) == 0 { UValZeroLimbs(s); }
  }

  /** A concrete case: `ac_int<8,true> % ac_int<96,true>`, one limb by three. */
  method NarrowByWide(beyond: nat -> Word) returns (ghost overRead: bool)
    ensures overRead
  {
    var op1, op2, r := new Word[1](_ => 7), new Word[3](_ => 1), new Word[1];
    assert op1[..] == [7];
    SValOne(7);
    SValBound(op2[..]);
    UpStep(HALF, 0);
    assert SVal(op2[..]) != 0 by { NotZero(op2[..]); }
    overRead := Remainder(op1, 1, op2, 2, r, beyond);
  }
}
