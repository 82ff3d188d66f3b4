/** The converting constructor of `ac_fixed`: rounding and overflow between any two fixed-point types. */
module FixedConvert {
  import opened Arith
  import opened BitInt
  import opened Limbs
  import opened LimbOps
  import opened LimbShifts
  import FloatFormat

  datatype QMode = Trn | Rnd | TrnZero | RndZero | RndInf | RndMinInf | RndConv | RndConvOdd

  datatype OMode = WrapAround | Sat | SatZero | SatSym

  /** `ac_fixed<W,I,S,Q,O>`: W bits, I of them before the binary point. */
  datatype FixedType = FixedType(w: nat, i: int, signed: bool, q: QMode, o: OMode) {
    predicate Ok() { 1 <= w }

    /** The number of limbs. */
    function N(): nat { (w + 31 + Flag(!signed)) / 32 }

    /** The number of fraction bits, negative when the last bit weighs more than one. */
    function F(): int { w - i }

    /** The least number W bits can hold. */
    function Least(): int
      requires Ok()
    {
      if signed then -Shl(1, w - 1) else 0
    }

    /** The bound the overflow mode clips to from below: symmetric saturation leaves out the most negative number. */
    function Min(): int
      requires Ok()
    {
      Least() + Flag(signed && o == SatSym)
    }

    function Max(): int
      requires Ok()
    {
      Shl(1, w - Flag(signed)) - 1
    }

    /** What W bits keep of y. */
    function Field(y: int): int
      requires Ok()
    {
      if signed then ToS(y, w) else Low(y, w)
    }
  }

  // ------------------------------------------------------------------ what the modes mean

  /** On which side a tie is settled. */
  ghost predicate TieRule(q: QMode, x: int, e: int, y: int) {
    match q
    case Trn | TrnZero => true
    case Rnd => e > 0
    case RndZero => x < 0 <==> e > 0
    case RndInf => x < 0 <==> e < 0
    case RndMinInf => e < 0
    case RndConv => y % 2 == 0
    case RndConvOdd => y % 2 == 1
  }

  /** y is x / 2^d rounded by mode q, said by the error alone: 2^d y - x. */
  ghost predicate Rounds(q: QMode, x: int, d: nat, y: int) {
    var one, e := Shl(1, d), Shl(y, d) - x;
    if q == Trn then
      -one < e <= 0
    else if q == TrnZero then
      -one < e < one && (x >= 0 ==> e <= 0) && (x < 0 ==> e >= 0)
    else
      && -one <= 2 * e <= one
      && (2 * e == one || 2 * e == -one ==> TieRule(q, x, e, y))
  }

  predicate TieUp(q: QMode, neg: bool, odd: bool) {
    match q
    case Trn | TrnZero | RndMinInf => false
    case Rnd => true
    case RndZero => neg
    case RndInf => !neg
    case RndConv => odd
    case RndConvOdd => !odd
  }

  /** The rounded quotient, from the quotient rounded down and what that dropped. */
  function Quantize(q: QMode, x: int, d: nat): int {
    var f, e, one := Shr(x, d), 2 * Low(x, d), Shl(1, d);
    if q == Trn then f
    else if q == TrnZero then f + Flag(x < 0 && e != 0)
    else f + Flag(e > one || (e == one && TieUp(q, x < 0, f % 2 == 1)))
  }

  lemma EvenOne(d: nat)
    requires 1 <= d
    ensures Shl(1, d) % 2 == 0 && Shl(1, d) >= 2
  {
    hide Shl;
    ShlStep(1, d - 1);
    ShlMonotone(1, 1, d - 1);
    DivModUnique(Shl(1, d), 2, Shl(1, d - 1), 0);
  }

  /** How far two candidates are apart. */
  lemma ErrorOf(f: int, y: int, d: nat)
    ensures Shl(f + 1, d) == Shl(f, d) + Shl(1, d)
    ensures y <= f - 1 ==> Shl(y, d) <= Shl(f, d) - Shl(1, d)
    ensures y >= f + 2 ==> Shl(y, d) >= Shl(f, d) + 2 * Shl(1, d)
  {
    hide Shl;
    ShlPlus(f, 1, d);
    ShlPlus(f - 1, 1, d);
    ShlPlus(f + 1, 1, d);
    ShlMonotone(y, f - 1, d);
    ShlMonotone(f + 2, y, d);
  }

  /** Every mode has exactly one rounded value, and `Quantize` is it. */
  lemma QuantizeRounds(q: QMode, x: int, d: nat, y: int)
    requires 1 <= d
    ensures Rounds(q, x, d, y) <==> y == Quantize(q, x, d)
  {
    hide Shl, Shr, Low;
    ShrSpec(x, d);
    var f := Shr(x, d);
    ErrorOf(f, y, d);
    ShlMonotone(f + 1, 0, d);
    ShlMonotone(f, 0, d);
    ShlZero(d);
    EvenOne(d);
  }

  /** The numbers a type holds; a symmetric one holds with every number its negative. */
  ghost predicate Fits(ty: FixedType, y: int)
    requires ty.Ok()
  {
    if !ty.signed then 0 <= y < Shl(1, ty.w)
    else if ty.o == SatSym then -Shl(1, ty.w - 1) < y < Shl(1, ty.w - 1)
    else -Shl(1, ty.w - 1) <= y < Shl(1, ty.w - 1)
  }

  /** r is what the overflow mode makes of y, said without the bounds a number is clipped to. */
  ghost predicate Settles(ty: FixedType, y: int, r: int)
    requires ty.Ok()
  {
    && Fits(ty, r)
    && if Fits(ty, y) then r == y
       else
         match ty.o
         case WrapAround => exists k :: y == r + Shl(k, ty.w)
         case SatZero => r == 0
         case _ => forall z :: Fits(ty, z) ==> Abs(y - r) <= Abs(y - z)
  }

  /** What the overflow mode makes of the rounded value. */
  function Overflowed(ty: FixedType, y: int): int
    requires ty.Ok()
  {
    match ty.o
    case WrapAround => ty.Field(y)
    case SatZero => if ty.Min() <= y <= ty.Max() then y else 0
    case _ => if y < ty.Min() then ty.Min() else if y > ty.Max() then ty.Max() else y
  }

  lemma FitsBounds(ty: FixedType, y: int)
    requires ty.Ok()
    ensures Fits(ty, y) <==> ty.Min() <= y <= ty.Max()
    ensures Fits(ty, 0) && (ty.o != SatSym ==> ty.Min() == ty.Least())
    ensures ty.signed ==> Shl(1, ty.w) == 2 * Shl(1, ty.w - 1)
  {
    ShlMonotone(1, 1, ty.w - Flag(ty.signed));
  }

  /** The last W bits are in range, and differ from the number by a multiple of 2^W. */
  lemma FieldCongruent(ty: FixedType, y: int)
    requires ty.Ok() && ty.o != SatSym
    ensures Fits(ty, ty.Field(y)) && exists k :: y == ty.Field(y) + Shl(k, ty.w)
  {
    hide Shl, Shr;
    FitsBounds(ty, 0);
    ShrSpec(y, ty.w);
    ShlPlus(Shr(y, ty.w), 1, ty.w);
    assert y == ty.Field(y) + Shl(if ty.Field(y) == Low(y, ty.w) then Shr(y, ty.w) else Shr(y, ty.w) + 1, ty.w);
  }

  lemma OneCongruent(ty: FixedType, r: int, k: int, s: int, l: int)
    requires ty.Ok() && Fits(ty, r) && Fits(ty, s) && r + Shl(k, ty.w) == s + Shl(l, ty.w)
    ensures r == s
  {
    hide Shl;
    FitsBounds(ty, 0);
    ShlMinus(k, l, ty.w);
    ShlMonotone(k - l, 1, ty.w);
    ShlMonotone(1, k - l, ty.w);
    ShlMonotone(k - l, -1, ty.w);
    ShlMonotone(-1, k - l, ty.w);
    ShlNegate(1, ty.w);
    ShlZero(ty.w);
    ShlMonotone(k - l, 0, ty.w);
  }

  /** Every mode settles on exactly one number, and `Overflowed` is it. */
  lemma OverflowSettles(ty: FixedType, y: int, r: int)
    requires ty.Ok()
    ensures Settles(ty, y, r) <==> r == Overflowed(ty, y)
  {
    hide Shl, Shr, Low, FixedType.Field, FixedType.Min, FixedType.Max, FixedType.Least;
    FitsBounds(ty, y);
    FitsBounds(ty, r);
    FitsBounds(ty, ty.Min());
    FitsBounds(ty, ty.Max());
    if ty.o == WrapAround {
      FieldCongruent(ty, y);
      var k :| y == ty.Field(y) + Shl(k, ty.w);
      ShlZero(ty.w);
      if Fits(ty, y) { OneCongruent(ty, y, 0, ty.Field(y), k); }
      if l :| Fits(ty, r) && y == r + Shl(l, ty.w) { OneCongruent(ty, r, l, ty.Field(y), k); }
    } else {
      hide Fits;
      assert Settles(ty, y, r) ==> Fits(ty, ty.Min()) && Fits(ty, ty.Max());
      forall z | Fits(ty, z) ensures ty.Min() <= z <= ty.Max() { FitsBounds(ty, z); }
    }
  }

  /** The number of places the source's last bit lies below the target's. */
  function Drop(ty: FixedType, src: FixedType): int {
    src.F() - ty.F()
  }

  /** The source's number in units of the target's last bit, rounded by the target's mode. */
  function Rescaled(ty: FixedType, src: FixedType, x: int): int {
    var d := Drop(ty, src);
    if d > 0 then Quantize(ty.q, x, d) else Shl(x, -d)
  }

  // ------------------------------------------------------------------ the object

  /** The source's number in the target's units, rounded down. */
  function Shifted(x: int, d: int): int {
    if d > 0 then Shr(x, d) else Shl(x, -d)
  }

  /** The high bits are the source's, whichever way it was shifted. */
  lemma BitsAbove(x: int, d: int, m: nat)
    requires 0 <= d + m
    ensures Shr(Shifted(x, d), m) == Shr(x, d + m)
  {
    hide Shr, Shl;
    if d > 0 {
      ShrShr(x, d, m);
    } else {
      ShrOfShl(x, -d, d + m);
    }
  }

  /** Minus two is a zero below ones. */
  lemma TwoBelow(x: int, b: nat)
    ensures Shr(x, b + 1) == -1 && !Bit(x, b) <==> Shr(x, b) == -2
  {
  }

  /** Whether the source's bits from b up, with the carry, are all zeros or all ones. */
  method BitsBeyond(op: array<Word>, b: int, carry: bool, around: int -> Word)
    returns (zeros: bool, ones: bool, allOnes: bool, outside: bool)
    requires 1 <= op.Length && b < 32 * op.Length && (b < 0 ==> !carry)
    ensures 0 <= b ==>
      && (zeros <==> Shr(SVal(op[..]), b) + Flag(carry) == 0)
      && (ones <==> Shr(SVal(op[..]), b) + Flag(carry) == -1)
      && (allOnes <==> Shr(SVal(op[..]), b) == -1)
    ensures b < 0 ==> (zeros <==> SVal(op[..]) == 0 && InFront(b, false, around))
    ensures outside <==> b < -32
  {
    hide SVal, Shr, BitAt, Bit, InFront;
    var far;
    allOnes, outside := EqualFrom(op, b, true, around);
    if carry {
      zeros := allOnes;
      ones, far := EqualFrom(op, b + 1, true, around);
      ones := ones && !BitAt(op[..], b);
      BitAtIs(op[..], b);
      TwoBelow(SVal(op[..]), b);
    } else {
      zeros, far := EqualFrom(op, b, false, around);
      ones := allOnes;
    }
  }

  /** The shift of the top limb alone is the shift of the number, unless the type fills the limb. */
  lemma TopShift(ty: FixedType, s: seq<Word>)
    requires ty.Ok() && |s| == ty.N() && !(ty.signed && ty.w % 32 == 0)
    ensures Shr(Signed(s[|s| - 1]), ty.w % 32) == Shr(SVal(s), ty.w)
  {
    hide SVal, Shr;
    var n := |s|;
    SValDrop(s, n - 1);
    assert s[n - 1..] == [s[n - 1]];
    SValOne(s[n - 1]);
    ShrShr(SVal(s), 32 * (n - 1), ty.w % 32);
    assert ty.w == 32 * (n - 1) + ty.w % 32;
  }

  /** The limbs hold the low bits of y. */
  ghost predicate Held(s: seq<Word>, y: int) {
    UVal(s) == Low(y, 32 * |s|)
  }

  lemma HeldSigned(s: seq<Word>, y: int)
    requires s != [] && Held(s, y)
    ensures var lo, u := Low(y, 32 * |s|), Shl(1, 32 * |s|);
      SVal(s) == if 2 * lo >= u then lo - u else lo
    ensures forall j :: 0 <= j <= 32 * |s| ==> Low(SVal(s), j) == Low(y, j)
  {
    hide UVal, Shl, Low;
    SValBound(s);
    SValLow(s);
    UValBound(s);
    forall j | 0 <= j <= 32 * |s| ensures Low(SVal(s), j) == Low(y, j) {
      LowOfLow(SVal(s), j, 32 * |s|);
      LowOfLow(y, j, 32 * |s|);
    }
  }

  lemma RoundedBy(ty: FixedType, src: FixedType, x: int)
    requires ty.Ok()
    ensures Shifted(x, Drop(ty, src)) <= Rescaled(ty, src, x) <= Shifted(x, Drop(ty, src)) + 1
  {
    hide Shl, Shr, Low;
  }

  lemma HighPart(y: int, n: nat)
    ensures 0 <= y < Shl(1, n) <==> Shr(y, n) == 0
    ensures -Shl(1, n) <= y < 0 <==> Shr(y, n) == -1
    ensures y < 0 <==> Shr(y, n) < 0
    ensures Shr(y, n) == 0 ==> Low(y, n) == y
    ensures Shr(y, n) == -1 ==> Low(y, n) == y + Shl(1, n)
  {
    hide Shr, Low, Shl;
    ShrSpec(y, n);
    ShlZero(n);
    ShlNegate(1, n);
    ShlPlus(Shr(y, n), 1, n);
    ShlMonotone(Shr(y, n), 0, n);
    ShlMonotone(Shr(y, n) + 1, 0, n);
    ShlMonotone(1, Shr(y, n), n);
    ShlMonotone(Shr(y, n), -1, n);
    ShlMonotone(Shr(y, n) + 1, -1, n);
  }

  /** Above its width a source has only its sign. */
  lemma SourceBits(src: FixedType, x: int, n: nat)
    requires src.Ok() && src.Least() <= x <= src.Max() && src.w <= n
    ensures Shr(x, n) == if x < 0 then -1 else 0
    ensures src.signed || src.w < n ==> Shr(x, n - 1) == if x < 0 then -1 else 0
  {
    hide Shl, Shr;
    ShlStep(1, src.w - 1);
    ShlGrows(1, src.w, n);
    ShlGrows(1, src.w - 1, n - 1);
    if src.w < n { ShlGrows(1, src.w, n - 1); }
    ShlMonotone(1, 1, src.w - 1);
    HighPart(x, n);
    HighPart(x, n - 1);
  }

  /** The rounding carry leaves an unsigned source that fills the target's limbs to the last bit. */
  ghost predicate CarryLost(ty: FixedType, src: FixedType, x: int)
    requires ty.Ok()
  {
    !src.signed && src.w == Drop(ty, src) + 32 * ty.N() && Rescaled(ty, src, x) == Shl(1, 32 * ty.N())
  }

  /**
   * A source with no bits beyond the target's limbs: the number fits them, signed or unsigned, unless the carry is
   * lost.
   */
  lemma NothingAbove(ty: FixedType, src: FixedType, x: int, s: seq<Word>, carry: bool)
    requires ty.Ok() && src.Ok() && src.Least() <= x <= src.Max() && |s| == ty.N()
    requires Held(s, Rescaled(ty, src, x)) && src.w <= Drop(ty, src) + 32 * |s|
    requires Shr(Rescaled(ty, src, x), 32 * |s|) == Shr(x, Drop(ty, src) + 32 * |s|) + Flag(carry)
    ensures var hi := Shr(Rescaled(ty, src, x), 32 * |s|);
      && (CarryLost(ty, src, x) ==> hi == 1 && !src.signed && SVal(s) == 0)
      && (!CarryLost(ty, src, x) ==> hi == (if src.signed && x < 0 && SVal(s) < 0 then -1 else 0))
  {
    hide SVal, Shl, Shr, Low, Held, Rescaled, Shifted;
    var n, d, y := 32 * |s|, Drop(ty, src), Rescaled(ty, src, x);
    var y0 := Shifted(x, d);
    RoundedBy(ty, src, x);
    HeldSigned(s, y);
    BitsAbove(x, d, n);
    BitsAbove(x, d, n - 1);
    SourceBits(src, x, d + n);
    HighPart(y, n);
    HighPart(y0, n);
    HighPart(y0, n - 1);
    ShlStep(1, n - 1);
    ShlMonotone(1, 1, n - 1);
    if y == Shl(1, n) { ShrShl(1, n); }
  }

  lemma ZeroBits(w: nat)
    requires 1 <= w
    ensures Shr(0, w) == 0 && !Bit(0, w - 1)
  {
    ConstantShift(0, w);
    ConstantShift(0, w - 1);
  }

  lemma NoRounding(q: QMode, x: int, d: nat)
    requires q == Trn || (q == TrnZero && 0 <= x)
    ensures Quantize(q, x, d) == Shr(x, d)
  {
  }

  /** Beyond the source's width the first dropped bit is its sign. */
  lemma FirstRoundingBit(src: FixedType, s: seq<Word>, d: nat)
    requires src.Ok() && |s| == src.N() && src.Least() <= SVal(s) <= src.Max() && 1 <= d
    ensures d > src.w ==> Bit(SVal(s), d - 1) == (s[|s| - 1] >= HALF)
    ensures d <= src.w ==> (d - 1) / 32 < |s| && BitAt(s, d - 1) == Bit(SVal(s), d - 1)
  {
    hide SVal, Shl, Shr, BitAt;
    if d > src.w {
      SValBound(s);
      ShlStep(1, src.w);
      ShlStep(1, src.w - 1);
      ShlMonotone(1, 1, src.w - 1);
      HighPart(SVal(s), src.w);
      ConstantShift(Shr(SVal(s), src.w), d - 1 - src.w);
      ShrShr(SVal(s), src.w, d - 1 - src.w);
    } else {
      BitAtIs(s, d - 1);
    }
  }

  /** What the saturation modes put in place of a number below or above the range. */
  function Clipped(ty: FixedType, neg: bool): int
    requires ty.Ok()
  {
    if ty.o == SatZero then 0
    else if !neg then ty.Max()
    else if ty.signed then ty.Least() + Flag(ty.o == SatSym && ty.w > 1) else 0
  }

  /** The bound that is passed is what the mode makes of a number out of range, but for the one-bit symmetric type. */
  lemma ClippedSettles(ty: FixedType, y: int)
    requires ty.Ok() && ty.o != WrapAround && !Fits(ty, y)
    ensures Settles(ty, y, Clipped(ty, y < 0)) <==> !(ty.o == SatSym && ty.signed && ty.w == 1 && y < 0)
  {
    hide Shl;
    OverflowSettles(ty, y, Clipped(ty, y < 0));
    FitsBounds(ty, y);
    ShiftByZero(1);
    ShlMonotone(1, 1, ty.w - Flag(ty.signed));
  }

  /** The bit `quantization_adjust` adds, from the first dropped bit, the others, the sign and the last bit kept. */
  function RoundingBit(q: QMode, qb: bool, r: bool, s: bool, odd: bool): bool {
    match q
    case Trn => false
    case Rnd => qb
    case RndZero => qb && (s || r)
    case RndMinInf => qb && r
    case RndInf => qb && (!s || r)
    case RndConv => qb && (odd || r)
    case RndConvOdd => qb && (!odd || r)
    case TrnZero => s && (qb || r)
  }

  /** Zero is not rounded up, whatever is taken for its low bits. */
  lemma ZeroNotRounded(q: QMode, x: int, d: nat, r: bool, odd: bool)
    requires 1 <= d && (x != 0 ==> r == (Low(x, d - 1) != 0))
    ensures RoundingBit(q, Bit(x, d - 1), r, x < 0, odd)
      == RoundingBit(q, Bit(x, d - 1), Low(x, d - 1) != 0, x < 0, odd)
  {
    hide Shr, Low;
    if x == 0 { ConstantShift(0, d - 1); }
  }

  lemma NoCarry(ty: FixedType, src: FixedType, x: int)
    requires ty.Ok() && Drop(ty, src) + 32 * ty.N() < 0
    ensures Rescaled(ty, src, x) == Shifted(x, Drop(ty, src)) && !CarryLost(ty, src, x)
  {
  }

  lemma AboveMax(ty: FixedType)
    requires ty.Ok()
    ensures ty.Max() < Shl(1, 32 * ty.N())
  {
    hide Shl;
    ShlGrows(1, ty.w - Flag(ty.signed), 32 * ty.N());
  }

  /** Shifted beyond the target's limbs, a number other than zero is out of range and leaves nothing in them. */
  lemma FarLeft(ty: FixedType, src: FixedType, x: int, s: seq<Word>)
    requires ty.Ok() && |s| == ty.N() && Held(s, Rescaled(ty, src, x)) && Drop(ty, src) + 32 * |s| < 0
    ensures SVal(s) == 0
    ensures x == 0 ==> Rescaled(ty, src, x) == 0
    ensures x > 0 ==> Rescaled(ty, src, x) > ty.Max()
    ensures x < 0 ==> Rescaled(ty, src, x) < ty.Least()
  {
    hide SVal, Shl, Shr, Low, Held;
    var n, e: nat := 32 * |s|, -Drop(ty, src);
    HeldSigned(s, Shl(x, e));
    ShlShl(x, e - n, n);
    ShrShl(Shl(x, e - n), n);
    ShlMonotone(1, 1, n);
    ShlMonotone(x, 0, e);
    ShlMonotone(1, x, e);
    ShlMonotone(x, -1, e);
    ShlNegate(1, e);
    ShlStep(1, n);
    ShlGrows(1, n + 1, e);
    AboveMax(ty);
  }

  lemma LastBitKept(s: seq<Word>, y: int)
    requires s != [] && Held(s, y)
    ensures s[0] % 2 == y % 2
  {
    hide Shl, Shr, Low;
    var n := 32 * |s|;
    ShrSpec(y, n);
    ShlStep(Shr(y, n), n - 1);
    WordParity(UVal(s), s[0], UVal(s[1..]));
  }

  lemma RoundingBitMeaning(q: QMode, qb: bool, l: int, p: int, s: bool, odd: bool)
    requires 0 <= l < p
    ensures var e := 2 * (l + if qb then p else 0);
      RoundingBit(q, qb, l != 0, s, odd) ==
      (if q == Trn then false else if q == TrnZero then s && e != 0
       else e > 2 * p || (e == 2 * p && TieUp(q, s, odd)))
  {
  }

  lemma LowOne(h: int)
    ensures Low(h, 1) == h % 2
  {
    assert Shr(h, 0) == h;
    assert Shl(h / 2, 0) == h / 2;
  }

  /** The highest of the bits dropped and those below it. */
  lemma TopDropped(x: int, d: nat)
    requires 1 <= d
    ensures Low(x, d) == Low(x, d - 1) + if Bit(x, d - 1) then Shl(1, d - 1) else 0
    ensures 0 <= Low(x, d - 1) < Shl(1, d - 1) && Shl(1, d) == 2 * Shl(1, d - 1)
  {
    hide Shl, Low, Shr;
    DroppedBits(x, d - 1, 1);
    LowOne(Shr(x, d - 1));
    ShrSpec(x, d - 1);
    ShlStep(1, d - 1);
    ShlZero(d - 1);
  }

  /** Adding that bit rounds. */
  lemma RoundingBitRounds(q: QMode, x: int, d: nat)
    requires 1 <= d
    ensures Quantize(q, x, d)
         == Shr(x, d) + Flag(RoundingBit(q, Bit(x, d - 1), Low(x, d - 1) != 0, x < 0, Shr(x, d) % 2 == 1))
  {
    hide Shl, Low, Shr, Bit, RoundingBit, TieUp;
    TopDropped(x, d);
    RoundingBitMeaning(q, Bit(x, d - 1), Low(x, d - 1), Shl(1, d - 1), x < 0, Shr(x, d) % 2 == 1);
  }

  lemma PowersOfWord(k: nat)
    requires 1 <= k <= 32
    ensures Shl(Shl(1, k), 32 - k) == B && Shl(Shl(1, k - 1), 32 - k) == HALF
    ensures Shl(1, k) == 2 * Shl(1, k - 1) && 1 <= Shl(1, k - 1) <= HALF
    ensures k < 32 ==> Shl(1, k) <= HALF
  {
    hide Shl;
    ShlShl(1, k, 32 - k);
    ShlShl(1, k - 1, 32 - k);
    Shl32(1);
    ShlStep(1, 31);
    ShlStep(1, k - 1);
    ShlMonotone(1, 1, k - 1);
    ShlGrows(1, k - 1, 31);
    if k < 32 { ShlGrows(1, k, 31); }
  }

  lemma TopOfClip(ty: FixedType, top: int)
    requires ty.Ok() && top == Shl(1, (if ty.signed then ty.w - 1 else ty.w) % 32)
    ensures 1 <= top <= HALF
    ensures Shl(top, 32 * (ty.N() - 1)) == Shl(1, ty.w - Flag(ty.signed))
  {
    hide Shl;
    var k: nat := ty.w - Flag(ty.signed) - 32 * (ty.N() - 1);
    assert k == (if ty.signed then ty.w - 1 else ty.w) % 32;
    ShlShl(1, k, 32 * (ty.N() - 1));
    PowersOfWord(k + 1);
  }

  lemma {:induction false} UValOnes(s: seq<Word>)
    requires forall i :: 0 <= i < |s| ==> s[i] == B - 1
    ensures UVal(s) == Up(1, |s|) - 1
  {
    if s == [] {
      UpStep(1, 0);
    } else {
      UValOnes(s[1..]);
      UpStep(1, |s| - 1);
    }
  }

  lemma ClippedLimbs(ty: FixedType, s: seq<Word>, neg: bool, top: int)
    requires ty.Ok() && |s| == ty.N() && 1 <= top <= HALF && (neg ==> ty.signed)
    requires Shl(top, 32 * (ty.N() - 1)) == Shl(1, ty.w - Flag(ty.signed))
    requires forall i :: 0 <= i < |s| - 1 ==> s[i] == if neg then 0 else B - 1
    requires s[|s| - 1] == if neg then B - top else top - 1
    ensures SVal(s) == if neg then ty.Least() else ty.Max()
  {
    hide SVal, UVal, Shl;
    var n := |s| - 1;
    SValSnoc(s);
    if neg {
      UValZeros(s[..n]);
      ShlNegate(top, 32 * n);
    } else {
      UValOnes(s[..n]);
      ShlMinus(top, 1, 32 * n);
    }
  }

  lemma LeastOdd(ty: FixedType)
    requires ty.Ok() && ty.signed
    ensures ty.Least() % 2 == Flag(ty.w == 1)
  {
    hide Shl;
    if ty.w > 1 {
      ShlStep(1, ty.w - 2);
    } else {
      ShiftByZero(1);
    }
  }

  lemma Low32Parity(x: int)
    ensures Low32(x) % 2 == x % 2
  {
    DivModEq(x, B);
    WordParity(x, x % B, x / B);
  }

  lemma LeastParity(ty: FixedType)
    requires ty.Ok() && ty.signed
    ensures Low32(ty.Least()) % 2 == Flag(ty.w == 1)
  {
    LeastOdd(ty);
    Low32Parity(ty.Least());
  }

  /** Raising an even lowest limb does not reach the sign. */
  lemma SValOfUpdate(s: seq<Word>, t: seq<Word>)
    requires s != [] && s[0] % 2 == 0 && t == s[0 := s[0] + 1] && UVal(t) == UVal(s) + 1
    ensures SVal(t) == SVal(s) + 1
  {
    hide UVal;
  }

  lemma SetLowestBit(ty: FixedType, s: seq<Word>, t: seq<Word>)
    requires ty.Ok() && ty.signed && |s| == ty.N() && SVal(s) == ty.Least()
    requires t == s[0 := if s[0] % 2 == 1 then s[0] else s[0] + 1]
    ensures SVal(t) == ty.Least() + Flag(ty.w > 1)
  {
    hide SVal, UVal, Shl, Up;
    FirstLimb(s);
    LeastParity(ty);
    if ty.w > 1 {
      UValUpdate(s, 0, t[0]);
      UpStep(t[0] - s[0], 0);
      SValOfUpdate(s, t);
    } else {
      assert t == s;
    }
  }

  lemma TopBits(ty: FixedType)
    requires ty.Ok()
    ensures var k := ty.w - 32 * (ty.N() - 1);
      && (32 - ty.w) % 32 == (32 - k) % 32
      && 0 <= k <= 32 && (ty.signed ==> 1 <= k) && (!ty.signed ==> k < 32)
  {
    var n := ty.N();
    var k := ty.w - 32 * (n - 1);
    DivModEq(ty.w + 31 + Flag(!ty.signed), 32);
    DivModUnique(32 - ty.w, 32, (32 - k) / 32 - (n - 1), (32 - k) % 32);
  }

  /**
   * A limb shifted to the top and back, arithmetically for a signed type; an unsigned type keeps no bit of a spare
   * limb.
   */
  function CutWord(t: Word, rem: nat, signed: bool): Word {
    if signed then Low32(Shr(Signed(Low32(Shl(t, rem))), rem))
    else if rem != 0 then Low32(Shr(Low32(Shl(t, rem)), rem)) else 0
  }

  lemma SignedWord(t: Word)
    ensures Low32(Signed(t)) == t && Low32(t) == t
  {
  }

  lemma LowSigned(t: Word, k: nat)
    requires k <= 32
    ensures Low(Signed(t), k) == Low(t, k)
  {
    hide Low, Low32, Signed;
    SignedWord(t);
    if k == 32 {
      ShrByLimb(t);
      ShrByLimb(Signed(t));
    } else {
      LowOfWord(Signed(t), k);
    }
  }

  lemma BelowWord(l: int, k: nat)
    requires k <= 32 && 0 <= l < Shl(1, k) && Shl(Shl(1, k), 32 - k) == B
    ensures 0 <= Shl(l, 32 - k) < B
  {
    ShlMonotone(Shl(1, k), l, 32 - k);
    ShlMonotone(l, l, 32 - k);
  }

  /** The low k bits of a word at its top. */
  lemma MovedUp(t: Word, k: nat)
    requires 1 <= k <= 32
    ensures Low32(Shl(t, 32 - k)) == Shl(Low(t, k), 32 - k) && 0 <= Low(t, k) < Shl(1, k)
  {
    hide Shl, Shr, Low;
    var l, e: nat := Low(t, k), 32 - k;
    ShrSpec(t, k);
    ShlPlus(Shl(Shr(t, k), k), l, e);
    ShlShl(Shr(t, k), k, e);
    Shl32(Shr(t, k));
    PowersOfWord(k);
    BelowWord(l, k);
    SameLow(Shl(t, e), Shl(l, e), Shr(t, k));
  }

  /** That is its low k bits, sign- or zero-extended. */
  lemma CutWordIs(t: Word, k: nat, signed: bool)
    requires k <= 32 && (signed ==> 1 <= k) && (!signed ==> k < 32)
    ensures Signed(CutWord(t, (32 - k) % 32, signed)) == if signed then ToS(Signed(t), k) else Low(Signed(t), k)
  {
    hide Shl, Shr, Low;
    var l, e: nat := Low(t, k), 32 - k;
    LowSigned(t, k);
    if k == 0 {
      ShiftByZero(Signed(t));
    } else {
      MovedUp(t, k);
      PowersOfWord(k);
      BelowWord(l, k);
      ShlMinus(l, Shl(1, k), e);
      ShlMonotone(Shl(1, k - 1), l, e);
      ShrShl(l, e);
      ShrShl(l - Shl(1, k), e);
    }
  }

  /** The number in W bits: the limbs below the top one, and the low bits of the top one. */
  lemma FieldTop(ty: FixedType, o: seq<Word>)
    requires ty.Ok() && |o| == ty.N()
    ensures var k := ty.w - 32 * (|o| - 1);
      && 0 <= k <= 32 && (ty.signed ==> 1 <= k) && (!ty.signed ==> k < 32)
      && var t := Signed(o[|o| - 1]);
         ty.Field(SVal(o)) == UVal(o[..|o| - 1]) + Up(if ty.signed then ToS(t, k) else Low(t, k), |o| - 1)
  {
    hide SVal, UVal, Shl, Shr, Low;
    var n, x := |o|, SVal(o);
    var k: nat := ty.w - 32 * (n - 1);
    var t := Signed(o[n - 1]);
    SValDrop(o, n - 1);
    assert o[n - 1..] == [o[n - 1]];
    SValOne(o[n - 1]);
    DroppedBits(x, 32 * (n - 1), k);
    if ty.signed {
      var l, low := Low(t, k), Low(x, 32 * (n - 1));
      ShrSpec(x, 32 * (n - 1));
      ShlShl(1, k - 1, 32 * (n - 1));
      ShlShl(1, k, 32 * (n - 1));
      ShlMinus(l, Shl(1, k), 32 * (n - 1));
      ShlMonotone(Shl(1, k - 1), l, 32 * (n - 1));
      ShlPlus(l, 1, 32 * (n - 1));
      ShlMonotone(l + 1, Shl(1, k - 1), 32 * (n - 1));
    }
  }

  lemma CutTopLimb(ty: FixedType, o: seq<Word>, s: seq<Word>)
    requires ty.Ok() && |o| == ty.N()
    requires s == o[|o| - 1 := CutWord(o[|o| - 1], (32 - ty.w) % 32, ty.signed)]
    ensures SVal(s) == ty.Field(SVal(o))
  {
    hide SVal, UVal, CutWord, Signed, ToS, Up;
    FieldTop(ty, o);
    TopBits(ty);
    CutWordIs(o[|o| - 1], ty.w - 32 * (|o| - 1), ty.signed);
    SValSnoc(s);
    assert s[..|o| - 1] == o[..|o| - 1];
  }

  // ------------------------------------------------------------------ overflow

  /** The rounded number against the limbs it was computed in: a carry out of them joins the bits above. */
  lemma RoundState(v0: seq<Word>, v1: seq<Word>, y0: int, up: bool, carry: bool)
    requires |v0| == |v1| && UVal(v0) == Low(y0, 32 * |v0|)
    requires UVal(v1) + Up(Flag(carry), |v1|) == UVal(v0) + Flag(up)
    ensures UVal(v1) == Low(y0 + Flag(up), 32 * |v1|)
    ensures Shr(y0 + Flag(up), 32 * |v1|) == Shr(y0, 32 * |v1|) + Flag(carry)
  {
    hide UVal, Shl, Shr, Low;
    var n := 32 * |v1|;
    ShrSpec(y0, n);
    UValBound(v1);
    ShlPlus(Shr(y0, n), Flag(carry), n);
    ShrUnique(y0 + Flag(up), n, Shr(y0, n) + Flag(carry), UVal(v1));
  }

  /**
   * The test on the bits above the target's width, within the limbs and beyond them, against the range: the two flags
   * for the deleted bits are read off the limbs (s) and the bits beyond (hi).
   */
  lemma OverflowTest(ty: FixedType, y: int, s: int, hi: int, lo: int)
    requires ty.Ok() && lo == Low(y, 32 * ty.N()) && hi == Shr(y, 32 * ty.N())
    requires s == if 2 * lo >= Shl(1, 32 * ty.N()) then lo - Shl(1, 32 * ty.N()) else lo
    ensures var whole := ty.signed && ty.w % 32 == 0;
      var zero, ones := (whole || Shr(s, ty.w) == 0) && hi == 0, (whole || Shr(s, ty.w) == -1) && hi == -1;
      var top := ty.signed && Bit(s, ty.w - 1);
      (if y < 0 then !top || !ones else top || !zero) <==> !(ty.Least() <= y <= ty.Max())
  {
    hide Shl, Shr, Low, Bit;
    var n, w := 32 * ty.N(), ty.w;
    var u, p := Shl(1, n), Shl(1, w);
    ShrSpec(y, n);
    HighPart(y, n);
    ShrSpec(s, w);
    ShlPlus(Shr(s, w), 1, w);
    HighPart(s, w);
    ShlStep(1, w - 1);
    ShlStep(1, n - 1);
    ShlMonotone(1, 1, w - 1);
    ShlGrows(1, w, n);
    if ty.signed {
      if w % 32 == 0 {
        assert w == n;
        SignBit(s, w - 1);
      } else {
        ShlGrows(1, w + 1, n);
        ShlStep(1, w);
        if 0 <= s < p { TopBit(s, w - 1); }
        if -p <= s < 0 { BelowTop(s, w - 1); }
      }
    } else {
      ShlGrows(1, w + 1, n);
      ShlStep(1, w);
    }
  }

  // ------------------------------------------------------------------ the test for overflow

  /** `QUAN_INC`: whether rounding can add one to the number rounded down. */
  predicate QuanInc(ty: FixedType, src: FixedType) {
    Drop(ty, src) > 0 && !(ty.q == Trn || (ty.q == TrnZero && !src.signed))
  }

  /** Whether the conversion looks for overflow at all: a decision on the two types alone. */
  predicate Checked(ty: FixedType, src: FixedType) {
    && ty.o != WrapAround
    && ((!ty.signed && src.signed)
      || ty.i - Flag(ty.signed) < src.i - Flag(src.signed)
         + Flag(QuanInc(ty, src) || (src.signed && ty.o == SatSym && (src.o != SatSym || Drop(ty, src) > 0))))
  }

  /** The rounding looks at bits beyond the source's limbs; unless the sign settles it, the code reads behind them. */
  predicate ReadsBehind(ty: FixedType, src: FixedType, x: int) {
    var low := Drop(ty, src) - 1;
    QuanInc(ty, src) && 32 * src.N() < low && if low % 32 != 0 then 0 <= x else x == 0
  }

  /** The test for overflow begins more than a limb below the source's first bit, and the code reads in front of it. */
  predicate ReadsInFront(ty: FixedType, src: FixedType) {
    Checked(ty, src) && Drop(ty, src) + 32 * ty.N() < -32
  }

  /** What is in front of the limbs makes a zero look too large. */
  ghost predicate ZeroMisread(ty: FixedType, src: FixedType, x: int, around: int -> Word) {
    var b := Drop(ty, src) + 32 * ty.N();
    Checked(ty, src) && b < 0 && x == 0 && !InFront(b, false, around)
  }

  /** What `overflow` says when the carry is not lost. */
  ghost predicate OverflowMeans(ty: FixedType, src: FixedType, y: int, overflow: bool)
    requires ty.Ok()
  {
    overflow <==>
      || !(ty.Least() <= y <= ty.Max())
      || (ty.o == SatSym && ty.signed && src.signed && y < 0 && Low(y, ty.w - 1) == 0)
  }

  // ------------------------------------------------------------------ the conversion

  /** A one-bit signed symmetric type holds only 0 by its documentation, and -1 as well by its code. */
  ghost predicate OneBitTarget(ty: FixedType, src: FixedType, x: int)
    requires ty.Ok()
  {
    ty.o == SatSym && ty.signed && ty.w == 1 && Rescaled(ty, src, x) < 0
  }

  /** The -1 of such a source, shifted up to the target's most negative number. */
  ghost predicate OneBitSource(ty: FixedType, src: FixedType, x: int) {
    && ty.o == SatSym && ty.signed && src.o == SatSym && src.signed && src.w == 1 && x == -1
    && Drop(ty, src) <= 0 && ty.w - 1 == -Drop(ty, src)
  }

  /** What the constructor stores. */
  ghost function Converted(ty: FixedType, src: FixedType, x: int): int
    requires ty.Ok()
  {
    if OneBitTarget(ty, src, x) || OneBitSource(ty, src, x) then ty.Least()
    else if CarryLost(ty, src, x) && ty.o != WrapAround then 0
    else Overflowed(ty, Rescaled(ty, src, x))
  }

  /** The number in W bits of limbs that hold y is that of y, and y itself in range. */
  lemma FieldOfHeld(ty: FixedType, s: seq<Word>, y: int)
    requires ty.Ok() && |s| == ty.N() && Held(s, y)
    ensures ty.Field(SVal(s)) == ty.Field(y)
    ensures ty.Least() <= y <= ty.Max() ==> ty.Field(y) == y
  {
    hide SVal, Shl, Low;
    HeldSigned(s, y);
    if ty.Least() <= y <= ty.Max() {
      if ty.signed { FitsS(y, ty.w); } else { FitsU(y, ty.w); }
    }
  }

  lemma MaxPositive(ty: FixedType)
    requires ty.Ok()
    ensures 0 <= ty.Max() && (ty.Max() == 0 <==> ty.signed && ty.w == 1)
    ensures ty.Least() <= 0 && (ty.signed ==> ty.Max() == -ty.Least() - 1)
  {
    hide Shl;
    var k: nat := ty.w - Flag(ty.signed);
    ShiftByZero(1);
    ShlMonotone(1, 1, k);
    if k > 0 { EvenOne(k); }
  }

  lemma MinusOneUp(ty: FixedType, src: FixedType, x: int)
    requires ty.Ok() && OneBitSource(ty, src, x)
    ensures Rescaled(ty, src, x) == ty.Least() && !CarryLost(ty, src, x)
  {
    hide Shl;
    ShlNegate(1, ty.w - 1);
  }

  /** The number in range whose low bits are all zero, below zero, is the most negative one. */
  lemma LeastOnly(ty: FixedType, y: int)
    requires ty.Ok() && ty.signed && ty.Least() <= y < 0
    ensures Low(y, ty.w - 1) == 0 <==> y == ty.Least()
  {
    hide Shl, Low;
    ShlNegate(1, ty.w - 1);
    ShrUnique(y, ty.w - 1, -1, y + Shl(1, ty.w - 1));
  }

  lemma InRangeField(ty: FixedType, y: int)
    requires ty.Ok() && ty.Least() <= y <= ty.Max()
    ensures ty.Field(y) == y
  {
    hide Shl, Low;
    if ty.signed { FitsS(y, ty.w); } else { FitsU(y, ty.w); }
  }

  lemma FieldOfPower(ty: FixedType)
    requires ty.Ok()
    ensures ty.Field(Shl(1, 32 * ty.N())) == 0
  {
    hide Shl, Shr, Low;
    ShlShl(1, 32 * ty.N() - ty.w, ty.w);
    ShrShl(Shl(1, 32 * ty.N() - ty.w), ty.w);
    ShlMonotone(1, 1, ty.w - 1);
  }

  /** Only a signed source becomes negative. */
  lemma SignKept(ty: FixedType, src: FixedType, x: int)
    requires ty.Ok() && src.Ok() && src.Least() <= x && !src.signed
    ensures 0 <= Rescaled(ty, src, x)
  {
    hide Shl, Shr, Low;
    var d := Drop(ty, src);
    if d > 0 {
      ShrNonneg(x, d);
    } else {
      ShlMonotone(x, 0, -d);
    }
  }

  lemma CheckedOutcome(ty: FixedType, src: FixedType, x: int, overflow: bool, negSrc: bool, result: int)
    requires ty.Ok() && src.Ok() && src.Least() <= x <= src.Max() && Checked(ty, src)
    requires CarryLost(ty, src, x) ==> !overflow && !negSrc
    requires !CarryLost(ty, src, x) ==> (
      && (negSrc <==> Rescaled(ty, src, x) < 0)
      && OverflowMeans(ty, src, Rescaled(ty, src, x), overflow))
    requires result == if overflow then Clipped(ty, negSrc) else ty.Field(Rescaled(ty, src, x))
    ensures result == Converted(ty, src, x)
  {
    hide Shl, Shr, Low, Rescaled, ToS;
    var y := Rescaled(ty, src, x);
    MaxPositive(ty);
    AboveMax(ty);
    if ty.Least() <= y <= ty.Max() {
      InRangeField(ty, y);
      if ty.signed && y < 0 { LeastOnly(ty, y); }
    }
    if !src.signed { SignKept(ty, src, x); }
    if ty.signed && ty.w == 1 { ShiftByZero(1); }
    if CarryLost(ty, src, x) { FieldOfPower(ty); }
    if OneBitSource(ty, src, x) { MinusOneUp(ty, src, x); }
  }

  lemma WithinShift(x: int, p: int, e: nat)
    ensures x < p <==> Shl(x, e) < Shl(p, e)
    ensures x <= p <==> Shl(x, e) <= Shl(p, e)
  {
    hide Shl;
    ShlMonotone(x, p, e);
  }

  lemma Doubles(a: nat, m: nat)
    requires a <= m
    ensures 1 <= Shl(1, a) <= Shl(1, m)
    ensures a < m ==> 2 * Shl(1, a) <= Shl(1, m)
  {
    hide Shl;
    ShlMonotone(1, 1, a);
    ShlGrows(1, a, m);
    if a < m {
      ShlGrows(1, a, m - 1);
      ShlStep(1, m - 1);
    }
  }

  /** A type that is not checked holds every rounded number of the source: the left shift. */
  lemma UncheckedLeft(x: int, m2: nat, e: nat, m: nat, neg: bool)
    requires (if neg then -Shl(1, m2) else 0) <= x < Shl(1, m2) && m2 + e <= m
    ensures (if neg then -Shl(1, m) else 0) <= Shl(x, e) < Shl(1, m)
    ensures -Shl(1, m2) < x || m2 + e < m ==> -Shl(1, m) < Shl(x, e)
  {
    hide Shl;
    var p := Shl(1, m2);
    WithinShift(x, p, e);
    WithinShift(-x, p, e);
    ShlNegate(x, e);
    ShlMonotone(x, 0, e);
    ShlShl(1, m2, e);
    Doubles(m2 + e, m);
  }

  /** A right shift takes as many bits off the range. */
  lemma ShiftedRange(x: int, k: nat, d: nat)
    requires d <= k && -Shl(1, k) <= x < Shl(1, k)
    ensures -Shl(1, k - d) <= Shr(x, d) < Shl(1, k - d) && (0 <= x ==> 0 <= Shr(x, d))
  {
    hide Shl, Shr;
    var q := Shl(1, k - d);
    ShlShl(1, k - d, d);
    ShlNegate(q, d);
    ShrSpec(x, d);
    ShlMonotone(q, Shr(x, d), d);
    ShrShl(-q, d);
    ShrMonotone(-Shl(q, d), x, d);
    if 0 <= x { ShrNonneg(x, d); }
  }

  /** The same for the right shift, when the rounding can add one to the number rounded down. */
  lemma UncheckedRight(x: int, m2: nat, d: nat, m: nat, neg: bool, y: int, inc: bool)
    requires d <= m2 && (if neg then -Shl(1, m2) else 0) <= x < Shl(1, m2) && m2 - d + Flag(inc) <= m
    requires Shr(x, d) <= y <= Shr(x, d) + Flag(inc)
    ensures (if neg then -Shl(1, m) else 0) <= y < Shl(1, m)
    ensures inc && 1 <= m ==> -Shl(1, m) < y
  {
    hide Shl, Shr;
    ShlMonotone(1, 1, m2);
    ShlMonotone(1, 1, m2 - d);
    ShiftedRange(x, m2, d);
    if inc {
      ShlGrows(1, m2 - d, m - 1);
      ShlStep(1, m - 1);
    } else {
      ShlGrows(1, m2 - d, m);
    }
  }

  /** The same when all bits are shifted out. */
  lemma UncheckedAllOut(x: int, m2: nat, d: nat, m: nat, neg: bool, y: int, inc: bool)
    requires m2 < d && (if neg then -Shl(1, m2) else 0) <= x < Shl(1, m2)
    requires Shr(x, d) <= y <= Shr(x, d) + Flag(inc) && (0 <= 2 * x < Shl(1, d) ==> y == 0)
    ensures (if neg then -Shl(1, m) else 0) <= y < Shl(1, m)
    ensures inc && 1 <= m ==> -Shl(1, m) < y
  {
    hide Shl, Shr;
    ShlMonotone(1, 1, m);
    if 1 <= m {
      ShlStep(1, m - 1);
      ShlMonotone(1, 1, m - 1);
    }
    ShlGrows(1, m2, d - 1);
    ShlStep(1, d - 1);
    HighPart(x, d);
  }

  lemma SmallRoundsToZero(q: QMode, x: int, d: nat)
    requires 1 <= d
    ensures 0 <= 2 * x < Shl(1, d) ==> Quantize(q, x, d) == 0
  {
    hide Shl, Shr;
    HighPart(x, d);
  }

  /** A type that is not checked holds every rounded number of the source. */
  lemma UncheckedFits(ty: FixedType, src: FixedType, x: int)
    requires ty.Ok() && src.Ok() && ty.o != WrapAround && !Checked(ty, src) && src.Least() <= x <= src.Max()
    requires src.o == SatSym && src.signed && src.w > 1 ==> src.Min() <= x
    ensures ty.Least() <= Rescaled(ty, src, x) <= ty.Max()
    ensures Rescaled(ty, src, x) < ty.Min() ==> OneBitTarget(ty, src, x) || OneBitSource(ty, src, x)
    ensures !CarryLost(ty, src, x)
  {
    hide Shl, Shr, Low;
    var d, m: nat, m2: nat := Drop(ty, src), ty.w - Flag(ty.signed), src.w - Flag(src.signed);
    AboveMax(ty);
    MaxPositive(ty);
    if d > 0 {
      SmallRoundsToZero(ty.q, x, d);
      if !QuanInc(ty, src) { NoRounding(ty.q, x, d); }
      var inc := QuanInc(ty, src) || (src.signed && ty.o == SatSym);
      if d <= m2 {
        UncheckedRight(x, m2, d, m, src.signed, Rescaled(ty, src, x), inc);
      } else {
        UncheckedAllOut(x, m2, d, m, src.signed, Rescaled(ty, src, x), inc);
      }
    } else {
      UncheckedLeft(x, m2, -d, m, src.signed);
      ShlMonotone(x, 0, -d);
      ShiftByZero(1);
    }
  }

  lemma UncheckedOutcome(ty: FixedType, src: FixedType, x: int)
    requires ty.Ok() && src.Ok() && src.Least() <= x <= src.Max() && !Checked(ty, src)
    requires src.o == SatSym && src.signed && src.w > 1 ==> src.Min() <= x
    ensures ty.Field(Rescaled(ty, src, x)) == Converted(ty, src, x)
  {
    hide Shl, Shr, Low, Rescaled, ToS, Checked;
    if ty.o != WrapAround {
      UncheckedFits(ty, src, x);
      InRangeField(ty, Rescaled(ty, src, x));
      if ty.signed && ty.w == 1 { ShiftByZero(1); }
      if OneBitSource(ty, src, x) { MinusOneUp(ty, src, x); }
    }
  }

  lemma FieldRange(ty: FixedType, y: int)
    requires ty.Ok()
    ensures ty.Least() <= ty.Field(y) <= ty.Max()
  {
    hide Shl, Shr;
    ShrSpec(y, ty.w);
    ShlStep(1, ty.w - 1);
  }

  lemma ConvertedFits(ty: FixedType, src: FixedType, x: int)
    requires ty.Ok()
    ensures ty.Least() <= Converted(ty, src, x) <= ty.Max()
  {
    hide Shl, Rescaled, CarryLost, OneBitTarget, OneBitSource;
    MaxPositive(ty);
    if ty.o == WrapAround { FieldRange(ty, Rescaled(ty, src, x)); }
  }

  lemma ClippedFits(ty: FixedType)
    requires ty.Ok()
    ensures ty.Least() <= Clipped(ty, false) <= ty.Max()
  {
    hide Shl;
    MaxPositive(ty);
  }

  lemma AnyClipped(ty: FixedType, neg: bool)
    requires ty.Ok()
    ensures ty.o != WrapAround ==> forall y: int ::
      !Fits(ty, y) && neg == (y < 0) && !(ty.o == SatSym && ty.signed && ty.w == 1 && neg) ==>
        Settles(ty, y, Clipped(ty, neg))
  {
    hide Fits, Settles, Clipped;
    forall y: int | ty.o != WrapAround && !Fits(ty, y) && neg == (y < 0)
      ensures Settles(ty, y, Clipped(ty, neg)) <==> !(ty.o == SatSym && ty.signed && ty.w == 1 && neg)
    {
      ClippedSettles(ty, y);
    }
  }

  /** The inputs on which the constructor departs from its modes. */
  ghost predicate Departs(ty: FixedType, src: FixedType, x: int)
    requires ty.Ok()
  {
    || OneBitTarget(ty, src, x) || OneBitSource(ty, src, x)
    || (CarryLost(ty, src, x) && (ty.o == Sat || ty.o == SatSym) && !(ty.signed && ty.w == 1))
  }

  /** y is the source's number in units of the target's last bit, rounded: F2 = W2 - I2 fraction bits become F. */
  ghost predicate Rescales(ty: FixedType, src: FixedType, x: int, y: int) {
    var d := (src.w - src.i) - (ty.w - ty.i);
    if d > 0 then Rounds(ty.q, x, d, y) else y == Shl(x, -d)
  }

  /**
   * The result is the overflow mode applied to the rounding mode applied to the exact number on all inputs but those.
   */
  lemma ConvertedExactly(ty: FixedType, src: FixedType, x: int)
    requires ty.Ok() && src.Ok() && src.Least() <= x <= src.Max()
    ensures Converted(ty, src, x) == Overflowed(ty, Rescaled(ty, src, x)) <==> !Departs(ty, src, x)
  {
    hide Shl, Rescaled, ToS;
    ShlMonotone(1, 1, ty.w - 1);
    MaxPositive(ty);
    if OneBitTarget(ty, src, x) { ShiftByZero(1); }
    if OneBitSource(ty, src, x) { MinusOneUp(ty, src, x); }
    if CarryLost(ty, src, x) { AboveMax(ty); }
  }

  /** In terms of what the modes mean: one rounded number, and what the overflow mode makes of it. */
  lemma ConvertedSettles(ty: FixedType, src: FixedType, x: int, y: int)
    requires ty.Ok() && src.Ok() && src.Least() <= x <= src.Max() && Rescales(ty, src, x, y)
    ensures Settles(ty, y, Converted(ty, src, x)) <==> !Departs(ty, src, x)
  {
    hide Settles, Overflowed, Departs, Converted, Quantize, Rounds, Shl;
    var d := Drop(ty, src);
    if d > 0 { QuantizeRounds(ty.q, x, d, y); }
    ConvertedExactly(ty, src, x);
    OverflowSettles(ty, y, Converted(ty, src, x));
  }

  /** `iv<N>` with the type's parameters: the limbs the operations change in place. */
  class Fixed {
    const ty: FixedType
    const v: array<Word>

    /** The limbs hold the sign- or zero-extended number. */
    ghost predicate Valid()
      reads v
    {
      ty.Ok() && v.Length == ty.N() && ty.Least() <= SVal(v[..]) <= ty.Max()
    }

    ghost function Value(): int
      requires v.Length > 0
      reads v
    {
      SVal(v[..])
    }

    /** A symmetric type of more than one bit does not hold its most negative number. */
    ghost predicate Symmetric()
      requires Valid()
      reads v
    {
      ty.o == SatSym && ty.w > 1 ==> ty.Min() <= SVal(v[..])
    }

    /** `bit_adjust`: cuts the top limb to the bits of the type. */
    method BitAdjust()
      requires ty.Ok() && v.Length == ty.N()
      modifies v
      ensures Value() == ty.Field(old(Value()))
    {
      hide SVal, UVal, CutWord, ToS;
      ghost var o := v[..];
      v[v.Length - 1] := CutWord(v[v.Length - 1], (32 - ty.w) % 32, ty.signed);
      CutTopLimb(ty, o, v[..]);
    }

    /** `overflow_adjust`: the bound that was passed, or the type's bits of the number. */
    method OverflowAdjust(overflow: bool, neg: bool)
      requires ty.Ok() && v.Length == ty.N()
      modifies v
      ensures Value() == if overflow && ty.o != WrapAround then Clipped(ty, neg) else ty.Field(old(Value()))
      ensures overflow && ty.o != WrapAround ==> forall y: int ::
        !Fits(ty, y) && neg == (y < 0) && !(ty.o == SatSym && ty.signed && ty.w == 1 && neg) ==>
          Settles(ty, y, Value())
    {
      hide SVal, UVal, Fits, Settles;
      AnyClipped(ty, neg);
      var n := v.Length;
      if ty.o == WrapAround || !overflow {
        BitAdjust();
      } else if ty.o == SatZero || (!ty.signed && neg) {
        Extend(v, 0, false);
        ZeroLimbs(v[..]);
      } else {
        Extend(v, 0, !neg); // the top limb is written next
        var top := Shl(1, (if ty.signed then ty.w - 1 else ty.w) % 32);
        TopOfClip(ty, top);
        v[n - 1] := if neg then B - top else top - 1;
        ClippedLimbs(ty, v[..], neg, top);
        if neg && ty.o == SatSym {
          ghost var w := v[..];
          v[0] := if v[0] % 2 == 1 then v[0] else v[0] + 1; // v[0] |= 1
          assert v[..] == w[0 := v[0]];
          SetLowestBit(ty, w, v[..]);
        }
      }
    }

    /** `quantization_adjust`: adds the rounding bit the mode asks for; the carry out of the last limb is returned. */
    method QuantizationAdjust(qb: bool, r: bool, s: bool) returns (carry: bool)
      requires v.Length > 0
      modifies v
      ensures UVal(v[..]) + Up(Flag(carry), v.Length)
        == old(UVal(v[..])) + Flag(RoundingBit(ty.q, qb, r, s, old(v[0]) % 2 == 1))
    {
      hide UVal;
      if ty.q == Trn {
        carry := false;
        ShlZero(32 * v.Length);
      } else {
        carry := UaddCarry(v, RoundingBit(ty.q, qb, r, s, v[0] % 2 == 1));
      }
    }

    /**
     * The first half of the constructor: the source's number in the target's units, rounded, in the target's limbs.
     * What is read behind the source's limbs does not matter.
     */
    method Quantization(op: Fixed, around: int -> Word) returns (carry: bool, outside: bool)
      requires op.Valid() && ty.Ok() && v.Length == ty.N() && op.v != v
      modifies v
      ensures Held(v[..], Rescaled(ty, op.ty, op.Value()))
      ensures Shr(Rescaled(ty, op.ty, op.Value()), 32 * v.Length)
        == Shr(Shifted(op.Value(), Drop(ty, op.ty)), 32 * v.Length) + Flag(carry)
      ensures outside <==> ReadsBehind(ty, op.ty, op.Value())
    {
      hide SVal, UVal, Low, Shl, Shr, Bit, BitAt, RoundingBit;
      ghost var x := op.Value();
      var d, n2 := Drop(ty, op.ty), op.v.Length;
      carry, outside := false, false;
      SValBound(op.v[..]);
      if d == 0 {
        AssignLimbs(op.v, v);
        ShiftByZero(x);
      } else if d > 0 {
        ConstShiftR(op.v, d, v);
        if ty.q != Trn && !(ty.q == TrnZero && !op.ty.signed) {
          FirstRoundingBit(op.ty, op.v[..], d);
          var qb := if d > op.ty.w then op.v[n2 - 1] >= HALF else BitAt(op.v[..], d - 1);
          var zeros := true;
          if d > 1 { zeros, outside := EqualZerosTo(op.v, d - 1, around); } else { ShiftByZero(x); }
          ghost var v0 := v[..];
          LastBitKept(v0, Shr(x, d));
          var s := op.ty.signed && op.v[n2 - 1] >= HALF;
          carry := QuantizationAdjust(qb, !zeros, s);
          ZeroNotRounded(ty.q, x, d, !zeros, Shr(x, d) % 2 == 1);
          RoundingBitRounds(ty.q, x, d);
          RoundState(v0, v[..], Shr(x, d), RoundingBit(ty.q, qb, !zeros, s, Shr(x, d) % 2 == 1), carry);
        } else {
          NoRounding(ty.q, x, d);
        }
      } else {
        ConstShiftL(op.v, -d, v);
      }
    }

    /** What the source's bits above the target's limbs say, with the carry: its sign, and whether all are the same. */
    method AboveLimbs(op: Fixed, carry: bool, around: int -> Word)
      returns (zeros: bool, ones: bool, negSrc: bool, outside: bool)
      requires op.Valid() && ty.Ok() && v.Length == ty.N()
      requires Held(v[..], Rescaled(ty, op.ty, op.Value()))
      requires Shr(Rescaled(ty, op.ty, op.Value()), 32 * v.Length)
        == Shr(Shifted(op.Value(), Drop(ty, op.ty)), 32 * v.Length) + Flag(carry)
      ensures CarryLost(ty, op.ty, op.Value()) ==> !negSrc && zeros && SVal(v[..]) == 0
      ensures 0 <= Drop(ty, op.ty) + 32 * ty.N() && !CarryLost(ty, op.ty, op.Value()) ==> (
        var hi := Shr(Rescaled(ty, op.ty, op.Value()), 32 * v.Length);
        (negSrc <==> hi < 0) && (if negSrc then ones <==> hi == -1 else zeros <==> hi == 0))
      ensures var b := Drop(ty, op.ty) + 32 * ty.N();
        && (outside <==> b < -32)
        && (b < 0 ==> (negSrc <==> op.Value() < 0) && (zeros <==> op.Value() == 0 && InFront(b, false, around)))
    {
      hide SVal, UVal, Low, Shl, Shr, Held, Rescaled, Shifted, InFront;
      ghost var x := op.Value();
      var b := Drop(ty, op.ty) + 32 * v.Length;
      var negOp := op.ty.signed && op.v[op.v.Length - 1] >= HALF;
      SValBound(op.v[..]);
      SValBound(v[..]);
      if 0 <= b { BitsAbove(x, Drop(ty, op.ty), 32 * v.Length); } else { NoCarry(ty, op.ty, x); }
      zeros, ones, outside := true, true, false;
      if b < op.ty.w {
        var allOnes;
        zeros, ones, allOnes, outside := BitsBeyond(op.v, b, carry, around);
        if 0 <= b { ShrRange(x, b); }
        negSrc := negOp && !(carry && allOnes);
      } else {
        negSrc := negOp && v[v.Length - 1] >= HALF;
        NothingAbove(ty, op.ty, x, v[..], carry);
      }
    }

    /** The bits deleted from the target's top limb and beyond, with the sign bit, against the sign of the source. */
    method BitTest(zerosAbove: bool, onesAbove: bool, negSrc: bool) returns (overflow: bool)
      requires ty.Ok() && v.Length == ty.N()
      ensures overflow <==> (
        var s, whole := Value(), ty.signed && ty.w % 32 == 0;
        var negTrg := ty.signed && Bit(s, ty.w - 1);
        if negSrc then !negTrg || !(onesAbove && (whole || Shr(s, ty.w) == -1))
        else negTrg || !(zerosAbove && (whole || Shr(s, ty.w) == 0)))
    {
      hide SVal, UVal, Shl, Shr, Bit, BitAt;
      var n, w := v.Length, ty.w;
      var top := Shr(Signed(v[n - 1]), w % 32);
      var whole := ty.signed && w % 32 == 0;
      var zero, ones := whole || top == 0, whole || top == -1;
      zero, ones := zero && zerosAbove, ones && onesAbove;
      var negTrg := ty.signed && BitAt(v[..], w - 1);
      overflow := !negSrc && (negTrg || !zero);
      overflow := overflow || (negSrc && (!negTrg || !ones));
      BitAtIs(v[..], w - 1);
      if !whole { TopShift(ty, v[..]); }
    }

    /**
     * The second half: whether the rounded number fits, from the target's limbs and the source's bits above them. Only
     * for zero can it matter what is read in front of the source's limbs.
     */
    method DetectOverflow(op: Fixed, carry: bool, around: int -> Word)
      returns (overflow: bool, negSrc: bool, outside: bool)
      requires op.Valid() && ty.Ok() && v.Length == ty.N() && Checked(ty, op.ty)
      requires Held(v[..], Rescaled(ty, op.ty, op.Value()))
      requires Shr(Rescaled(ty, op.ty, op.Value()), 32 * v.Length)
        == Shr(Shifted(op.Value(), Drop(ty, op.ty)), 32 * v.Length) + Flag(carry)
      ensures CarryLost(ty, op.ty, op.Value()) ==> !overflow && !negSrc
      ensures !CarryLost(ty, op.ty, op.Value()) ==> (negSrc <==> Rescaled(ty, op.ty, op.Value()) < 0)
      ensures !CarryLost(ty, op.ty, op.Value()) && !ZeroMisread(ty, op.ty, op.Value(), around) ==>
        OverflowMeans(ty, op.ty, Rescaled(ty, op.ty, op.Value()), overflow)
      ensures ZeroMisread(ty, op.ty, op.Value(), around) ==> overflow && !negSrc
      ensures outside <==> ReadsInFront(ty, op.ty)
    {
      hide SVal, UVal, Low, Shl, Shr, Bit, BitAt, Held, Rescaled, Shifted, CarryLost, Checked, InFront;
      ghost var y := Rescaled(ty, op.ty, op.Value());
      var n, w := v.Length, ty.w;
      var zerosAbove, onesAbove;
      zerosAbove, onesAbove, negSrc, outside := AboveLimbs(op, carry, around);
      overflow := BitTest(zerosAbove, onesAbove, negSrc);
      ZeroBits(w);
      if Drop(ty, op.ty) + 32 * n < 0 {
        FarLeft(ty, op.ty, op.Value(), v[..]);
        MaxPositive(ty);
        NoCarry(ty, op.ty, op.Value());
      } else {
        HeldSigned(v[..], y);
        OverflowTest(ty, y, SVal(v[..]), Shr(y, 32 * n), Low(y, 32 * n));
        HighPart(y, 32 * n);
      }
      if ty.o == SatSym && ty.signed && op.ty.signed {
        var least, far := true, false;
        if w > 1 { least, far := EqualZerosTo(v, w - 1, around); } else { ShiftByZero(y); }
        overflow := overflow || (negSrc && least);
      }
    }

    /**
     * `ac_fixed(const ac_fixed<W2,I2,S2,Q2,O2> &op)`. The memory around the source's limbs decides only what becomes of
     * a zero.
     */
    constructor Convert(ty: FixedType, op: Fixed, around: int -> Word)
      requires ty.Ok() && op.Valid() && op.Symmetric()
      ensures this.ty == ty && fresh(v) && Valid()
      ensures Value() == if ZeroMisread(ty, op.ty, op.Value(), around) then Clipped(ty, false)
                         else Converted(ty, op.ty, op.Value())
      ensures !ZeroMisread(ty, op.ty, op.Value(), around) && !Departs(ty, op.ty, op.Value()) ==>
        forall y :: Rescales(ty, op.ty, op.Value(), y) ==> Settles(ty, y, Value())
    {
      this.ty := ty;
      v := new Word[ty.N()];
      new;
      hide SVal, UVal, Shl, Shr, Low, Held, Rescaled, Shifted, Converted, Checked, CarryLost, InFront, Clipped;
      hide Settles, Departs, Rescales;
      ghost var x := op.Value();
      var carry, behind := Quantization(op, around);
      FieldOfHeld(ty, v[..], Rescaled(ty, op.ty, x));
      ClippedFits(ty);
      if Checked(ty, op.ty) {
        var overflow, negSrc, inFront := DetectOverflow(op, carry, around);
        OverflowAdjust(overflow, negSrc);
        if !ZeroMisread(ty, op.ty, x, around) { CheckedOutcome(ty, op.ty, x, overflow, negSrc, Value()); }
      } else {
        BitAdjust();
        UncheckedOutcome(ty, op.ty, x);
      }
      ConvertedFits(ty, op.ty, x);
      forall y | Rescales(ty, op.ty, x, y) ensures Settles(ty, y, Converted(ty, op.ty, x)) <==> !Departs(ty, op.ty, x) {
        ConvertedSettles(ty, op.ty, x, y);
      }
    }
  }

  /** The rounding the float operations end with is the conversion by `AC_RND_CONV`. */
  lemma RoundConvQuantizes(x: int, k: nat)
    requires 1 <= k
    ensures FloatFormat.RoundConv(x, k) == Quantize(RndConv, x, k)
  {
    hide Quantize, Shr, Low;
    RoundingBitRounds(RndConv, x, k);
  }

  /**
   * A concrete input: 2^33 - 1 halves, rounded to 31 unsigned integer bits with saturation, becomes 0 and not 2^31 - 1.
   */
  lemma SaturationMissed()
    ensures var ty, src := FixedType(31, 31, false, Rnd, Sat), FixedType(33, 32, false, Trn, WrapAround);
      Departs(ty, src, 0x1_FFFF_FFFF) && Converted(ty, src, 0x1_FFFF_FFFF) == 0
      && Overflowed(ty, Rescaled(ty, src, 0x1_FFFF_FFFF)) == 0x7FFF_FFFF
  {
    hide Shl, Shr, Low;
    var ty, src := FixedType(31, 31, false, Rnd, Sat), FixedType(33, 32, false, Trn, WrapAround);
    var x := 0x1_FFFF_FFFF;
    assert Shl(1, 1) == 2 && Shl(0xFFFF_FFFF, 1) == 0x1_FFFF_FFFE by {
      ShlStep(1, 0);
      ShlStep(0xFFFF_FFFF, 0);
      ShiftByZero(1);
      ShiftByZero(0xFFFF_FFFF);
    }
    ShrUnique(x, 1, 0xFFFF_FFFF, 1);
    assert Drop(ty, src) == 1;
    assert Quantize(Rnd, x, 1) == 0x1_0000_0000;
    Shl32(1);
    ShlStep(1, 31);
    assert ty.N() == 1;
  }

  /** One bit and a sign of its own: a one-bit symmetric target stores -1 where its modes give 0. */
  lemma OneBitTargetMissed()
    ensures var ty, src := FixedType(1, 1, true, Trn, SatSym), FixedType(2, 2, true, Trn, WrapAround);
      OneBitTarget(ty, src, -1) && Departs(ty, src, -1)
      && Converted(ty, src, -1) == -1 && Overflowed(ty, Rescaled(ty, src, -1)) == 0
  {
    hide Shl, Shr, Low;
    var ty, src := FixedType(1, 1, true, Trn, SatSym), FixedType(2, 2, true, Trn, WrapAround);
    ShiftByZero(1);
    ShiftByZero(-1);
    assert Drop(ty, src) == 0 && Rescaled(ty, src, -1) == -1;
    assert ty.Least() == -1 && ty.Max() == 0 && ty.Min() == 0;
  }

  /** Two more fraction bits: -1 from a one-bit symmetric source becomes -4 in three bits, where the modes give -3. */
  lemma OneBitSourceMissed()
    ensures var ty, src := FixedType(3, 1, true, Trn, SatSym), FixedType(1, 1, true, Trn, SatSym);
      OneBitSource(ty, src, -1) && Departs(ty, src, -1)
      && Converted(ty, src, -1) == -4 && Overflowed(ty, Rescaled(ty, src, -1)) == -3
  {
    assert Shl(1, 1) == 2 && Shl(1, 2) == 4;
    assert Shl(-1, 1) == -2 && Shl(-1, 2) == -4;
  }

  /**
   * The points lie more than a limb further apart than the target's limbs reach: then, and only then, there are limbs
   * in front of the source's that turn its zero into the target's bound.
   */
  lemma MisreadExactly(ty: FixedType, src: FixedType, x: int)
    ensures (exists around: int -> Word :: ZeroMisread(ty, src, x, around)) <==> ReadsInFront(ty, src) && x == 0
  {
    hide Checked, Shr;
    var b := Drop(ty, src) + 32 * ty.N();
    var ones: int -> Word := _ => B - 1;
    if ReadsInFront(ty, src) && x == 0 {
      ConstantShift(-1, b % 32);
      assert ones(-1) != 0;
      assert !InFront(b, false, ones);
      assert ZeroMisread(ty, src, x, ones);
    }
  }

  /** Concrete types: eight integer bits to eight bits that end 108 places below the point. Zero can become 127. */
  lemma ZeroSaturates()
    ensures var ty, src := FixedType(8, -100, true, Trn, Sat), FixedType(8, 8, true, Trn, WrapAround);
      && ReadsInFront(ty, src) && ZeroMisread(ty, src, 0, _ => 1)
      && Converted(ty, src, 0) == 0 && Clipped(ty, false) == 127
  {
    hide Shr;
    var ty, src := FixedType(8, -100, true, Trn, Sat), FixedType(8, 8, true, Trn, WrapAround);
    assert Drop(ty, src) + 32 * ty.N() == -76 && LimbIndex(-76 + 31) == -1;
    var one: int -> Word := _ => 1;
    assert one(-1) != 0;
    assert !InFront(-76, false, one);
    ShlZero(108);
    Shl8(1);
    ShlStep(1, 7);
  }
}
