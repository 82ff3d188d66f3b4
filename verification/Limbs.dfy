/**
 * The meaning of a limb vector: `int v[N]` holds one 32-bit word per element, least significant first, and denotes
 * either an unsigned number or a two's-complement one whose sign is the top bit of the last word.
 */
module Limbs {
  import opened Arith

  const B: int := 0x1_0000_0000
  const HALF: int := 0x8000_0000
  const TWO63: int := 0x8000_0000_0000_0000
  const TWO64: int := 0x1_0000_0000_0000_0000

  /** The bit pattern of one C++ `int`, read as `unsigned`. */
  type Word = i: int | 0 <= i < B

  /** `(int) w`: the same pattern read as a signed number. */
  function Signed(w: Word): (s: int)
    ensures -HALF <= s < HALF
    ensures s == w || s == w - B
  {
    if w < HALF then w else w - B
  }

  /** `(unsigned) x`: the low 32 bits of x. */
  function Low32(x: int): Word {
    x % B
  }

  /** A value stored into a signed 64-bit variable. */
  function Wrap64(x: int): (y: int)
    ensures -TWO63 <= y < TWO63
  {
    var u := x % TWO64;
    if u >= TWO63 then u - TWO64 else u
  }

  lemma Wrap64Is(x: int, y: int, k: int)
    requires -TWO63 <= y < TWO63 && x == y + k * TWO64
    ensures Wrap64(x) == y
  {
  }

  lemma ProductBound(a: Word, b: Word)
    ensures 0 <= a * b <= (B - 1) * (B - 1)
  {
    MulNonneg(a, b);
    MulMonotone(a, B - 1, b);
    MulMonotone(b, B - 1, B - 1);
  }

  /** x moved up by k limbs. */
  function Up(x: int, k: nat): int {
    Shl(x, 32 * k)
  }

  lemma UpStep(x: int, k: nat)
    ensures Up(x, 0) == x
    ensures Up(x, k + 1) == B * Up(x, k) == Up(B * x, k)
  {
    Shl32(x);
    ShlShl(x, 32, 32 * k);
    ShlTimes(B, x, 32 * k);
  }

  lemma UpZero(n: nat)
    ensures Up(0, n) == 0
  {
    ShlZero(32 * n);
  }

  lemma ShrByLimb(h: int)
    ensures Shr(h, 32) == h / B && Low(h, 32) == Low32(h)
  {
    Shl32(h / B);
    Shl32(1);
    DivModEq(h, B);
    ShrUnique(h, 32, h / B, h % B);
  }

  lemma UpUp(x: int, a: nat, b: nat)
    ensures Up(Up(x, a), b) == Up(x, a + b)
  {
    ShlShl(x, 32 * a, 32 * b);
  }

  lemma UpPlus(x: int, y: int, k: nat)
    ensures Up(x + y, k) == Up(x, k) + Up(y, k)
  {
    ShlPlus(x, y, 32 * k);
  }

  lemma UpMinus(x: int, y: int, k: nat)
    ensures Up(x - y, k) == Up(x, k) - Up(y, k)
  {
    ShlMinus(x, y, 32 * k);
  }

  lemma UpTimes(c: int, x: int, k: nat)
    ensures Up(x * c, k) == Up(x, k) * c
  {
    ShlTimes(c, x, 32 * k);
  }

  lemma UpMonotone(x: int, y: int, k: nat)
    ensures x <= y <==> Up(x, k) <= Up(y, k)
    ensures x == y <==> Up(x, k) == Up(y, k)
    ensures 0 <= x <==> 0 <= Up(x, k)
    ensures 0 < x <==> 0 < Up(x, k)
  {
    ShlMonotone(x, y, 32 * k);
  }

  /** The unsigned number a limb vector denotes. */
  function UVal(s: seq<Word>): (v: int)
    ensures 0 <= v
  {
    if s == [] then 0 else s[0] + B * UVal(s[1..])
  }

  lemma {:induction false} UValBound(s: seq<Word>)
    ensures UVal(s) < Up(1, |s|)
  {
    if s == [] {
    } else {
      UValBound(s[1..]);
      UpStep(1, |s| - 1);
    }
  }

  lemma UValOne(w: Word)
    ensures UVal([w]) == w
  {
    assert [w][1..] == [];
  }

  lemma {:induction false} UValAppend(s: seq<Word>, t: seq<Word>)
    ensures UVal(s + t) == UVal(s) + Up(UVal(t), |s|)
  {
    if s == [] {
      assert s + t == t;
    } else {
      UValAppend(s[1..], t);
      assert (s + t)[1..] == s[1..] + t;
      UpStep(UVal(t), |s| - 1);
    }
  }

  lemma UValSplit(s: seq<Word>, k: nat)
    requires k <= |s|
    ensures UVal(s) == UVal(s[..k]) + Up(UVal(s[k..]), k)
  {
    assert s == s[..k] + s[k..];
    UValAppend(s[..k], s[k..]);
  }

  lemma UValTail(s: seq<Word>, k: nat)
    requires k < |s|
    ensures UVal(s[k..]) == s[k] + B * UVal(s[k + 1..])
  {
    assert s[k..][1..] == s[k + 1..];
  }

  lemma UValUpdate(s: seq<Word>, k: nat, w: Word)
    requires k < |s|
    ensures UVal(s[k := w]) == UVal(s) + Up(w - s[k], k)
  {
    hide Up;
    var t := s[k := w];
    UValSplit(s, k);
    UValSplit(t, k);
    UValTail(s, k);
    UValTail(t, k);
    assert t[..k] == s[..k] && t[k + 1..] == s[k + 1..];
    UpMinus(UVal(t[k..]), UVal(s[k..]), k);
  }

  lemma UValSnoc(s: seq<Word>, k: nat)
    requires k < |s|
    ensures UVal(s[..k + 1]) == UVal(s[..k]) + Up(s[k], k)
  {
    assert s[..k + 1] == s[..k] + [s[k]];
    UValAppend(s[..k], [s[k]]);
    UValOne(s[k]);
  }

  lemma {:induction false} UValZeros(s: seq<Word>)
    requires forall i :: 0 <= i < |s| ==> s[i] == 0
    ensures UVal(s) == 0
  {
    if s != [] {
      UValZeros(s[1..]);
    }
  }

  lemma {:induction false} UValZeroLimbs(s: seq<Word>)
    requires UVal(s) == 0
    ensures forall i :: 0 <= i < |s| ==> s[i] == 0
  {
    if s != [] {
      UValZeroLimbs(s[1..]);
      forall i | 0 <= i < |s| ensures s[i] == 0 {
        if i > 0 { assert s[i] == s[1..][i - 1]; }
      }
    }
  }

  lemma UValHighZeros(s: seq<Word>, k: nat)
    requires k <= |s| && forall i :: k <= i < |s| ==> s[i] == 0
    ensures UVal(s) == UVal(s[..k])
  {
    UValSplit(s, k);
    UValZeros(s[k..]);
    ShlZero(32 * k);
  }

  /** The limbs at and above k of a number below 2^(32k) are all zero. */
  lemma UValBelow(s: seq<Word>, k: nat)
    requires k <= |s| && UVal(s) < Up(1, k)
    ensures forall i :: k <= i < |s| ==> s[i] == 0
    ensures UVal(s[k..]) == 0 && UVal(s) == UVal(s[..k])
  {
    UValSplit(s, k);
    UpMonotone(1, UVal(s[k..]), k);
    UValZeroLimbs(s[k..]);
    forall i | k <= i < |s| ensures s[i] == 0 {
      assert s[i] == s[k..][i - k];
    }
    ShlZero(32 * k);
  }

  /** The number modulo 2^(32n) is its low n limbs. */
  lemma ModuloLimbs(v: int, low: int, c: int, n: nat)
    requires v == low + Up(c, n) && 0 <= low < Up(1, n)
    ensures v % Up(1, n) == low && v / Up(1, n) == c
  {
    UpTimes(c, 1, n);
    hide Up;
    DivModUnique(v, Up(1, n), c, low);
  }

  /** The two's-complement number a non-empty limb vector denotes. */
  function SVal(s: seq<Word>): int
    requires s != []
  {
    UVal(s) - if s[|s| - 1] >= HALF then Up(1, |s|) else 0
  }

  lemma SValSnoc(s: seq<Word>)
    requires s != []
    ensures SVal(s) == UVal(s[..|s| - 1]) + Up(Signed(s[|s| - 1]), |s| - 1)
  {
    hide Shl;
    var k := |s| - 1;
    assert s[..k + 1] == s;
    UValSnoc(s, k);
    UpStep(1, k);
    if s[k] >= HALF {
      ShlMinus(s[k], B, 32 * k);
    }
  }

  /** The signed range of the vector, with the sign read off the top limb. */
  lemma SValBound(s: seq<Word>)
    requires s != []
    ensures -Up(HALF, |s| - 1) <= SVal(s) < Up(HALF, |s| - 1)
    ensures Up(1, |s|) == 2 * Up(HALF, |s| - 1)
    ensures SVal(s) < 0 <==> s[|s| - 1] >= HALF
  {
    var k := |s| - 1;
    SValSnoc(s);
    UValBound(s[..k]);
    UpStep(1, k);
    var t := Signed(s[k]);
    ShlNegate(HALF, 32 * k);
    UpMonotone(-HALF, t, k);
    UpMonotone(t + 1, HALF, k);
    UpMonotone(t + 1, 0, k);
    UpPlus(t, 1, k);
    UpMonotone(t, t, k);
    UpPlus(HALF, HALF, k);
    ShlZero(32 * k);
  }

  /** Sign extension by limbs equal to the sign keeps the number. */
  lemma {:induction false} SValExtend(s: seq<Word>, e: seq<Word>)
    requires s != []
    requires forall i :: 0 <= i < |e| ==> e[i] == if s[|s| - 1] >= HALF then B - 1 else 0
    ensures SVal(s + e) == SVal(s)
    decreases |e|
  {
    if e == [] {
      assert s + e == s;
    } else {
      var f := e[..|e| - 1];
      SValExtend(s, f);
      var t, x := s + f, e[|e| - 1];
      assert s + e == t + [x];
      assert (t + [x])[..|t|] == t;
      UpStep(1, |t|);
      SValSnoc(t + [x]);
      assert t[|t| - 1] >= HALF <==> s[|s| - 1] >= HALF;
      ShlNegate(1, 32 * |t|);
      ShlZero(32 * |t|);
    }
  }

  /** The two's-complement number with modulus m congruent to x: what remains of x in a field with m patterns. */
  function Wrap(x: int, m: int): (y: int)
    requires 0 < m
    ensures -m <= 2 * y < m
  {
    var u := x % m;
    if 2 * u >= m then u - m else u
  }

  /** Wrap is the only number in the signed range congruent to x. */
  lemma WrapUnique(x: int, m: int, y: int, k: int)
    requires 0 < m && -m <= 2 * y < m && x == y + k * m
    ensures Wrap(x, m) == y
  {
    if y >= 0 {
      DivModUnique(x, m, k, y);
    } else {
      assert (k - 1) * m == k * m - m;
      DivModUnique(x, m, k - 1, y + m);
    }
  }

  lemma WrapIdentity(x: int, m: int)
    requires 0 < m && -m <= 2 * x < m
    ensures Wrap(x, m) == x
  {
    WrapUnique(x, m, x, 0);
  }

  lemma WrapFromUnsigned(x: int, m: int, u: int, k: int, neg: bool)
    requires 0 < m && x == u + k * m
    requires -m <= 2 * (u - if neg then m else 0) < m
    ensures Wrap(x, m) == u - if neg then m else 0
  {
    assert (k + 1) * m == k * m + m;
    WrapUnique(x, m, u - if neg then m else 0, if neg then k + 1 else k);
  }

  /** A vector congruent to x denotes what remains of x in that many limbs. */
  lemma SValIsWrap(s: seq<Word>, x: int, k: int)
    requires s != [] && x == UVal(s) + Up(k, |s|)
    ensures 0 < Up(1, |s|)
    ensures SVal(s) == Wrap(x, Up(1, |s|))
  {
    SValBound(s);
    UpMonotone(1, 1, |s|);
    ShlTimes(k, 1, 32 * |s|);
    WrapFromUnsigned(x, Up(1, |s|), UVal(s), k, s[|s| - 1] >= HALF);
  }
}
