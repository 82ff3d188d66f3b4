/**
 * `iv_mult`: column-by-column multiplication of two's-complement limb vectors. Each column of partial products is
 * summed in two 64-bit halves, l1 for the low words and l2 for the high words.
 */
module Multiply {
  import opened Arith
  import opened Limbs
  import opened LimbOps

  // ------------------------------------------------------------------ what the columns add up to

  /** Limb i as a digit: the last one is signed, the others are not, and there is nothing outside the vector. */
  function Digit(s: seq<Word>, i: int): int {
    if 0 <= i < |s| - 1 then s[i] else if 0 <= i == |s| - 1 then Signed(s[i]) else 0
  }

  /** The part of the vector's number held by its first j digits. */
  function Prefix(s: seq<Word>, j: nat): int {
    if j == 0 then 0 else Prefix(s, j - 1) + Up(Digit(s, j - 1), j - 1)
  }

  /** The partial products of column k that use the first m digits of b. */
  function Column(a: seq<Word>, b: seq<Word>, k: nat, m: nat): int {
    if m == 0 then 0 else Column(a, b, k, m - 1) + Digit(a, k - (m - 1)) * Digit(b, m - 1)
  }

  /** The first n columns, each at its weight. */
  function Columns(a: seq<Word>, b: seq<Word>, n: nat, m: nat): int {
    if n == 0 then 0 else Columns(a, b, n - 1, m) + Up(Column(a, b, n - 1, m), n - 1)
  }

  lemma {:induction false} PrefixLow(s: seq<Word>, j: nat)
    requires j < |s|
    ensures Prefix(s, j) == UVal(s[..j])
  {
    if j > 0 {
      PrefixLow(s, j - 1);
      UValSnoc(s, j - 1);
    }
  }

  lemma {:induction false} PrefixValue(s: seq<Word>, j: nat)
    requires s != [] && |s| <= j
    ensures Prefix(s, j) == SVal(s)
  {
    hide SVal;
    if j == |s| {
      PrefixLow(s, j - 1);
      SValSnoc(s);
    } else {
      PrefixValue(s, j - 1);
      UpZero(j - 1);
    }
  }

  lemma {:induction false} ColumnsEmpty(a: seq<Word>, b: seq<Word>, n: nat)
    ensures Columns(a, b, n, 0) == 0
  {
    if n > 0 {
      ColumnsEmpty(a, b, n - 1);
      UpZero(n - 1);
    }
  }

  lemma OutOfRange(a: seq<Word>, i: int)
    requires i < 0 || |a| <= i
    ensures Digit(a, i) == 0
  {
  }

  /** One more digit of b adds its multiple of a, moved up to that digit's place. */
  lemma {:induction false} ColumnsRow(a: seq<Word>, b: seq<Word>, n: nat, m: nat)
    ensures Columns(a, b, n, m + 1) == Columns(a, b, n, m)
        + if n < m then 0 else Up(Prefix(a, n - m) * Digit(b, m), m)
  {
    hide Up, Digit;
    if n == 0 {
      UpZero(m);
    } else {
      ColumnsRow(a, b, n - 1, m);
      var k, c := n - 1, Digit(b, m);
      var x := Digit(a, k - m) * c;
      UpPlus(Column(a, b, k, m), x, k);
      if n <= m {
        assert Digit(a, k - m) == 0 by { OutOfRange(a, k - m); }
        UpZero(k);
        UpZero(m);
      } else {
        UpUp(x, k - m, m);
        UpTimes(c, Digit(a, k - m), k - m);
        UpPlus(Prefix(a, k - m) * c, Up(x, k - m), m);
        Distribute(Prefix(a, k - m), Up(Digit(a, k - m), k - m), c);
      }
    }
  }

  lemma Commute(v: int, x: int, y: int)
    ensures v * x == x * v && v * y == y * v
  {
  }

  /** The columns add up to the product. */
  lemma {:induction false} ColumnsAreProduct(a: seq<Word>, b: seq<Word>, n: nat, m: nat)
    requires a != [] && m <= |b| && |a| + |b| - 1 <= n
    ensures Columns(a, b, n, m) == SVal(a) * Prefix(b, m)
  {
    hide Up, SVal, Digit;
    if m == 0 {
      ColumnsEmpty(a, b, n);
    } else {
      ColumnsAreProduct(a, b, n, m - 1);
      ColumnsRow(a, b, n, m - 1);
      PrefixValue(a, n - (m - 1));
      var v, d := SVal(a), Digit(b, m - 1);
      UpTimes(v, d, m - 1);
      assert v * d == d * v;
      Distribute(Prefix(b, m - 1), Up(d, m - 1), v);
      Commute(v, Prefix(b, m - 1), Prefix(b, m));
    }
  }

  /** Columns from n on only touch limbs from n on. */
  lemma {:induction false} ColumnsAbove(a: seq<Word>, b: seq<Word>, n: nat, n': nat, m: nat) returns (rest: int)
    requires n <= n'
    ensures Columns(a, b, n', m) == Columns(a, b, n, m) + Up(rest, n)
    decreases n'
  {
    hide Up;
    if n == n' {
      rest := 0;
      UpZero(n);
    } else {
      var sub := ColumnsAbove(a, b, n, n' - 1, m);
      var c := Column(a, b, n' - 1, m);
      UpUp(c, n' - 1 - n, n);
      UpPlus(sub, Up(c, n' - 1 - n), n);
      rest := sub + Up(c, n' - 1 - n);
    }
  }

  /** Digits of b past the column's own index meet no digit of a. */
  lemma {:induction false} ColumnStops(a: seq<Word>, b: seq<Word>, k: nat, m: nat)
    requires k + 1 <= m
    ensures Column(a, b, k, m) == Column(a, b, k, k + 1)
  {
    if m > k + 1 {
      ColumnStops(a, b, k, m - 1);
      assert Digit(a, k - (m - 1)) == 0;
    }
  }

  /** Digits of b that would need a digit of a beyond its end contribute nothing. */
  lemma {:induction false} ColumnStarts(a: seq<Word>, b: seq<Word>, k: nat, m: nat)
    requires m + |a| <= k + 1
    ensures Column(a, b, k, m) == 0
  {
    if m > 0 {
      ColumnStarts(a, b, k, m - 1);
      assert Digit(a, k - (m - 1)) == 0;
    }
  }

  lemma ScaledUp(m: nat, n: nat, x: int, y: int)
    requires Up(1, m) == 2 * x && Up(1, n) == 2 * y
    ensures Up(1, m + n) == (2 * y) * (2 * x)
  {
    UpUp(1, m, n);
    UpTimes(Up(1, m), 1, n);
  }

  lemma ProductBelow(u: int, v: int, x: int, y: int)
    requires 0 <= u <= x && 0 <= v <= y && 0 < x && 0 < y
    ensures 0 <= u * v <= x * y && 0 < x * y
  {
    MulNonneg(u, v);
    MulMonotone(u, x, v);
    MulMonotone(v, y, x);
    MulStrict(0, x, y);
  }

  lemma FourTimes(x: int, y: int)
    ensures (2 * y) * (2 * x) == 4 * (x * y)
  {
  }

  lemma AbsProduct(p: int, q: int, u: int, v: int)
    requires (u == p || u == -p) && (v == q || v == -q)
    ensures p * q == u * v || p * q == -(u * v)
  {
  }

  lemma BoundedProduct(p: int, q: int, x: int, y: int)
    requires -x <= p < x && -y <= q < y
    ensures -((2 * y) * (2 * x)) <= 2 * (p * q) < (2 * y) * (2 * x)
  {
    var u, v := if p < 0 then -p else p, if q < 0 then -q else q;
    AbsProduct(p, q, u, v);
    ProductBelow(u, v, x, y);
    FourTimes(x, y);
  }

  /** A product of numbers in two's-complement range fits in the sum of the sizes. */
  lemma ProductFits(a: seq<Word>, b: seq<Word>)
    requires a != [] && b != []
    ensures 0 < Up(1, |a| + |b|)
    ensures -Up(1, |a| + |b|) <= 2 * (SVal(a) * SVal(b)) < Up(1, |a| + |b|)
  {
    hide SVal;
    SValBound(a);
    SValBound(b);
    var x, y := Up(HALF, |a| - 1), Up(HALF, |b| - 1);
    UpMonotone(1, 1, |b|);
    UpMonotone(1, 1, |a| + |b|);
    UpUp(1, |a|, |b|);
    UpTimes(Up(1, |a|), 1, |b|);
    assert Up(1, |a| + |b|) == (2 * y) * (2 * x) by { ScaledUp(|a|, |b|, x, y); }
    BoundedProduct(SVal(a), SVal(b), x, y);
  }

  // ------------------------------------------------------------------ the two accumulators

  /** `accumulate`: the low word of the product goes to l1, the rest to l2. */
  method Accumulate(a: int, l1: int, l2: int) returns (m1: int, m2: int)
    ensures m1 == (l1 + a % B) % TWO64
    ensures m2 == Wrap64(l2 + a / B)
  {
    m1 := (l1 + Low32(a)) % TWO64;
    m2 := Wrap64(l2 + a / B);
  }

  /** The sum held by the accumulators after t products in this column, and how far they can have run. */
  ghost predicate Holds(l1: int, l2: int, sum: int, t: nat, m: nat) {
    && l1 + B * l2 == sum
    && 0 <= l1 < (t + 1) * B
    && -(m + 1) - t * HALF <= l2 <= m + 1 + t * (B - 2)
  }

  /** No smaller and no larger than the products of a word with a word of either kind. */
  predicate ProductSized(a: int) {
    -HALF * (B - 1) <= a <= (B - 1) * (B - 1)
  }

  lemma HighWord(a: int)
    requires ProductSized(a)
    ensures -HALF <= a / B <= B - 2
    ensures a == B * (a / B) + a % B
  {
  }

  lemma StaysInRange(a: int, l1: int, l2: int, sum: int, t: nat, m: nat)
    requires Holds(l1, l2, sum, t, m) && t < m < HALF && ProductSized(a)
    ensures 0 <= l1 + a % B < TWO64 && -TWO64 / 2 <= l2 + a / B < TWO64 / 2
    ensures Holds(l1 + a % B, l2 + a / B, sum + a, t + 1, m)
  {
    HighWord(a);
  }

  /** Neither accumulator overflows while the shorter operand has fewer than 2^31 limbs. */
  method AccumulateProduct(a: int, l1: int, l2: int, ghost sum: int, ghost t: nat, ghost m: nat)
    returns (m1: int, m2: int)
    requires Holds(l1, l2, sum, t, m) && t < m < HALF
    requires ProductSized(a)
    ensures Holds(m1, m2, sum + a, t + 1, m)
  {
    hide Holds;
    StaysInRange(a, l1, l2, sum, t, m);
    m1, m2 := Accumulate(a, l1, l2);
  }

  /** The end of a column: one word out, the rest carried to the next column. */
  method EndColumn(l1: int, l2: int, ghost sum: int, ghost t: nat, ghost m: nat) returns (w: Word, m1: Word, m2: int)
    requires Holds(l1, l2, sum, t, m) && t <= m < HALF
    ensures sum == w + B * (m1 + B * m2)
    ensures Holds(m1, m2, m1 + B * m2, 0, m)
  {
    assert l1 < TWO64;
    DivModEq(l1, B);
    assert 0 <= l1 / B <= t;
    var x := Wrap64(l2 + Low32(l1 / B));
    assert x == l2 + l1 / B;
    w := Low32(l1);
    m1 := Low32(x);
    m2 := x / B;
    DivModEq(x, B);
  }

  // ------------------------------------------------------------------ partial products

  function MultUU(a: Word, b: Word): int { a * b }

  function MultUS(a: Word, b: Word): int { Wrap64(a * Signed(b)) }

  function MultSU(a: Word, b: Word): int { Wrap64(Signed(a) * b) }

  function MultSS(a: Word, b: Word): int { Wrap64(Signed(a) * Signed(b)) }

  lemma ProductRange(x: int, u: int, bound: int)
    requires -HALF <= x < HALF && 0 <= u <= bound <= B - 1
    ensures -HALF * bound <= x * u <= HALF * bound
    ensures x * u == u * x
  {
    MulMonotone(-HALF, x, u);
    MulMonotone(x, HALF, u);
  }

  /** No partial product leaves 64 bits. */
  lemma ProductsExact(a: Word, b: Word)
    ensures ProductSized(MultUU(a, b))
    ensures MultUS(a, b) == a * Signed(b) && ProductSized(a * Signed(b))
    ensures MultSU(a, b) == Signed(a) * b && ProductSized(Signed(a) * b)
    ensures MultSS(a, b) == Signed(a) * Signed(b) && ProductSized(Signed(a) * Signed(b))
  {
    ProductBound(a, b);
    ProductRange(Signed(b), a, B - 1);
    ProductRange(Signed(a), b, B - 1);
    ProductRange(Signed(a), if Signed(b) < 0 then -Signed(b) else Signed(b), HALF);
    var x, y := Signed(a), Signed(b);
    AbsProduct(y, x, y, if x < 0 then -x else x);
    AbsProduct(x, y, x, if y < 0 then -y else y);
    Wrap64Is(a * y, a * y, 0);
    Wrap64Is(x * b, x * b, 0);
    Wrap64Is(x * y, x * y, 0);
  }

  // ------------------------------------------------------------------ the three kinds of column

  /** A product of two unsigned digits. */
  lemma PlainStep(a: seq<Word>, b: seq<Word>, k: nat, i: nat)
    requires i < |b| - 1 && 0 <= k - i < |a| - 1
    ensures Column(a, b, k, i + 1) == Column(a, b, k, i) + MultUU(a[k - i], b[i])
    ensures ProductSized(MultUU(a[k - i], b[i]))
  {
    ProductsExact(a[k - i], b[i]);
  }

  /** The product with the sign limb of the shorter operand. */
  lemma LastStep(a: seq<Word>, b: seq<Word>, k: nat)
    requires b != [] && 0 <= k - |b| + 1 < |a| - 1
    ensures Column(a, b, k, |b|) == Column(a, b, k, |b| - 1) + MultUS(a[k - |b| + 1], b[|b| - 1])
    ensures ProductSized(MultUS(a[k - |b| + 1], b[|b| - 1]))
  {
    ProductsExact(a[k - |b| + 1], b[|b| - 1]);
  }

  /** The product with the sign limb of the longer operand. */
  lemma FirstStep(a: seq<Word>, b: seq<Word>, k: nat)
    requires 1 <= |a| && |a| - 1 <= k < |a| + |b| - 2
    ensures Column(a, b, k, k - |a| + 2) == MultSU(a[|a| - 1], b[k - |a| + 1])
    ensures ProductSized(MultSU(a[|a| - 1], b[k - |a| + 1]))
  {
    ColumnStarts(a, b, k, k - |a| + 1);
    ProductsExact(a[|a| - 1], b[k - |a| + 1]);
  }

  lemma ColumnNone(a: seq<Word>, b: seq<Word>, k: nat)
    ensures Column(a, b, k, 0) == 0
  {
  }

  /** A column left of both sign limbs. */
  method LowColumn(a: array<Word>, b: array<Word>, k: nat, l1: int, l2: int, ghost sum: int)
    returns (m1: int, m2: int)
    requires 1 <= b.Length <= a.Length && b.Length < HALF && k < b.Length - 1
    requires Holds(l1, l2, sum, 0, b.Length)
    ensures Holds(m1, m2, sum + Column(a[..], b[..], k, b.Length), k + 1, b.Length)
  {
    hide *;
    m1, m2 := l1, l2;
    ColumnNone(a[..], b[..], k);
    for i := 0 to k + 1
      invariant Holds(m1, m2, sum + Column(a[..], b[..], k, i), i, b.Length)
    {
      PlainStep(a[..], b[..], k, i);
      m1, m2 := AccumulateProduct(MultUU(a[k - i], b[i]), m1, m2, sum + Column(a[..], b[..], k, i), i, b.Length);
    }
    ColumnStops(a[..], b[..], k, b.Length);
  }

  /** A column that meets the sign limb of the shorter operand only. */
  method MiddleColumn(a: array<Word>, b: array<Word>, k: nat, l1: int, l2: int, ghost sum: int)
    returns (m1: int, m2: int)
    requires 1 <= b.Length <= a.Length && b.Length < HALF && b.Length - 1 <= k < a.Length - 1
    requires Holds(l1, l2, sum, 0, b.Length)
    ensures Holds(m1, m2, sum + Column(a[..], b[..], k, b.Length), b.Length, b.Length)
  {
    hide *;
    var n := b.Length;
    ghost var A, Bs := a[..], b[..];
    LastStep(A, Bs, k);
    ghost var signed := MultUS(a[k - n + 1], b[n - 1]);
    m1, m2 := AccumulateProduct(MultUS(a[k - n + 1], b[n - 1]), l1, l2, sum, 0, n);
    ghost var acc := sum + signed;
    ColumnNone(A, Bs, k);
    for i := 0 to n - 1
      invariant acc == sum + signed + Column(A, Bs, k, i)
      invariant Holds(m1, m2, acc, i + 1, n)
    {
      PlainStep(A, Bs, k, i);
      m1, m2 := AccumulateProduct(MultUU(a[k - i], b[i]), m1, m2, acc, i + 1, n);
      acc := acc + MultUU(a[k - i], b[i]);
    }
  }

  /** A column that meets both sign limbs. */
  method HighColumn(a: array<Word>, b: array<Word>, k: nat, l1: int, l2: int, ghost sum: int)
    returns (m1: int, m2: int, ghost t: nat)
    requires 1 <= b.Length <= a.Length && b.Length < HALF && a.Length - 1 <= k < a.Length + b.Length - 2
    requires Holds(l1, l2, sum, 0, b.Length)
    ensures t <= b.Length
    ensures Holds(m1, m2, sum + Column(a[..], b[..], k, b.Length), t, b.Length)
  {
    hide *;
    var n, lo := b.Length, k - a.Length + 1;
    ghost var A, Bs := a[..], b[..];
    LastStep(A, Bs, k);
    FirstStep(A, Bs, k);
    ghost var signed := MultUS(a[k - n + 1], b[n - 1]);
    ghost var first := MultSU(a[a.Length - 1], b[lo]);
    m1, m2 := AccumulateProduct(MultUS(a[k - n + 1], b[n - 1]), l1, l2, sum, 0, n);
    ghost var acc := sum + signed;
    for i := lo + 1 to n - 1
      invariant acc == sum + signed + Column(A, Bs, k, i) - first
      invariant Holds(m1, m2, acc, i - lo, n)
    {
      PlainStep(A, Bs, k, i);
      m1, m2 := AccumulateProduct(MultUU(a[k - i], b[i]), m1, m2, acc, i - lo, n);
      acc := acc + MultUU(a[k - i], b[i]);
    }
    t := n - 1 - lo;
    m1, m2 := AccumulateProduct(MultSU(a[a.Length - 1], b[lo]), m1, m2, acc, t, n);
    t := t + 1;
  }

  // ------------------------------------------------------------------ the whole multiplication

  /** After k columns: the words written, with the accumulators as the number above them, are those columns. */
  ghost predicate Partial(words: seq<Word>, c: int, a: seq<Word>, b: seq<Word>) {
    UVal(words) + Up(c, |words|) == Columns(a, b, |words|, |b|)
  }

  lemma PartialStep(words: seq<Word>, c: int, a: seq<Word>, b: seq<Word>, w: Word, c': int)
    requires Partial(words, c, a, b)
    requires c + Column(a, b, |words|, |b|) == w + B * c'
    ensures Partial(words + [w], c', a, b)
  {
    hide Up, UVal;
    var k := |words|;
    UValAppend(words, [w]);
    UValOne(w);
    UpPlus(c, Column(a, b, k, |b|), k);
    UpPlus(w, B * c', k);
    UpStep(c', k);
  }

  lemma PartialNone(a: seq<Word>, b: seq<Word>)
    ensures Partial([], 0, a, b)
  {
  }

  /** Words that are the low columns are the product modulo their own size. */
  lemma PartialIsWrap(words: seq<Word>, c: int, a: seq<Word>, b: seq<Word>)
    requires Partial(words, c, a, b) && a != [] && b != [] && words != []
    ensures 0 < Up(1, |words|)
    ensures SVal(words) == Wrap(SVal(a) * SVal(b), Up(1, |words|))
  {
    hide SVal, Up, UVal, Wrap;
    var k, n := |words|, |a| + |b| - 1;
    var top := if k < n then n else k;
    var rest := ColumnsAbove(a, b, k, top, |b|);
    ColumnsAreProduct(a, b, top, |b|);
    PrefixValue(b, |b|);
    UpPlus(c, rest, k);
    SValIsWrap(words, SVal(a) * SVal(b), c + rest);
  }

  /** Copies of the sign above the full product do not change it. */
  lemma ExtendedProduct(words: seq<Word>, ext: seq<Word>, a: seq<Word>, b: seq<Word>)
    requires a != [] && b != [] && |words| == |a| + |b|
    requires 0 < Up(1, |words|) && SVal(words) == Wrap(SVal(a) * SVal(b), Up(1, |words|))
    requires forall i :: 0 <= i < |ext| ==> ext[i] == if words[|words| - 1] >= HALF then B - 1 else 0
    ensures 0 < Up(1, |words| + |ext|)
    ensures SVal(words + ext) == SVal(a) * SVal(b) == Wrap(SVal(a) * SVal(b), Up(1, |words| + |ext|))
  {
    hide SVal, Up, Wrap;
    ProductFits(a, b);
    WrapIdentity(SVal(a) * SVal(b), Up(1, |words|));
    SValExtend(words, ext);
    UpMonotone(1, 1, |words| + |ext|);
    UpGrows(|words|, |words| + |ext|);
    WrapIdentity(SVal(a) * SVal(b), Up(1, |words| + |ext|));
  }

  /** The low words agree whichever way the operands' words are read. */
  lemma LowProduct(x: Word, y: Word, dx: int, dy: int) returns (c: int)
    requires (dx == x || dx == x - B) && (dy == y || dy == y - B)
    ensures dx * dy == Low32(MultUU(x, y)) + B * c
  {
    DivModEq(x * y, B);
    var e, f := if dx == x then 0 else 1, if dy == y then 0 else 1;
    c := x * y / B - e * y - f * x + e * f * B;
    assert (x - e * B) * (y - f * B) == x * y - B * (e * y) - B * (f * x) + B * (e * f * B);
  }

  /** The one-word case: whatever the operands' sizes, only their low words matter. */
  lemma OneWord(a: seq<Word>, b: seq<Word>)
    requires a != [] && b != []
    ensures 0 < Up(1, 1)
    ensures SVal([Low32(MultUU(a[0], b[0]))]) == Wrap(SVal(a) * SVal(b), Up(1, 1))
  {
    hide SVal, Wrap, Low32;
    var w := Low32(MultUU(a[0], b[0]));
    var c := LowProduct(a[0], b[0], Digit(a, 0), Digit(b, 0));
    ColumnStops(a, b, 0, |b|);
    PartialNone(a, b);
    PartialStep([], 0, a, b, w, c);
    assert [] + [w] == [w];
    PartialIsWrap([w], c, a, b);
  }

  lemma FitsTwo(l: int, n: nat)
    requires 2 <= n && -HALF * B <= l < HALF * B
    ensures 0 < Up(1, n) && Wrap(l, Up(1, n)) == l
  {
    hide SVal;
    TwoWordsOf(l);
    WrapWider([Low32(l), Low32(l / B)], n);
  }

  /** Single-limb operands: one 64-bit product, spread over the result. */
  method MultWords(x: Word, y: Word, r: array<Word>)
    requires 2 <= r.Length
    modifies r
    ensures 0 < Up(1, r.Length)
    ensures SVal(r[..]) == SVal([x]) * SVal([y]) == Wrap(SVal([x]) * SVal([y]), Up(1, r.Length))
  {
    hide SVal, Wrap, Low32, UVal, Up;
    ProductsExact(x, y);
    SValOne(x);
    SValOne(y);
    var l := MultSS(x, y);
    AssignInt64(r, l);
    FitsTwo(l, r.Length);
  }

  lemma NoCarry(m: nat)
    ensures Holds(0, 0, 0, 0, m)
  {
  }

  /** The columns of the general case, one word of the result each. */
  method MultColumns(a: array<Word>, b: array<Word>, r: array<Word>) returns (l1: int, l2: int, ghost c: int)
    requires 1 <= b.Length <= a.Length && b.Length < HALF && r != a && r != b
    modifies r
    ensures var k := Min(a.Length + b.Length - 2, r.Length);
      Partial(r[..k], c, a[..], b[..]) && Holds(l1, l2, c, 0, b.Length)
  {
    hide *;
    var m1, m2 := a.Length, b.Length;
    var t1, t2, t3 := Min(m2 - 1, r.Length), Min(m1 - 1, r.Length), Min(m1 + m2 - 2, r.Length);
    l1, l2, c := 0, 0, 0;
    ghost var A, Bs := a[..], b[..];
    PartialNone(A, Bs);
    NoCarry(b.Length);
    assert r[..0] == [];
    for k := 0 to t1
      invariant a[..] == A && b[..] == Bs
      invariant Partial(r[..k], c, A, Bs) && Holds(l1, l2, c, 0, m2)
    {
      l1, l2 := LowColumn(a, b, k, l1, l2, c);
      ghost var sum, before := c + Column(A, Bs, k, m2), r[..k];
      var w;
      w, l1, l2 := EndColumn(l1, l2, sum, k + 1, m2);
      c := l1 + B * l2;
      PartialStep(before, sum - Column(A, Bs, k, m2), A, Bs, w, c);
      r[k] := w;
      assert r[..k + 1] == before + [w];
    }
    for k := t1 to t2
      invariant a[..] == A && b[..] == Bs
      invariant Partial(r[..k], c, A, Bs) && Holds(l1, l2, c, 0, m2)
    {
      l1, l2 := MiddleColumn(a, b, k, l1, l2, c);
      ghost var sum, before := c + Column(A, Bs, k, m2), r[..k];
      var w;
      w, l1, l2 := EndColumn(l1, l2, sum, m2, m2);
      c := l1 + B * l2;
      PartialStep(before, sum - Column(A, Bs, k, m2), A, Bs, w, c);
      r[k] := w;
      assert r[..k + 1] == before + [w];
    }
    for k := t2 to t3
      invariant a[..] == A && b[..] == Bs
      invariant Partial(r[..k], c, A, Bs) && Holds(l1, l2, c, 0, m2)
    {
      ghost var t;
      l1, l2, t := HighColumn(a, b, k, l1, l2, c);
      ghost var sum, before := c + Column(A, Bs, k, m2), r[..k];
      var w;
      w, l1, l2 := EndColumn(l1, l2, sum, t, m2);
      c := l1 + B * l2;
      PartialStep(before, sum - Column(A, Bs, k, m2), A, Bs, w, c);
      r[k] := w;
      assert r[..k + 1] == before + [w];
    }
  }

  /** The last column holds only the product of the two sign limbs. */
  lemma SignColumn(a: seq<Word>, b: seq<Word>)
    requires a != [] && b != []
    ensures Column(a, b, |a| + |b| - 2, |b|) == MultSS(a[|a| - 1], b[|b| - 1])
    ensures ProductSized(MultSS(a[|a| - 1], b[|b| - 1]))
    ensures Column(a, b, |a| + |b| - 1, |b|) == 0
  {
    ColumnStarts(a, b, |a| + |b| - 2, |b| - 1);
    ColumnStarts(a, b, |a| + |b| - 1, |b|);
    ProductsExact(a[|a| - 1], b[|b| - 1]);
  }

  /** The general case, with the longer operand first. */
  method MultLong(a: array<Word>, b: array<Word>, r: array<Word>)
    requires 1 <= b.Length <= a.Length && b.Length < HALF && r != a && r != b && 1 <= r.Length
    modifies r
    ensures 0 < Up(1, r.Length)
    ensures SVal(r[..]) == Wrap(SVal(a[..]) * SVal(b[..]), Up(1, r.Length))
    ensures a.Length + b.Length <= r.Length ==> SVal(r[..]) == SVal(a[..]) * SVal(b[..])
  {
    hide *;
    var m1, m2 := a.Length, b.Length;
    ghost var A, Bs := a[..], b[..];
    var l1, l2;
    ghost var c;
    l1, l2, c := MultColumns(a, b, r);
    if r.Length >= m1 + m2 - 1 {
      SignColumn(A, Bs);
      var k := m1 + m2 - 2;
      l1, l2 := AccumulateProduct(MultSS(a[m1 - 1], b[m2 - 1]), l1, l2, c, 0, m2);
      var w, h1, h2 := EndColumn(l1, l2, c + Column(A, Bs, k, m2), 1, m2);
      ghost var before := r[..k];
      PartialStep(before, c, A, Bs, w, h1 + B * h2);
      r[k] := w;
      assert r[..k + 1] == before + [w];
      if r.Length >= m1 + m2 {
        PartialStep(r[..k + 1], h1 + B * h2, A, Bs, h1, h2);
        before := r[..k + 1];
        r[k + 1] := h1;
        ghost var words := r[..k + 2];
        assert words == before + [h1];
        PartialIsWrap(words, h2, A, Bs);
        Extend(r, m1 + m2, r[m1 + m2 - 1] >= HALF);
        ghost var ext := r[m1 + m2..];
        assert r[..] == words + ext;
        ExtendedProduct(words, ext, A, Bs);
      } else {
        assert r[..k + 1] == r[..];
        PartialIsWrap(r[..], h1 + B * h2, A, Bs);
      }
    } else {
      assert r[..r.Length] == r[..];
      PartialIsWrap(r[..], c, A, Bs);
    }
  }

  /**
   * `iv_mult<N1,N2,Nr>`: the two's-complement product modulo 2^(32 Nr), which is the product itself when the result is
   * as long as the operands together.
   */
  method Mult(op1: array<Word>, op2: array<Word>, r: array<Word>)
    requires 1 <= op1.Length && 1 <= op2.Length && 1 <= r.Length && r != op1 && r != op2
    requires op1.Length < HALF || op2.Length < HALF
    modifies r
    ensures 0 < Up(1, r.Length)
    ensures SVal(r[..]) == Wrap(SVal(op1[..]) * SVal(op2[..]), Up(1, r.Length))
    ensures op1.Length + op2.Length <= r.Length ==> SVal(r[..]) == SVal(op1[..]) * SVal(op2[..])
  {
    hide *;
    Commute(SVal(op1[..]), SVal(op2[..]), SVal(op2[..]));
    if r.Length == 1 {
      OneWord(op1[..], op2[..]);
      r[0] := Low32(MultUU(op1[0], op2[0]));
      assert r[..] == [r[0]];
    } else if op1.Length == 1 && op2.Length == 1 {
      assert op1[..] == [op1[0]] && op2[..] == [op2[0]];
      MultWords(op1[0], op2[0], r);
    } else if op1.Length >= op2.Length {
      MultLong(op1, op2, r);
    } else {
      MultLong(op2, op1, r);
    }
  }
}
