/** The small limb-vector operations the multiplication and the division are built from. */
module LimbOps {
  import opened Arith
  import opened Limbs

  function Min(x: int, y: int): (m: int)
    ensures m == if x < y then x else y
  {
    if x < y then x else y
  }

  /** `iv_extend` from limb `from` on: all ones or all zeros. */
  method Extend(r: array<Word>, from: nat, neg: bool)
    requires from <= r.Length
    modifies r
    ensures r[..from] == old(r[..from])
    ensures forall i :: from <= i < r.Length ==> r[i] == if neg then B - 1 else 0
  {
    for i := from to r.Length
      invariant r[..from] == old(r[..from])
      invariant forall j :: from <= j < i ==> r[j] == if neg then B - 1 else 0
    {
      r[i] := if neg then B - 1 else 0;
    }
  }

  /** Extending by the sign of limb k-1 keeps the number in the first k limbs. */
  method SignExtend(r: array<Word>, k: nat)
    requires 1 <= k <= r.Length
    modifies r
    ensures r[..k] == old(r[..k])
    ensures SVal(r[..]) == SVal(old(r[..k]))
  {
    hide SVal;
    ghost var words := r[..k];
    Extend(r, k, r[k - 1] >= HALF);
    ghost var ext := r[k..];
    assert r[..] == words + ext;
    SValExtend(words, ext);
  }

  /** A number in the range of fewer limbs is not changed by the modulus of more. */
  lemma WrapWider(s: seq<Word>, n: nat)
    requires s != [] && |s| <= n
    ensures 0 < Up(1, n) && SVal(s) == Wrap(SVal(s), Up(1, n))
  {
    hide SVal;
    SValBound(s);
    ShlGrows(1, 32 * |s|, 32 * n);
    UpMonotone(1, 1, n);
    WrapIdentity(SVal(s), Up(1, n));
  }

  /** Wrapping to fewer limbs after wrapping to more loses nothing further. */
  lemma SValPrefixWrap(s: seq<Word>, n: nat, x: int)
    requires 1 <= n <= |s| && SVal(s) == x
    ensures 0 < Up(1, n) && SVal(s[..n]) == Wrap(x, Up(1, n))
  {
    hide UVal, Up;
    UValSplit(s, n);
    UpUp(1, |s| - n, n);
    var c := UVal(s[n..]) - if s[|s| - 1] >= HALF then Up(1, |s| - n) else 0;
    UpMinus(UVal(s[n..]), Up(1, |s| - n), n);
    SValIsWrap(s[..n], x, c);
  }

  lemma OneWordOf(l: int)
    ensures 0 < Up(1, 1) && SVal([Low32(l)]) == Wrap(l, Up(1, 1))
  {
    hide SVal, Wrap;
    UValOne(Low32(l));
    UpStep(l / B, 0);
    SValIsWrap([Low32(l)], l, l / B);
  }

  lemma TwoWordsOf(l: int)
    requires -HALF * B <= l < HALF * B
    ensures SVal([Low32(l), Low32(l / B)]) == l
  {
    hide Up;
    var s: seq<Word> := [Low32(l), Low32(l / B)];
    DivModEq(l, B);
    DivModEq(l / B, B);
    assert s[..1] == [s[0]];
    UValOne(s[0]);
    SValSnoc(s);
    UpStep(Signed(s[1]), 0);
    assert -HALF <= l / B < HALF;
  }

  /** `iv_assign_int64`: the low limbs of a 64-bit number, sign-extended. */
  method AssignInt64(r: array<Word>, l: int)
    requires 1 <= r.Length && -HALF * B <= l < HALF * B
    modifies r
    ensures 0 < Up(1, r.Length)
    ensures SVal(r[..]) == Wrap(l, Up(1, r.Length))
  {
    hide SVal, Wrap, Up;
    r[0] := Low32(l);
    if r.Length == 1 {
      assert r[..] == [Low32(l)];
      OneWordOf(l);
    } else {
      r[1] := Low32(l / B);
      assert r[..2] == [Low32(l), Low32(l / B)];
      TwoWordsOf(l);
      SignExtend(r, 2);
      WrapWider([Low32(l), Low32(l / B)], r.Length);
    }
  }

  lemma SValOne(w: Word)
    ensures SVal([w]) == Signed(w)
  {
    assert [w][..0] == [];
    SValSnoc([w]);
    UpStep(Signed(w), 0);
  }

  lemma SValTwo(s: seq<Word>)
    requires |s| == 2
    ensures SVal(s) == B * Signed(s[1]) + s[0]
    ensures -HALF * B <= SVal(s) < HALF * B
  {
    hide Up;
    assert s[..1] == [s[0]];
    UValOne(s[0]);
    SValSnoc(s);
    UpStep(Signed(s[1]), 0);
  }

  /** The negation of the low n limbs, as limbs with a borrow. */
  ghost predicate Negated(words: seq<Word>, l: int, op: seq<Word>) {
    UVal(words) + Up(l, |words|) == -UVal(op)
  }

  lemma NegatedStep(words: seq<Word>, l: int, op: seq<Word>, r: Word, l': int, k: nat)
    requires |words| == k < |op| && Negated(words, l, op[..k])
    requires l - op[k] == r + B * l'
    ensures Negated(words + [r], l', op[..k + 1])
  {
    hide UVal, Up;
    UValAppend(words, [r]);
    UValOne(r);
    UValSnoc(op, k);
    UpMinus(l, op[k], k);
    UpPlus(r, B * l', k);
    UpStep(l', k);
  }

  lemma NegatedNone(a: seq<Word>, b: seq<Word>)
    requires a == b == []
    ensures Negated(a, 0, b)
  {
    ShlZero(0);
  }

  lemma NegatedExact(words: seq<Word>, l: int, op: seq<Word>, top: Word)
    requires op != [] && |words| == |op| && Negated(words, l, op) && (l == 0 || l == -1)
    requires top == Low32(l - (if op[|op| - 1] >= HALF then -1 else 0))
    ensures SVal(words + [top]) == -SVal(op)
  {
    hide UVal, Up;
    var s, n := words + [top], |words|;
    var t := l - (if op[|op| - 1] >= HALF then -1 else 0);
    assert Signed(top) == t;
    assert s[..n] == words;
    SValSnoc(s);
    UpPlus(l, 1, n);
  }

  lemma NegatedWraps(words: seq<Word>, l: int, op: seq<Word>)
    requires words != [] && |words| <= |op| && Negated(words, l, op[..|words|])
    ensures 0 < Up(1, |words|)
    ensures SVal(words) == Wrap(-SVal(op), Up(1, |words|))
  {
    hide UVal, Up;
    var n := |words|;
    UValSplit(op, n);
    UpUp(1, |op| - n, n);
    var h := UVal(op[n..]);
    var c := l - h + if op[|op| - 1] >= HALF then Up(1, |op| - n) else 0;
    UpMinus(l, h, n);
    UpPlus(l - h, Up(1, |op| - n), n);
    SValIsWrap(words, -SVal(op), c);
  }

  /** `iv_neg<N,Nr>`: the negation in Nr limbs; with a spare limb it is exact even for the most negative number. */
  method Negate(op: array<Word>, r: array<Word>)
    requires 1 <= op.Length && 1 <= r.Length && r != op
    modifies r
    ensures 0 < Up(1, r.Length)
    ensures SVal(r[..]) == Wrap(-SVal(op[..]), Up(1, r.Length))
    ensures op.Length < r.Length ==> SVal(r[..]) == -SVal(op[..])
  {
    hide SVal, Wrap, Up, UVal, Negated;
    var n := Min(op.Length, r.Length);
    ghost var o := op[..];
    var l := 0;
    assert Negated(r[..0], l, o[..0]) by { NegatedNone(r[..0], o[..0]); }
    for k := 0 to n
      invariant op[..] == o
      invariant l == 0 || l == -1
      invariant Negated(r[..k], l, o[..k])
    {
      ghost var words, l0 := r[..k], l;
      l := l - op[k];
      r[k] := Low32(l);
      DivModEq(l, B);
      l := l / B;
      NegatedStep(words, l0, o, r[k], l, k);
      assert r[..k + 1] == words + [r[k]];
    }
    if r.Length > op.Length {
      var top := l - (if op[op.Length - 1] >= HALF then -1 else 0);
      ghost var words := r[..n];
      r[n] := Low32(top);
      assert r[..n + 1] == words + [r[n]];
      assert o[..n] == o;
      NegatedExact(words, l, o, r[n]);
      SignExtend(r, n + 1);
      WrapWider(words + [Low32(top)], r.Length);
    } else {
      assert r[..n] == r[..];
      NegatedWraps(r[..], l, o);
    }
  }

  lemma NonNegative(s: seq<Word>)
    requires s != [] && SVal(s) >= 0
    ensures SVal(s) == UVal(s)
  {
    SValBound(s);
  }

  lemma UpGrows(m: nat, n: nat)
    requires m <= n
    ensures Up(1, m) <= Up(1, n)
  {
    ShlGrows(1, 32 * m, 32 * n);
  }

  /** The negation of a negative number, read as unsigned, is its magnitude. */
  lemma MagnitudeFits(op: seq<Word>, m: seq<Word>)
    requires op != [] && |op| <= |m| && SVal(op) < 0
    requires 0 < Up(1, |m|) && SVal(m) == Wrap(-SVal(op), Up(1, |m|))
    ensures UVal(m) == -SVal(op)
  {
    hide UVal, Up;
    SValBound(op);
    UpGrows(|op|, |m|);
    UValBound(m);
    var x, w := -SVal(op), Up(1, |m|);
    if 2 * x < w {
      WrapIdentity(x, w);
    } else {
      WrapUnique(x, w, x - w, 1);
    }
    SValBound(m);
  }

  /** `iv_abs<N,S,Nr>`: the magnitude as an unsigned vector; N limbs are always enough for it. */
  method AbsLimbs(op: array<Word>, signed: bool, r: array<Word>, n: nat)
    requires 1 <= op.Length <= n <= r.Length && r != op
    requires !signed ==> SVal(op[..]) >= 0
    modifies r
    ensures UVal(r[..n]) == Abs(SVal(op[..]))
  {
    hide SVal, UVal, Wrap;
    ghost var o := op[..];
    SValBound(o);
    if signed && op[op.Length - 1] >= HALF {
      var m := new Word[n];
      Negate(op, m);
      ghost var mm := m[..];
      MagnitudeFits(o, m[..]);
      for i := 0 to n
        invariant op[..] == o && m[..] == mm && r[..i] == mm[..i]
      {
        r[i] := m[i];
      }
      assert r[..n] == mm;
    } else {
      for i := 0 to op.Length
        invariant op[..] == o && r[..i] == o[..i]
      {
        r[i] := op[i];
      }
      for i := op.Length to n
        invariant r[..op.Length] == o
        invariant forall j :: op.Length <= j < i ==> r[j] == 0
      {
        r[i] := 0;
      }
      UValHighZeros(r[..n], op.Length);
      assert r[..n][..op.Length] == o;
      NonNegative(o);
    }
  }
}
