/** Shifts, bit tests and the carry on limb vectors: the helpers the fixed-point conversion is written with. */
module LimbShifts {
  import opened Arith
  import opened BitInt
  import opened Limbs
  import opened LimbOps

  /** Limb i of the infinitely sign-extended pattern of x. */
  function Limb(x: int, i: nat): Word {
    Low32(Shr(x, 32 * i))
  }

  /** Dropping the low limbs is an arithmetic shift. */
  lemma SValDrop(s: seq<Word>, i: nat)
    requires i < |s|
    ensures SVal(s[i..]) == Shr(SVal(s), 32 * i) && UVal(s[..i]) == Low(SVal(s), 32 * i)
  {
    hide UVal;
    UValSplit(s, i);
    UValBound(s[..i]);
    UpUp(1, |s| - i, i);
    UpMinus(UVal(s[i..]), Up(1, |s| - i), i);
    ShrUnique(SVal(s), 32 * i, SVal(s[i..]), UVal(s[..i]));
  }

  lemma UpOneLimb(x: int)
    ensures Up(x, 1) == B * x
  {
    UpStep(x, 0);
  }

  lemma FirstLimb(s: seq<Word>)
    requires s != []
    ensures s[0] == Low32(SVal(s))
  {
    hide UVal;
    UValSplit(s, 1);
    assert s[..1] == [s[0]];
    UValOne(s[0]);
    var c := UVal(s[1..]) - if s[|s| - 1] >= HALF then Up(1, |s| - 1) else 0;
    UpStep(1, |s| - 1);
    UpStep(UVal(s[1..]), 0);
    UpOneLimb(UVal(s[1..]));
    assert SVal(s) == s[0] + B * c;
    DivModUnique(SVal(s), B, c, s[0]);
  }

  lemma SignBeyond(x: int, w: nat, n: nat)
    requires -Shl(1, w) <= 2 * x < Shl(1, w) && w <= n
    ensures Shr(x, n) == if x < 0 then -1 else 0
  {
    ShlGrows(1, w, n);
    ShlZero(n);
    ShlNegate(1, n);
    ShrUnique(x, n, if x < 0 then -1 else 0, if x < 0 then x + Shl(1, n) else x);
  }

  /** The limbs of a vector, and the sign that continues them. */
  lemma LimbsOf(s: seq<Word>, i: nat)
    requires s != []
    ensures Limb(SVal(s), i) == if i < |s| then s[i] else if s[|s| - 1] >= HALF then B - 1 else 0
    ensures i >= |s| ==> Shr(SVal(s), 32 * i) == if s[|s| - 1] >= HALF then -1 else 0
  {
    hide SVal;
    SValBound(s);
    if i < |s| {
      SValDrop(s, i);
      FirstLimb(s[i..]);
    } else {
      SignBeyond(SVal(s), 32 * |s| , 32 * i);
    }
  }

  lemma NextLimb(y: int, k: nat)
    ensures Low(y, 32 * (k + 1)) == Low(y, 32 * k) + Up(Limb(y, k), k)
  {
    hide Low;
    var h := Shr(y, 32 * k);
    ShrSpec(y, 32 * k);
    ShrSpec(y, 32 * (k + 1));
    ShrShr(y, 32 * k, 32);
    ShrByLimb(h);
    DivModEq(h, B);
    UpPlus(B * (h / B), h % B, k);
    UpStep(h / B, k);
  }

  lemma {:induction false} FromLimbsTo(s: seq<Word>, y: int, k: nat)
    requires k <= |s| && forall i :: 0 <= i < |s| ==> s[i] == Limb(y, i)
    ensures UVal(s[..k]) == Low(y, 32 * k)
  {
    hide UVal;
    if k == 0 {
      assert s[..k] == [];
      UValZeros(s[..k]);
    } else {
      FromLimbsTo(s, y, k - 1);
      UValSnoc(s, k - 1);
      NextLimb(y, k - 1);
    }
  }

  /** A vector holding the limbs of y holds what remains of y in that many limbs. */
  lemma FromLimbs(s: seq<Word>, y: int)
    requires s != [] && forall i :: 0 <= i < |s| ==> s[i] == Limb(y, i)
    ensures UVal(s) == Low(y, 32 * |s|)
    ensures 0 < Up(1, |s|) && SVal(s) == Wrap(y, Up(1, |s|))
  {
    hide SVal, UVal;
    FromLimbsTo(s, y, |s|);
    assert s[..|s|] == s;
    ShrSpec(y, 32 * |s|);
    SValIsWrap(s, y, Shr(y, 32 * |s|));
  }

  /** `(lw >> s) | (hw << (32 - s))`: the two parts share no bit. */
  function Splice(lw: Word, hw: Word, s: nat): Word
    requires 1 <= s < 32
  {
    Low32(Shr(lw, s) + Low32(Shl(hw, 32 - s)))
  }

  lemma WordParts(x: int)
    ensures x == Low32(x) + B * (x / B)
  {
  }

  lemma ShrOfWords(h: int, s: nat)
    requires 1 <= s < 32
    ensures Shr(h, s) == Shl(h / B, 32 - s) + Shr(Low32(h), s)
  {
    hide Shl, Shr, Low;
    DivModEq(h, B);
    var k, lw := h / B, Low32(h);
    ShrSpec(lw, s);
    ShlPlus(Shl(k, 32 - s), Shr(lw, s), s);
    ShlShl(k, 32 - s, s);
    Shl32(k);
    ShrUnique(h, s, Shl(k, 32 - s) + Shr(lw, s), Low(lw, s));
  }

  lemma SameLow(x: int, y: int, k: int)
    requires x == y + B * k
    ensures Low32(x) == Low32(y)
  {
    DivModEq(y, B);
    DivModUnique(x, B, y / B + k, y % B);
  }

  lemma SpliceIs(h: int, s: nat)
    requires 1 <= s < 32
    ensures Splice(Low32(h), Low32(h / B), s) == Low32(Shr(h, s))
  {
    hide Shl, Shr, Low, Low32;
    var k := h / B;
    ShrOfWords(h, s);
    WordParts(k);
    ShlPlus(Low32(k), B * (k / B), 32 - s);
    ShlTimes(B, k / B, 32 - s);
    var a, x, y := Shr(Low32(h), s), Shl(Low32(k), 32 - s), Shl(k / B, 32 - s);
    WordParts(x);
    SameLow(a + x + B * y, a + x, y);
    SameLow(a + x, a + Low32(x), x / B);
  }

  lemma LimbOfShifted(x: int, b: nat, i: nat)
    ensures Limb(Shr(x, b), i) == Low32(Shr(x, b + 32 * i))
  {
    ShrShr(x, b, 32 * i);
  }

  lemma ShiftedLimb(x: int, j: nat, s: nat)
    requires 1 <= s < 32
    ensures Splice(Limb(x, j), Limb(x, j + 1), s) == Low32(Shr(x, 32 * j + s))
  {
    hide Shr, Splice;
    ShrShr(x, 32 * j, 32);
    ShrShr(x, 32 * j, s);
    ShrByLimb(Shr(x, 32 * j));
    SpliceIs(Shr(x, 32 * j), s);
  }

  lemma WholeLimbs(x: int, b: nat, i: nat)
    requires b % 32 == 0
    ensures Limb(x, i + b / 32) == Low32(Shr(x, b + 32 * i))
  {
    assert 32 * (i + b / 32) == b + 32 * i;
  }

  lemma BeyondLimbs(o: seq<Word>, b: nat, i: nat)
    requires o != [] && |o| <= b / 32
    ensures Low32(Shr(SVal(o), b + 32 * i)) == if o[|o| - 1] >= HALF then B - 1 else 0
  {
    hide SVal;
    SValBound(o);
    SignBeyond(SVal(o), 32 * |o|, b + 32 * i);
  }

  /** `iv_copy` and `iv_extend`: the same number in as many limbs as the result has. */
  method AssignLimbs(op: array<Word>, r: array<Word>)
    requires 1 <= op.Length && 1 <= r.Length && r != op
    modifies r
    ensures UVal(r[..]) == Low(SVal(op[..]), 32 * r.Length)
  {
    hide SVal, UVal, Limb;
    ghost var o := op[..];
    var m := Min(op.Length, r.Length);
    for i := 0 to m
      invariant op[..] == o && r[..i] == o[..i]
    {
      r[i] := op[i];
    }
    Extend(r, m, r[m - 1] >= HALF);
    forall i | 0 <= i < r.Length ensures r[i] == Limb(SVal(o), i) {
      LimbsOf(o, i);
      if i < m { assert r[..m][i] == o[..m][i]; }
      if m == op.Length { assert r[m - 1] == r[..m][m - 1] == o[m - 1]; }
    }
    FromLimbs(r[..], SVal(o));
  }

  /** `iv_const_shift_r`: the arithmetic shift right, in as many limbs as the result has. */
  method ConstShiftR(op: array<Word>, b: nat, r: array<Word>)
    requires 1 <= op.Length && 1 <= r.Length && r != op
    modifies r
    ensures UVal(r[..]) == Low(Shr(SVal(op[..]), b), 32 * r.Length)
  {
    hide SVal, UVal, Limb, Splice, Shr;
    ghost var o := op[..];
    ghost var y := Shr(SVal(o), b);
    if b == 0 {
      AssignLimbs(op, r);
      ShiftByZero(SVal(o));
    } else {
      var s31 := b % 32;
      var ishift := Min(b / 32, op.Length);
      var ext: Word := if op[op.Length - 1] >= HALF then B - 1 else 0;
      if s31 != 0 && ishift != op.Length {
        var lw := if ishift < op.Length then op[ishift] else ext;
        LimbsOf(o, ishift);
        for i := 0 to r.Length
          invariant op[..] == o
          invariant lw == Limb(SVal(o), ishift + i)
          invariant forall k :: 0 <= k < i ==> r[k] == Limb(y, k)
        {
          var hw := if i + ishift + 1 < op.Length then op[i + ishift + 1] else ext;
          LimbsOf(o, i + ishift + 1);
          r[i] := Splice(lw, hw, s31);
          ShiftedLimb(SVal(o), ishift + i, s31);
          ShrShr(SVal(o), b, 32 * i);
          LimbOfShifted(SVal(o), b, i);
          lw := hw;
        }
      } else {
        for i := 0 to r.Length
          invariant op[..] == o
          invariant forall k :: 0 <= k < i ==> r[k] == Limb(y, k)
        {
          r[i] := if i + ishift < op.Length then op[i + ishift] else ext;
          LimbsOf(o, i + ishift);
          LimbOfShifted(SVal(o), b, i);
          if ishift == op.Length { BeyondLimbs(o, b, i); } else { WholeLimbs(SVal(o), b, i); }
        }
      }
      FromLimbs(r[..], y);
    }
  }

  /** Limb i of x shifted left by whole limbs and s bits. */
  lemma LimbOfShl(x: int, b: nat, i: nat)
    ensures i < b / 32 ==> Limb(Shl(x, b), i) == 0
    ensures i >= b / 32 ==> Limb(Shl(x, b), i) == Low32(Shr(Shl(x, 32), 32 * (i - b / 32) + (32 - b % 32)))
  {
    hide Shl, Shr, Low;
    var q, s := b / 32, b % 32;
    if i < q {
      ShlShl(x, b - 32 * i - 32, 32 * i + 32);
      ShlShl(Shl(x, b - 32 * i - 32), 32, 32 * i);
      ShrShl(Shl(Shl(x, b - 32 * i - 32), 32), 32 * i);
      Shl32(Shl(x, b - 32 * i - 32));
      SameLow(Shl(Shl(x, b - 32 * i - 32), 32), 0, Shl(x, b - 32 * i - 32));
    } else {
      var j := i - q;
      ShlShl(x, s, 32 * q);
      ShrOfShl(Shl(x, s), 32 * q, 32 * j);
      ShlShl(x, s, 32 - s);
      ShrOfShl(Shl(x, s), 32 - s, 32 * j);
    }
  }

  lemma LimbOfUp(x: int, j: nat)
    ensures Limb(Shl(x, 32), 0) == 0 && Limb(Shl(x, 32), j + 1) == Limb(x, j)
  {
    hide Shl, Shr;
    Shl32(x);
    ShiftByZero(Shl(x, 32));
    SameLow(Shl(x, 32), 0, x);
    ShrOfShl(x, 32, 32 * j);
  }

  lemma {:induction false} ShrRange(x: int, n: nat)
    ensures x < 0 <==> Shr(x, n) < 0
    ensures x <= Shr(x, n) < 0 || 0 <= Shr(x, n) <= x
  {
    if n > 0 { ShrRange(x, n - 1); }
  }

  /** The signed shift of the last limb, and the sign above it. */
  lemma AboveLast(o: seq<Word>, s: nat)
    requires o != [] && 1 <= s < 32
    ensures var t := Shr(Signed(o[|o| - 1]), s);
      && Shr(Shl(SVal(o), 32), 32 * |o| + s) == t && -HALF <= t < HALF
      && (t < 0 <==> o[|o| - 1] >= HALF)
  {
    hide Shl, Shr, SVal;
    var n, x := |o|, SVal(o);
    SValDrop(o, n - 1);
    assert o[n - 1..] == [o[n - 1]];
    SValOne(o[n - 1]);
    ShrOfShl(x, 32, 32 * (n - 1));
    ShrShr(Shl(x, 32), 32 * n, s);
    ShrRange(Signed(o[n - 1]), s);
  }

  lemma AboveSign(o: seq<Word>, s: nat, j: nat)
    requires o != [] && |o| < j
    ensures Low32(Shr(Shl(SVal(o), 32), 32 * j + s)) == if o[|o| - 1] >= HALF then B - 1 else 0
  {
    hide Shl, Shr, SVal;
    SValBound(o);
    ShrOfShl(SVal(o), 32, 32 * (j - 1) + s);
    SignBeyond(SVal(o), 32 * |o|, 32 * (j - 1) + s);
  }

  lemma WholeLimbsL(x: int, b: nat, i: nat)
    requires b % 32 == 0 && b / 32 <= i
    ensures Limb(Shl(x, b), i) == Limb(x, i - b / 32)
  {
    LimbOfShl(x, b, i);
    LimbOfUp(x, i - b / 32);
  }

  /** The loop of the shift left when limbs are split, from limb ishift on. */
  method ShiftLimbsL(op: array<Word>, b: nat, r: array<Word>, ishift: nat, m1: nat)
    requires 1 <= op.Length && 1 <= r.Length && r != op && b % 32 != 0
    requires ishift == Min(b / 32, r.Length) && m1 == Min(op.Length + ishift, r.Length)
    requires forall k :: 0 <= k < ishift ==> r[k] == Limb(Shl(SVal(op[..]), b), k)
    modifies r
    ensures forall k :: 0 <= k < r.Length ==> r[k] == Limb(Shl(SVal(op[..]), b), k)
  {
    hide SVal, UVal, Limb, Splice, Shr, Shl;
    ghost var o := op[..];
    ghost var x := SVal(o);
    ghost var y := Shl(x, b);
    var s31 := b % 32;
    var lw: Word := 0;
    LimbOfUp(x, 0);
    for i := ishift to m1
      invariant op[..] == o
      invariant lw == Limb(Shl(x, 32), i - ishift)
      invariant forall k :: 0 <= k < i ==> r[k] == Limb(y, k)
    {
      var hw := op[i - ishift];
      LimbsOf(o, i - ishift);
      LimbOfUp(x, i - ishift);
      r[i] := Splice(lw, hw, 32 - s31);
      LimbOfShl(x, b, i);
      ShiftedLimb(Shl(x, 32), i - ishift, 32 - s31);
      lw := hw;
    }
    if r.Length > m1 {
      LimbOfUp(x, op.Length - 1);
      LimbsOf(o, op.Length - 1);
      r[m1] := Low32(Shr(Signed(lw), 32 - s31));
      AboveLast(o, 32 - s31);
      LimbOfShl(x, b, m1);
      ghost var done := r[..m1 + 1];
      Extend(r, m1 + 1, r[m1] >= HALF);
      forall i | 0 <= i < r.Length ensures r[i] == Limb(y, i) {
        if i <= m1 {
          assert r[i] == r[..m1 + 1][i] == done[i];
        } else {
          LimbOfShl(x, b, i);
          AboveSign(o, 32 - s31, i - ishift);
        }
      }
    }
  }

  /** `iv_const_shift_l`: the shift left, in as many limbs as the result has. */
  method ConstShiftL(op: array<Word>, b: nat, r: array<Word>)
    requires 1 <= op.Length && 1 <= r.Length && r != op
    modifies r
    ensures UVal(r[..]) == Low(Shl(SVal(op[..]), b), 32 * r.Length)
  {
    hide SVal, UVal, Limb, Splice, Shr, Shl;
    ghost var o := op[..];
    ghost var x := SVal(o);
    ghost var y := Shl(x, b);
    if b == 0 {
      AssignLimbs(op, r);
      ShiftByZero(x);
    } else {
      var s31 := b % 32;
      var ishift := Min(b / 32, r.Length);
      for i := 0 to ishift
        invariant op[..] == o
        invariant forall k :: 0 <= k < i ==> r[k] == Limb(y, k)
      {
        r[i] := 0;
        LimbOfShl(x, b, i);
      }
      var m1 := Min(op.Length + ishift, r.Length);
      if s31 != 0 {
        ShiftLimbsL(op, b, r, ishift, m1);
      } else {
        for i := ishift to m1
          invariant op[..] == o
          invariant forall k :: 0 <= k < i ==> r[k] == Limb(y, k)
        {
          r[i] := op[i - ishift];
          WholeLimbsL(x, b, i);
          LimbsOf(o, i - ishift);
        }
        ghost var top := r[m1 - 1];
        assert m1 < r.Length ==> top == o[op.Length - 1] by {
          if m1 < r.Length {
            WholeLimbsL(x, b, m1 - 1);
            LimbsOf(o, op.Length - 1);
          }
        }
        ghost var done := r[..m1];
        Extend(r, m1, r[m1 - 1] >= HALF);
        forall i | 0 <= i < r.Length ensures r[i] == Limb(y, i) {
          if i < m1 {
            assert r[i] == r[..m1][i] == done[i];
          } else {
            WholeLimbsL(x, b, i);
            LimbsOf(o, i - ishift);
          }
        }
      }
      FromLimbs(r[..], y);
    }
  }

  /** `iv_uadd_carry`: adds a bit; the carry out says whether all limbs were ones. */
  method UaddCarry(r: array<Word>, carry: bool) returns (out: bool)
    modifies r
    ensures UVal(r[..]) + Up(Flag(out), r.Length) == old(UVal(r[..])) + Flag(carry)
  {
    hide UVal, Up;
    ghost var o := r[..];
    var l := Flag(carry);
    UpStep(l, 0);
    assert r[..0] == o[..0] == [];
    for i := 0 to r.Length
      invariant 0 <= l <= 1
      invariant r[i..] == o[i..]
      invariant UVal(r[..i]) + Up(l, i) == UVal(o[..i]) + Flag(carry)
    {
      ghost var words, l0 := r[..i], l;
      assert r[i] == r[i..][0] == o[i];
      l := l + r[i];
      r[i] := Low32(l);
      l := l / B;
      assert r[..i + 1] == words + [r[i]];
      UValAppend(words, [r[i]]);
      UValOne(r[i]);
      UValSnoc(o, i);
      UpPlus(l0, o[i], i);
      UpPlus(r[i], B * l, i);
      UpStep(l, i);
      assert r[i + 1..] == r[i..][1..];
    }
    assert r[..r.Length] == r[..] && o[..r.Length] == o;
    out := l != 0;
  }

  /** `v[i>>5]>>(i&31) & 1`. */
  function BitAt(v: seq<Word>, i: nat): bool
    requires i / 32 < |v|
  {
    Bit(v[i / 32], i % 32)
  }

  lemma WordParity(x: int, w: int, c: int)
    requires x == w + B * c
    ensures x % 2 == w % 2
  {
    DivModUnique(x, 2, w / 2 + HALF * c, w % 2);
  }

  lemma SameParity(k: int, r: int)
    ensures (2 * k + r) % 2 == r % 2
  {
    DivModUnique(2 * k + r, 2, k + r / 2, r % 2);
  }

  lemma BitOfParts(h: int, c: int, s: nat)
    requires 1 <= s < 32 && c == h / B
    ensures Bit(Low32(h), s) == Bit(h, s)
  {
    hide Shl, Shr, Low32;
    ShrOfWords(h, s);
    ShlStep(c, 31 - s);
    SameParity(Shl(c, 31 - s), Shr(Low32(h), s));
  }

  lemma BitOfLow(h: int, s: nat)
    requires s < 32
    ensures Bit(Low32(h), s) == Bit(h, s)
  {
    hide Shl, Shr, Low32;
    if s == 0 {
      ShiftByZero(h);
      ShiftByZero(Low32(h));
      WordParts(h);
      WordParity(h, Low32(h), h / B);
    } else {
      BitOfParts(h, h / B, s);
    }
  }

  lemma BitAtIs(v: seq<Word>, i: nat)
    requires i / 32 < |v|
    ensures BitAt(v, i) == Bit(SVal(v), i)
  {
    hide SVal, Shl, Shr;
    var q, s, x := i / 32, i % 32, SVal(v);
    LimbsOf(v, q);
    ShrShr(x, 32 * q, s);
    BitOfLow(Shr(x, 32 * q), s);
  }

  /** Limb i, or what the memory in front of the limbs or behind them holds. */
  function LimbAt(v: seq<Word>, around: int -> Word, i: int): Word {
    if 0 <= i < |v| then v[i] else around(i)
  }

  lemma Inside(v: seq<Word>, around: int -> Word)
    ensures forall i :: 0 <= i < |v| ==> LimbAt(v, around, i) == v[i]
  {
  }

  lemma FrontAndLimbs(v: seq<Word>, around: int -> Word, from: int, w: Word)
    requires from <= 0
    ensures (forall i :: from <= i < |v| ==> LimbAt(v, around, i) == w)
      <==> (forall i :: from <= i < 0 ==> around(i) == w) && forall i :: 0 <= i < |v| ==> v[i] == w
  {
    Inside(v, around);
    assert forall i :: i < 0 ==> LimbAt(v, around, i) == around(i);
  }

  /** `iv_equal_zero`, `iv_equal_ones`: whether limbs from..to all equal w, and whether the loop leaves the array. */
  method AllLimbs(op: array<Word>, from: int, to: int, w: Word, around: int -> Word) returns (res: bool, outside: bool)
    requires from <= op.Length
    ensures res <==> forall i :: from <= i < to ==> LimbAt(op[..], around, i) == w
    ensures outside
      <==> from < to && (from < 0 || (op.Length < to && forall i :: from <= i < op.Length ==> op[i] == w))
  {
    Inside(op[..], around);
    var i := from;
    outside := false;
    while i < to
      invariant i == from || from < i <= to
      invariant forall j :: from <= j < i && j < to ==> LimbAt(op[..], around, j) == w
      invariant outside <==> from < i && (from < 0 || op.Length < i)
    {
      outside := outside || i < 0 || op.Length <= i;
      if LimbAt(op[..], around, i) != w {
        assert forall j :: from <= j < i && 0 <= j < op.Length ==> op[..][j] == op[j];
        return false, outside;
      }
      i := i + 1;
    }
    assert forall j :: from <= j < to && 0 <= j < op.Length ==> op[..][j] == op[j];
    return true, outside;
  }

  lemma SValLow(s: seq<Word>)
    requires s != []
    ensures UVal(s) == Low(SVal(s), 32 * |s|)
  {
    hide UVal;
    UValBound(s);
    ShlNegate(1, 32 * |s|);
    ShlZero(32 * |s|);
    ShrUnique(SVal(s), 32 * |s|, if s[|s| - 1] >= HALF then -1 else 0, UVal(s));
  }

  lemma LowLimbs(s: seq<Word>, q: nat)
    requires s != [] && q <= |s|
    ensures Low(SVal(s), 32 * q) == 0 <==> forall i :: 0 <= i < q ==> s[i] == 0
  {
    hide SVal, UVal, Low;
    if q == |s| {
      SValLow(s);
      assert s[..q] == s;
    } else {
      SValDrop(s, q);
    }
    if UVal(s[..q]) == 0 {
      UValZeroLimbs(s[..q]);
      forall i | 0 <= i < q ensures s[i] == 0 { assert s[i] == s[..q][i]; }
    } else if forall i :: 0 <= i < q ==> s[i] == 0 {
      UValZeros(s[..q]);
      assert false;
    }
  }

  lemma LowOfWord(h: int, s: nat)
    requires s < 32
    ensures Low(Low32(h), s) == Low(h, s)
  {
    hide Shl, Shr;
    if s == 0 {
      ShiftByZero(h);
      ShiftByZero(Low32(h));
    } else {
      ShrOfWords(h, s);
      ShlPlus(Shl(h / B, 32 - s), Shr(Low32(h), s), s);
      ShlShl(h / B, 32 - s, s);
      Shl32(h / B);
      WordParts(h);
    }
  }

  lemma NegativeLow(s: seq<Word>)
    requires s != [] && s[|s| - 1] >= HALF
    ensures Low(SVal(s), 32 * |s|) != 0
  {
    hide SVal, Low;
    LowLimbs(s, |s|);
  }

  /** The low b bits, limb by limb. */
  lemma LowParts(o: seq<Word>, b: nat)
    requires o != [] && b <= 32 * |o|
    ensures Low(SVal(o), b) == 0
      <==> (b % 32 != 0 ==> Low(o[b / 32], b % 32) == 0) && forall i :: 0 <= i < b / 32 ==> o[i] == 0
  {
    hide SVal, Low, Shr;
    var x, q, s := SVal(o), b / 32, b % 32;
    DroppedBits(x, 32 * q, s);
    LowLimbs(o, q);
    if s != 0 {
      LimbsOf(o, q);
      LowOfWord(Shr(x, 32 * q), s);
    } else {
      ShiftByZero(Shr(x, 32 * q));
    }
  }

  lemma ZeroLimbs(s: seq<Word>)
    requires s != [] && forall i :: 0 <= i < |s| ==> s[i] == 0
    ensures SVal(s) == 0
  {
    UValZeros(s);
  }

  /** Beyond the limbs a number other than zero keeps a bit, and zero has none. */
  lemma LowWide(o: seq<Word>, b: nat)
    requires o != [] && 32 * |o| < b
    ensures Low(SVal(o), b) == 0 <==> SVal(o) == 0
    ensures SVal(o) == 0 <==> forall i :: 0 <= i < |o| ==> o[i] == 0
  {
    hide SVal, UVal, Low, Shl;
    var x := SVal(o);
    SValBound(o);
    ShlGrows(1, 32 * |o|, b);
    ShlNegate(1, b);
    ShlZero(b);
    ShrUnique(x, b, if x < 0 then -1 else 0, if x < 0 then x + Shl(1, b) else x);
    LowLimbs(o, |o|);
    SValLow(o);
    ShlZero(32 * |o|);
    ShlMonotone(1, 1, 32 * |o|);
    ShrUnique(0, 32 * |o|, 0, 0);
    if Low(x, 32 * |o|) == 0 { ZeroLimbs(o); }
  }

  /** `iv_equal_zeros_to`: whether the low b bits are all zero. Beyond the limbs it is not reliable for zero itself. */
  method EqualZerosTo(op: array<Word>, b: nat, around: int -> Word) returns (res: bool, outside: bool)
    requires 1 <= op.Length
    ensures b <= 32 * op.Length || SVal(op[..]) != 0 ==> (res <==> Low(SVal(op[..]), b) == 0)
    ensures outside
      <==> 32 * op.Length < b && if b % 32 != 0 then op[op.Length - 1] < HALF else SVal(op[..]) == 0
  {
    hide SVal, Low;
    var q, s := b / 32, b % 32;
    Inside(op[..], around);
    if b <= 32 * op.Length { LowParts(op[..], b); } else { LowWide(op[..], b); }
    if b >= 32 * op.Length && op[op.Length - 1] >= HALF {
      if b == 32 * op.Length { NegativeLow(op[..]); }
      return false, false;
    }
    outside := s != 0 && op.Length <= q;
    if s != 0 && Low(LimbAt(op[..], around, q), s) != 0 {
      return false, outside;
    }
    var left;
    res, left := AllLimbs(op, 0, q, 0, around);
    outside := outside || left;
  }

  lemma EvenPower(n: nat)
    requires 1 <= n
    ensures 2 <= Up(1, n)
  {
    UpStep(1, n - 1);
    UpMonotone(1, 1, n - 1);
  }

  lemma SameLimb(x: int, q: nat, i: nat)
    ensures Limb(Shr(x, 32 * q), i) == Limb(x, q + i)
  {
    LimbOfShifted(x, 32 * q, i);
  }

  lemma {:induction false} ConstantShift(y: int, n: nat)
    requires y == 0 || y == -1
    ensures Shr(y, n) == y
  {
    if n > 0 { ConstantShift(y, n - 1); }
  }

  lemma ConstantLimb(y: int, i: nat)
    requires y == 0 || y == -1
    ensures Limb(y, i) == Low32(y)
  {
    ConstantShift(y, 32 * i);
  }

  /** The limbs of 0 and of -1 are all zeros and all ones. */
  lemma SameFrom(s: seq<Word>, q: nat, y: int)
    requires q < |s| && (y == 0 || y == -1)
    ensures Shr(SVal(s), 32 * q) == y <==> forall i :: q <= i < |s| ==> s[i] == Low32(y)
  {
    hide SVal, UVal, Shr, Limb;
    var x := SVal(s);
    if Shr(x, 32 * q) == y {
      forall i | q <= i < |s| ensures s[i] == Low32(y) {
        LimbsOf(s, i);
        SameLimb(x, q, i - q);
        ConstantLimb(y, i - q);
      }
    } else if forall i :: q <= i < |s| ==> s[i] == Low32(y) {
      SValDrop(s, q);
      forall i | 0 <= i < |s| - q ensures s[q..][i] == Limb(y, i) {
        ConstantLimb(y, i);
      }
      FromLimbs(s[q..], y);
      SValBound(s[q..]);
      UpMonotone(1, 1, |s| - q);
      EvenPower(|s| - q);
      WrapIdentity(y, Up(1, |s| - q));
      assert false;
    }
  }

  /** A part of a limb and the limbs above it. */
  lemma PartialLimb(h: int, w: Word, s: nat, y: int, above: int)
    requires 1 <= s < 32 && w == Low32(h) && above == h / B && (y == 0 || y == -1)
    ensures Shr(h, s) == y <==> Shr(Signed(w), s) == y && above == y
  {
    hide Shl, Shr;
    WordParts(h);
    if above == y && Shr(Signed(w), s) == y {
      ShrRange(Signed(w), s);
      assert h == Signed(w);
    }
    if Shr(h, s) == y {
      ShrSpec(h, s);
      ShlGrows(1, s, 31);
      assert Shl(1, 31) == HALF by { ShlStep(1, 31); Shl32(1); }
      ShlZero(s);
      ShlNegate(1, s);
      assert above == y && h == Signed(w);
    }
  }

  lemma LastLimb(o: seq<Word>, s: nat, y: int)
    requires o != [] && 1 <= s < 32
    ensures Shr(SVal(o), 32 * (|o| - 1) + s) == Shr(Signed(o[|o| - 1]), s)
  {
    hide SVal, Shr;
    SValDrop(o, |o| - 1);
    assert o[|o| - 1..] == [o[|o| - 1]];
    SValOne(o[|o| - 1]);
    ShrShr(SVal(o), 32 * (|o| - 1), s);
  }

  /** The bits from b up, limb by limb. */
  lemma FromParts(o: seq<Word>, b: nat, y: int)
    requires o != [] && b < 32 * |o| && (y == 0 || y == -1)
    ensures Shr(SVal(o), b) == y
      <==> (b % 32 != 0 ==> Shr(Signed(o[b / 32]), b % 32) == y)
           && forall i :: (b + 31) / 32 <= i < |o| ==> o[i] == Low32(y)
  {
    hide SVal, Shr, Low, Signed;
    var x, n, q, s := SVal(o), |o|, b / 32, b % 32;
    ShrShr(x, 32 * q, s);
    if s != 0 {
      var h := Shr(x, 32 * q);
      LimbsOf(o, q);
      ShrShr(x, 32 * q, 32);
      ShrByLimb(h);
      PartialLimb(h, o[q], s, y, h / B);
      if q == n - 1 {
        LastLimb(o, s, y);
      } else {
        SameFrom(o, q + 1, y);
      }
    } else {
      ShiftByZero(Shr(x, 32 * q));
      SameFrom(o, q, y);
    }
  }

  /** C++ division by 32, which goes towards zero. */
  function LimbIndex(b: int): (q: int)
    ensures Abs(32 * q) <= Abs(b) < Abs(32 * q) + 32 && (q < 0 ==> b < 0) && (0 < q ==> 0 < b)
  {
    if b < 0 then -(-b / 32) else b / 32
  }

  /** For a position in front of the limbs: the bits read there are all ones, or all zeros. */
  ghost predicate InFront(b: int, ones: bool, around: int -> Word)
    requires b < 0
  {
    var y := if ones then -1 else 0;
    && (b < -32 && b % 32 != 0 ==> Shr(Signed(around(LimbIndex(b))), b % 32) == y)
    && forall i :: LimbIndex(b + 31) <= i < 0 ==> around(i) == Low32(y)
  }

  lemma SignedConstant(y: int)
    requires y == 0 || y == -1
    ensures Signed(Low32(y)) == y
  {
  }

  lemma AllSame(o: seq<Word>, y: int, s: nat)
    requires o != [] && (y == 0 || y == -1) && s < 32
    ensures SVal(o) == y <==> forall i :: 0 <= i < |o| ==> o[i] == Low32(y)
    ensures SVal(o) == y ==> Shr(Signed(o[0]), s) == y
  {
    hide *;
    ShiftByZero(SVal(o));
    SameFrom(o, 0, y);
    if SVal(o) == y {
      ConstantShift(y, s);
      SignedConstant(y);
      assert o[0] == Low32(y);
    }
  }

  /**
   * `iv_equal_ones_from` and `iv_equal_zeros_from`: whether the bits from b up are all ones, or all zeros. For a
   * negative b memory in front of the limbs is looked at as well.
   */
  method EqualFrom(op: array<Word>, b: int, ones: bool, around: int -> Word) returns (res: bool, outside: bool)
    requires 1 <= op.Length && b <= 32 * op.Length
    ensures 0 <= b ==> (res <==> Shr(SVal(op[..]), b) == if ones then -1 else 0)
    ensures b < 0 ==> (res <==> SVal(op[..]) == (if ones then -1 else 0) && InFront(b, ones, around))
    ensures outside <==> b < -32
  {
    hide SVal, Shr, Low, Signed;
    ghost var o := op[..];
    var n, q, s := op.Length, LimbIndex(b), b % 32;
    var y := if ones then -1 else 0;
    Inside(o, around);
    SValBound(o);
    LimbsOf(o, n);
    if b < 0 {
      AllSame(o, y, s);
      FrontAndLimbs(o, around, LimbIndex(b + 31), Low32(y));
    } else if b < 32 * n { FromParts(o, b, y); }
    if b >= 32 * n && (op[n - 1] >= HALF) != ones {
      return false, false;
    }
    outside := s != 0 && (q < 0 || n <= q);
    if s != 0 && Shr(Signed(LimbAt(op[..], around, q)), s) != y {
      return false, outside;
    }
    var left;
    res, left := AllLimbs(op, LimbIndex(b + 31), n, Low32(y), around);
    outside := outside || left;
  }
}
