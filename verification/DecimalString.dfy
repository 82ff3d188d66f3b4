/** `to_str<AC_DEC>`: the decimal digits of a limb vector, read as a whole number or as a fraction. */
module DecimalString {
  import opened Arith
  import opened Limbs
  import LimbShifts

  const CHUNK: int := 1_000_000_000

  /** x times 10^k. */
  function Ten(x: int, k: nat): int {
    if k == 0 then x else 10 * Ten(x, k - 1)
  }

  lemma {:induction false} TenPlus(x: int, y: int, k: nat)
    ensures Ten(x + y, k) == Ten(x, k) + Ten(y, k)
  {
    if k > 0 { TenPlus(x, y, k - 1); }
  }

  lemma {:induction false} TenTen(x: int, a: nat, b: nat)
    ensures Ten(Ten(x, a), b) == Ten(x, a + b)
  {
    if b > 0 { TenTen(x, a, b - 1); }
  }

  lemma {:induction false} TenZero(k: nat)
    ensures Ten(0, k) == 0
  {
    if k > 0 { TenZero(k - 1); }
  }

  lemma {:induction false} TenShl(x: int, k: nat, s: nat)
    ensures Ten(Shl(x, s), k) == Shl(Ten(x, k), s)
  {
    if k > 0 {
      TenShl(x, k - 1, s);
      ShlTimes(10, Ten(x, k - 1), s);
    }
  }

  lemma TenNine(x: int)
    ensures Ten(x, 9) == CHUNK * x
  {
    assert Ten(x, 1) == 10 * x;
    assert Ten(x, 2) == 100 * x;
    assert Ten(x, 3) == 1000 * x;
    assert Ten(x, 4) == 10000 * x;
    assert Ten(x, 5) == 100000 * x;
    assert Ten(x, 6) == 1000000 * x;
    assert Ten(x, 7) == 10000000 * x;
    assert Ten(x, 8) == 100000000 * x;
  }

  function Digit(c: char): int {
    c as int - '0' as int
  }

  /** `(char) ('0' + d)`. */
  function Char(d: int): (c: char)
    requires 0 <= d <= 9
    ensures Digit(c) == d
    ensures c == "0123456789"[d]
  {
    ('0' as int + d) as char
  }

  /** The digits are the ten Arabic numerals, each for its own number. */
  lemma Numerals(d: int)
    requires 0 <= d <= 9
    ensures Char(d) == "0123456789"[d] && Digit("0123456789"[d]) == d
  {
  }

  /** The number a string of digits denotes. */
  function ValueOf(s: string): int {
    if s == [] then 0 else 10 * ValueOf(s[..|s| - 1]) + Digit(s[|s| - 1])
  }

  /** The usual notation: no leading zeros, and nothing at all for zero. */
  function Notation(n: int): (s: string)
    decreases n
  {
    if n <= 0 then [] else Notation(n / 10) + [Char(n % 10)]
  }

  /** A concrete number. */
  lemma Twelve()
    ensures Notation(12) == "12" && ValueOf("12") == 12
  {
    assert Notation(1) == Notation(0) + [Char(1)] == "1";
    assert Notation(12) == Notation(1) + [Char(2)] == "12";
    assert "12"[..1] == "1" && "1"[..0] == "";
  }

  ghost predicate Decimal(s: string) {
    forall i :: 0 <= i < |s| ==> 0 <= Digit(s[i]) <= 9
  }

  lemma ValueSnoc(s: string, c: char)
    ensures ValueOf(s + [c]) == 10 * ValueOf(s) + Digit(c)
  {
    assert (s + [c])[..|s|] == s;
  }

  lemma {:induction false} ValueAppend(s: string, t: string)
    ensures ValueOf(s + t) == Ten(ValueOf(s), |t|) + ValueOf(t)
  {
    if t == [] {
      assert s + t == s;
    } else {
      var u := t[..|t| - 1];
      ValueAppend(s, u);
      assert s + t == (s + u) + [t[|t| - 1]];
      ValueSnoc(s + u, t[|t| - 1]);
    }
  }

  lemma OneDigit(c: char)
    ensures ValueOf([c]) == Digit(c)
  {
    assert [c][..0] == [];
  }

  lemma ValueCons(c: char, t: string)
    ensures ValueOf([c] + t) == Ten(Digit(c), |t|) + ValueOf(t)
  {
    hide ValueOf, Digit;
    ValueAppend([c], t);
    OneDigit(c);
  }

  lemma {:induction false} ValueBound(s: string)
    requires Decimal(s)
    ensures 0 <= ValueOf(s) < Ten(1, |s|)
  {
    if s != [] { ValueBound(s[..|s| - 1]); }
  }

  lemma NotationSnoc(n: int, c: char)
    requires 0 <= n && 0 <= Digit(c) <= 9 && (n == 0 ==> c != '0')
    ensures Notation(10 * n + Digit(c)) == Notation(n) + [c]
  {
    DivModUnique(10 * n + Digit(c), 10, n, Digit(c));
    assert Char(Digit(c)) == c;
  }

  lemma {:induction false} LeadingPositive(s: string)
    requires Decimal(s) && s != [] && s[0] != '0'
    ensures ValueOf(s) > 0
    decreases |s|
  {
    if |s| == 1 {
      assert s[..0] == [];
    } else {
      LeadingPositive(s[..|s| - 1]);
    }
  }

  lemma NoDigits()
    ensures ValueOf([]) == 0 && Notation(0) == []
  {
  }

  lemma UniqueStep(t: string, c: char)
    requires Decimal(t) && 0 <= Digit(c) <= 9 && t == Notation(ValueOf(t)) && (t + [c])[0] != '0'
    ensures t + [c] == Notation(ValueOf(t + [c]))
  {
    hide ValueOf, Notation;
    ValueBound(t);
    ValueSnoc(t, c);
    if t != [] { LeadingPositive(t); } else { NoDigits(); }
    NotationSnoc(ValueOf(t), c);
  }

  /** A digit string without a leading zero is the notation of its value. */
  lemma {:induction false} NotationUnique(s: string)
    requires Decimal(s) && (s != [] ==> s[0] != '0')
    ensures s == Notation(ValueOf(s))
    decreases |s|
  {
    hide ValueOf, Notation, Digit;
    NoDigits();
    if s != [] {
      var t, c := s[..|s| - 1], s[|s| - 1];
      assert forall i :: 0 <= i < |t| ==> t[i] == s[i];
      NotationUnique(t);
      UniqueStep(t, c);
      assert t + [c] == s;
    }
  }

  lemma NotationStep(n: int, high: string)
    requires 0 < n && high == Notation(n / 10) && Decimal(high) && ValueOf(high) == n / 10
    requires high != [] ==> high[0] != '0'
    ensures Decimal(high + [Char(n % 10)]) && ValueOf(high + [Char(n % 10)]) == n
    ensures (high + [Char(n % 10)])[0] != '0'
  {
    hide Notation, ValueOf;
    ValueSnoc(high, Char(n % 10));
    if high == [] { NoDigits(); }
  }

  /** The notation of a number denotes it, and does not begin with a zero. */
  lemma {:induction false} NotationDenotes(n: int)
    requires 0 <= n
    ensures Decimal(Notation(n)) && ValueOf(Notation(n)) == n
    ensures Notation(n) != [] ==> Notation(n)[0] != '0'
    decreases n
  {
    if n > 0 {
      NotationDenotes(n / 10);
      NotationStep(n, Notation(n / 10));
    }
  }

  function Reversed(s: string): (r: string)
    ensures |r| == |s| && forall i :: 0 <= i < |s| ==> r[i] == s[|s| - 1 - i]
  {
    seq(|s|, i requires 0 <= i < |s| => s[|s| - 1 - i])
  }

  // ------------------------------------------------------------------ whole numbers

  /** One pass over the limbs: the quotient by 10^9 in place, and the remainder. */
  method DivideChunk(v: array<Word>, msw: nat) returns (rem: int)
    requires msw < v.Length
    modifies v
    ensures 0 <= rem < CHUNK && UVal(old(v[..msw + 1])) == CHUNK * UVal(v[..msw + 1]) + rem
    ensures v[msw + 1..] == old(v[msw + 1..])
  {
    hide UVal;
    ghost var o := v[..];
    var nl := 0;
    var i := msw + 1;
    assert v[i..i] == o[i..i] == [];
    UValZeros(v[i..i]);
    while i > 0
      invariant 0 <= i <= msw + 1 && 0 <= nl < CHUNK
      invariant v[..i] == o[..i] && v[msw + 1..] == o[msw + 1..]
      invariant UVal(o[i..msw + 1]) == CHUNK * UVal(v[i..msw + 1]) + nl
    {
      i := i - 1;
      ghost var high := v[i + 1..msw + 1];
      assert v[i] == o[i] by { assert v[..i + 1][i] == o[..i + 1][i]; }
      nl := nl * B + v[i];
      var q := nl / CHUNK;
      nl := nl - q * CHUNK;
      v[i] := q;
      assert v[i..msw + 1] == [q] + high && o[i..msw + 1] == [o[i]] + o[i + 1..msw + 1];
      UValAppend([q], high);
      UValAppend([o[i]], o[i + 1..msw + 1]);
      UValOne(q);
      UValOne(o[i]);
      UpStep(UVal(high), 0);
      UpStep(UVal(o[i + 1..msw + 1]), 0);
    }
    assert v[0..msw + 1] == v[..msw + 1] && o[0..msw + 1] == o[..msw + 1];
    rem := nl;
  }

  /** The number digits denote, least significant first. */
  function Backwards(r: string): int {
    ValueOf(Reversed(r))
  }

  lemma BackwardsSnoc(r: string, c: char)
    ensures Backwards(r + [c]) == Backwards(r) + Ten(Digit(c), |r|)
  {
    assert Reversed(r + [c]) == [c] + Reversed(r);
    ValueCons(c, Reversed(r));
  }

  lemma NextDigit(rem: int, k: nat)
    ensures Ten(rem, k) == Ten(rem / 10, k + 1) + Ten(rem % 10, k)
  {
    TenPlus(10 * (rem / 10), rem % 10, k);
    TenTen(rem / 10, 1, k);
    assert Ten(rem / 10, 1) == 10 * (rem / 10);
  }

  lemma ChunkRoom(rem: int, k: nat)
    requires 0 <= rem < Ten(1, k)
    ensures k > 0 ==> rem / 10 < Ten(1, k - 1)
    ensures k == 0 ==> rem == 0
  {
  }

  /** The digits of one chunk, least significant first: nine of them, or just the significant ones of the last chunk. */
  method EmitChunk(r: string, rem0: int, last: bool) returns (r': string)
    requires 0 <= rem0 < CHUNK && Decimal(r)
    ensures Decimal(r') && |r| <= |r'|
    ensures Backwards(r') == Backwards(r) + Ten(rem0, |r|)
    ensures !last ==> |r'| == |r| + 9
    ensures last && rem0 > 0 ==> |r| < |r'| && r'[|r'| - 1] != '0'
    ensures last && rem0 == 0 ==> r' == r
  {
    hide Backwards, Ten;
    r' := r;
    var rem := rem0;
    var i := 0;
    assert Ten(1, 9) == CHUNK by { TenNine(1); }
    while (i < 9 && !last) || rem != 0
      invariant 0 <= i <= 9 && 0 <= rem < Ten(1, 9 - i)
      invariant |r'| == |r| + i && Decimal(r')
      invariant Backwards(r') + Ten(rem, |r'|) == Backwards(r) + Ten(rem0, |r|)
      invariant last && rem0 > 0 ==> rem > 0 || (i > 0 && r'[|r'| - 1] != '0')
      invariant rem0 == 0 && last ==> r' == r && rem == 0
      decreases 9 - i
    {
      var c := Char(rem % 10);
      ChunkRoom(rem, 9 - i);
      BackwardsSnoc(r', c);
      NextDigit(rem, |r'|);
      r' := r' + [c];
      rem := rem / 10;
      i := i + 1;
    }
    assert i < 9 ==> last;
    TenZero(|r'|);
  }

  /** A quotient by 10^9 is at most one limb shorter. */
  lemma TopLimb(o: seq<Word>, v: seq<Word>, rem: int)
    requires |o| == |v| >= 2 && o[|o| - 1] != 0 && UVal(o) == CHUNK * UVal(v) + rem && 0 <= rem < CHUNK
    ensures UVal(v) > 0 && (v[|v| - 1] == 0 ==> v[|v| - 2] != 0)
  {
    hide UVal;
    var m := |o| - 1;
    UValSnoc(o, m);
    UValSnoc(v, m);
    UValSnoc(v, m - 1);
    assert o[..m + 1] == o && v[..m + 1] == v;
    UpMonotone(1, o[m], m);
    UpStep(1, m - 1);
    UpMonotone(1, 1, m - 1);
    UValBound(v[..m - 1]);
    ShlZero(32 * m);
    ShlZero(32 * (m - 1));
  }

  lemma TopZero(v: seq<Word>, m: nat)
    requires m < |v| && v[m] == 0
    ensures UVal(v[..m + 1]) == UVal(v[..m])
  {
    UValSnoc(v, m);
    ShlZero(32 * m);
  }

  lemma ChunkValue(quot: int, rem: int, k: nat)
    ensures Ten(CHUNK * quot + rem, k) == Ten(quot, k + 9) + Ten(rem, k)
  {
    TenPlus(CHUNK * quot, rem, k);
    TenNine(quot);
    TenTen(quot, 9, k);
  }

  /** The number still to print, and what has been printed of it. */
  ghost predicate Printed(r: string, left: int, whole: int)
    ensures Printed(r, left, whole) ==> Decimal(r)
  {
    Decimal(r) && Backwards(r) + Ten(left, |r|) == whole
  }

  lemma PrintedChunk(r: string, r': string, left: int, quot: int, rem: int, whole: int)
    requires Printed(r, left, whole) && left == CHUNK * quot + rem && Decimal(r')
    requires Backwards(r') == Backwards(r) + Ten(rem, |r|) && (|r'| == |r| + 9 || quot == 0)
    ensures Printed(r', quot, whole)
  {
    hide Ten, Backwards;
    ChunkValue(quot, rem, |r|);
    TenZero(|r| + 9);
    TenZero(|r'|);
  }

  lemma NothingPrinted(whole: int)
    ensures Printed([], whole, whole)
  {
    assert Reversed([]) == [];
  }

  lemma PrintedNothing(r: string, left: int)
    requires Printed(r, left, 0) && 0 <= left && r == []
    ensures left == 0
  {
    assert Reversed([]) == [];
  }

  lemma EmptyIsZero(s: seq<Word>)
    requires s == []
    ensures UVal(s) == 0
  {
  }

  lemma FirstLimbValue(s: seq<Word>)
    requires |s| == 1
    ensures UVal(s) == s[0]
  {
    UValOne(s[0]);
    assert s == [s[0]];
  }

  /** Limbs divided by 10^9: a top limb that became zero is left out, and the number left goes on falling. */
  lemma ChunkDivided(o: seq<Word>, q: seq<Word>, m: nat, rem: int)
    requires |o| == |q| == m + 1 && UVal(o) == CHUNK * UVal(q) + rem && 0 <= rem < CHUNK && (m > 0 ==> o[m] != 0)
    ensures var n := if q[m] == 0 then m - 1 else m;
      && UVal(q[..n + 1]) == UVal(q) && (n > 0 ==> q[n] != 0) && (if n == -1 then UVal(q) == 0 else 0 < UVal(q))
      && UVal(q) + n < UVal(o) + m
  {
    hide UVal;
    assert q[..m + 1] == q;
    if m > 0 { TopLimb(o, q, rem); } else { FirstLimbValue(q); }
    if q[m] == 0 { TopZero(q, m); }
  }

  lemma PrintedAll(r: string, whole: int)
    requires Printed(r, 0, whole)
    ensures Decimal(Reversed(r)) && ValueOf(Reversed(r)) == whole
  {
    TenZero(|r|);
  }

  /** The swaps that bring the digits in order. */
  method ReverseInPlace(s: string) returns (r: string)
    ensures r == Reversed(s)
  {
    r := s;
    var k := |s|;
    for i := 0 to k / 2
      invariant |r| == k
      invariant forall j :: 0 <= j < i ==> r[j] == s[k - 1 - j] && r[k - 1 - j] == s[j]
      invariant forall j :: i <= j < k - i ==> r[j] == s[j]
    {
      var c := r[i];
      r := r[i := r[k - 1 - i]][k - 1 - i := c];
    }
    forall j | 0 <= j < k ensures r[j] == s[k - 1 - j] {
      if j >= k - k / 2 { assert r[k - 1 - (k - 1 - j)] == s[k - 1 - j]; }
    }
  }

  /** `to_str<AC_DEC>` of a whole number: its usual notation, the empty string for zero. */
  method WholeNumber(v: array<Word>, w: nat) returns (r: string)
    requires w <= 32 * v.Length
    modifies v
    ensures r == Notation(UVal(old(v[..(w - 1) / 32 + 1])))
  {
    hide UVal, Printed, Notation;
    var msw := (w - 1) / 32; // `>> 5`: -1 for a width of zero
    ghost var whole := UVal(v[..msw + 1]);
    if msw == -1 { EmptyIsZero(v[..0]); }
    while msw > 0 && v[msw] == 0
      invariant -1 <= msw < v.Length && UVal(v[..msw + 1]) == whole
      invariant msw == -1 ==> whole == 0
    {
      TopZero(v[..], msw);
      assert v[..][..msw + 1] == v[..msw + 1] && v[..][..msw] == v[..msw];
      msw := msw - 1;
    }
    r := [];
    assert Printed(r, whole, whole) by { NothingPrinted(whole); }
    while msw >= 0
      invariant -1 <= msw < v.Length && Printed(r, UVal(v[..msw + 1]), whole)
      invariant msw > 0 ==> v[msw] != 0
      invariant msw >= 0 && whole != 0 ==> UVal(v[..msw + 1]) > 0
      invariant whole == 0 ==> r == []
      invariant msw == -1 && r != [] ==> r[|r| - 1] != '0'
      decreases UVal(v[..msw + 1]) + msw + 1
    {
      ghost var o := v[..msw + 1];
      var rem := DivideChunk(v, msw);
      ghost var q := v[..msw + 1];
      ChunkDivided(o, q, msw, rem);
      if v[msw] == 0 { msw := msw - 1; }
      assert q[..msw + 1] == v[..msw + 1];
      var last := msw == -1;
      if whole == 0 { PrintedNothing(r, UVal(o)); }
      ghost var before := r;
      r := EmitChunk(r, rem, last);
      PrintedChunk(before, r, UVal(o), UVal(q), rem, whole);
    }
    EmptyIsZero(v[..msw + 1]);
    ghost var digits := r;
    r := ReverseInPlace(r);
    PrintedAll(digits, whole);
    NotationUnique(Reversed(digits));
  }

  // ------------------------------------------------------------------ fractions

  lemma LimbOfUnsigned(o: seq<Word>, k: nat)
    requires k < |o|
    ensures LimbShifts.Limb(UVal(o), k) == o[k]
  {
    var z := o + [0];
    UValSnoc(z, |o|);
    assert z[..|o| + 1] == z && z[..|o|] == o;
    ShlZero(32 * |o|);
    LimbShifts.LimbsOf(z, k);
  }

  lemma SpliceZero(hw: Word, bits: nat)
    requires 1 <= bits < 32
    ensures LimbShifts.Splice(0, hw, bits) == Low32(Shl(hw, 32 - bits))
  {
    ShrNonneg(0, bits);
  }

  /** The limbs so shifted hold the shifted number. */
  lemma Justified(o: seq<Word>, v: seq<Word>, bits: nat)
    requires 1 <= bits < 32 && |o| == |v| > 0 && UVal(o) < Shl(1, 32 * (|o| - 1) + bits)
    requires v[0] == Low32(Shl(o[0], 32 - bits))
    requires forall k :: 1 <= k < |v| ==> v[k] == LimbShifts.Splice(o[k - 1], o[k], bits)
    ensures UVal(v) == Shl(UVal(o), 32 - bits)
  {
    hide UVal, Shl, Shr, Low, LimbShifts.Splice;
    var x, s: nat, n := UVal(o), 32 - bits, |o|;
    forall k | 0 <= k < n ensures v[k] == LimbShifts.Limb(Shl(x, s), k) {
      LimbShifts.LimbOfShl(x, s, k);
      LimbShifts.ShiftedLimb(Shl(x, 32), k, bits);
      LimbShifts.LimbOfUp(x, k);
      LimbOfUnsigned(o, k);
      if k > 0 {
        LimbShifts.LimbOfUp(x, k - 1);
        LimbOfUnsigned(o, k - 1);
      } else {
        SpliceZero(o[0], bits);
      }
    }
    LimbShifts.FromLimbs(v, Shl(x, s));
    ShlShl(1, 32 * (n - 1) + bits, s);
    ShlMonotone(Shl(1, 32 * (n - 1) + bits), x, s);
    ShlMonotone(x, 0, s);
    ShlZero(32 * n);
    ShrUnique(Shl(x, s), 32 * n, 0, Shl(x, s));
  }

  /** `v << (32 - bits)` in place: the fraction moves to the top of the limbs. */
  method LeftJustify(v: array<Word>, w: nat)
    requires 1 <= w && (w - 1) / 32 < v.Length && UVal(v[..(w - 1) / 32 + 1]) < Shl(1, w)
    modifies v
    ensures UVal(v[..(w - 1) / 32 + 1]) == Shl(UVal(old(v[..(w - 1) / 32 + 1])), 32 * ((w - 1) / 32 + 1) - w)
  {
    hide UVal, Shl, Shr;
    var msw := (w - 1) / 32;
    ghost var o := v[..msw + 1];
    var bits := w % 32;
    if bits != 0 {
      var shift: nat := 32 - bits;
      var i := msw;
      while i > 0
        invariant 0 <= i <= msw && v[..i + 1] == o[..i + 1]
        invariant forall k :: i < k <= msw ==> v[k] == LimbShifts.Splice(o[k - 1], o[k], bits)
      {
        assert v[i] == v[..i + 1][i] && v[i - 1] == v[..i + 1][i - 1];
        v[i] := LimbShifts.Splice(v[i - 1], v[i], bits);
        i := i - 1;
        assert v[..i + 1] == o[..i + 1];
      }
      assert v[0] == v[..1][0];
      v[0] := Low32(Shl(v[0], shift));
      Justified(o, v[..msw + 1], bits);
    } else {
      ShiftByZero(UVal(o));
    }
  }

  lemma ZeroLow(s: seq<Word>, n: nat)
    requires |s| == n && forall k :: 0 <= k < n ==> s[k] == 0
    ensures UVal(s) == 0 && Up(0, n) == 0
  {
    UValZeros(s);
    ShlZero(32 * n);
  }

  lemma TenthLimb(w: int, l0: int, r: int, l: int, i: nat)
    requires l0 + w * 10 == r + B * l
    ensures Up(r, i) + Up(l, i + 1) == Up(l0, i) + 10 * Up(w, i)
  {
    UpPlus(r, B * l, i);
    UpPlus(l0, w * 10, i);
    UpTimes(10, w, i);
    UpStep(l, i);
  }

  /** Ten times the fraction: the digit that leaves the limbs, from limb lsw up; limbs that became zero are skipped. */
  method NextFractionDigit(v: array<Word>, lsw: nat, msw: nat) returns (digit: int, lsw': nat)
    requires lsw <= msw < v.Length && forall k :: 0 <= k < lsw ==> v[k] == 0
    modifies v
    ensures 10 * UVal(old(v[..msw + 1])) == Up(digit, msw + 1) + UVal(v[..msw + 1]) && 0 <= digit <= 9
    ensures lsw <= lsw' <= msw + 1 && forall k :: 0 <= k < lsw' ==> v[k] == 0
    ensures lsw' <= msw ==> v[lsw'] != 0
  {
    hide UVal, Up;
    ghost var o := v[..];
    var l := 0;
    lsw' := lsw;
    ZeroLow(o[..lsw], lsw);
    for i := lsw to msw + 1
      invariant 0 <= l <= 9 && v[i..] == o[i..]
      invariant lsw <= lsw' <= i && (forall k :: 0 <= k < lsw' ==> v[k] == 0) && (lsw' < i ==> v[lsw'] != 0)
      invariant UVal(v[..i]) + Up(l, i) == 10 * UVal(o[..i])
    {
      ghost var words, l0 := v[..i], l;
      assert v[i] == v[i..][0] == o[i];
      l := l + v[i] * 10;
      v[i] := Low32(l);
      LimbShifts.WordParts(l);
      l := l / B;
      if i == lsw' && v[i] == 0 { lsw' := lsw' + 1; }
      assert v[..i + 1] == words + [v[i]] && v[i + 1..] == o[i + 1..];
      UValAppend(words, [v[i]]);
      UValOne(v[i]);
      UValSnoc(o, i);
      TenthLimb(o[i], l0, v[i], l, i);
    }
    digit := l;
    assert o[..msw + 1] == old(v[..msw + 1]);
  }

  /** The digits so far and the fraction left, which has lost a factor of two for each of them. */
  ghost predicate Expanded(r: string, m: int, m0: int, n: nat, c: int) {
    Ten(m0, |r|) == Up(ValueOf(r), n) + m && m == Shl(c, |r|)
  }

  lemma NothingExpanded(m0: int, n: nat)
    ensures Expanded([], m0, m0, n, m0)
  {
    ShlZero(32 * n);
  }

  /** After as many digits as there are bits nothing is left. */
  lemma ExpandedRoom(r: string, m: int, m0: int, n: nat, c: int)
    requires Expanded(r, m, m0, n, c) && m < Up(1, n) && |r| <= 32 * n && 1 <= n
    ensures r != [] && m > 0 ==> |r| < 32 * n
  {
    ShlMonotone(1, c, 32 * n);
    ShlMonotone(c, 0, |r|);
  }

  lemma ExpandedStep(r: string, m: int, m0: int, n: nat, c: int, digit: int, m': int) returns (c': int)
    requires Expanded(r, m, m0, n, c) && 0 <= digit <= 9 && 10 * m == Up(digit, n) + m' && |r| < 32 * n
    ensures Expanded(r + [Char(digit)], m', m0, n, c')
  {
    hide Shl, ValueOf;
    var k := |r|;
    ValueSnoc(r, Char(digit));
    UpPlus(10 * ValueOf(r), digit, n);
    UpTimes(ValueOf(r), 10, n);
    UpTimes(10, ValueOf(r), n);
    ShlTimes(10, c, k);
    ShlStep(5 * c, k);
    ShlTimes(2, 5 * c, k);
    ShlShl(digit, 32 * n - k - 1, k + 1);
    c' := 5 * c - Shl(digit, 32 * n - k - 1);
    ShlMinus(5 * c, Shl(digit, 32 * n - k - 1), k + 1);
  }

  lemma Positive(s: seq<Word>, i: nat)
    requires i < |s| && s[i] != 0
    ensures UVal(s) > 0
  {
    if UVal(s) == 0 { UValZeroLimbs(s); }
  }

  lemma DigitCarried(m: int, digit: int, m': int, n: nat)
    requires 10 * m == Up(digit, n) + m' && 0 <= digit && 0 <= m'
    ensures m > 0 && m' == 0 ==> digit > 0
    ensures m == 0 ==> digit == 0 && m' == 0
  {
    UpMonotone(digit, 0, n);
    ShlZero(32 * n);
  }

  lemma ExpandedAll(r: string, m0: int, n: nat, c: int, x: int, w: nat)
    requires Expanded(r, 0, m0, n, c) && w <= 32 * n && m0 == Shl(x, 32 * n - w)
    ensures Ten(x, |r|) == Shl(ValueOf(r), w) && (m0 == 0 <==> x == 0)
  {
    hide Shl, Ten, ValueOf;
    var s: nat := 32 * n - w;
    TenShl(x, |r|, s);
    ShlShl(ValueOf(r), w, s);
    ShlMonotone(Ten(x, |r|), Shl(ValueOf(r), w), s);
    ShlMonotone(x, 0, s);
    ShlZero(s);
  }

  /**
   * `to_str<AC_DEC>` of a fraction of w bits, left-justified: its complete decimal expansion, which is finite. The last
   * digit is not a zero, except that the fraction 0 of more than one limb gives a single "0".
   */
  method Fraction(v: array<Word>, w: nat) returns (r: string)
    requires 1 <= w && (w - 1) / 32 < v.Length && UVal(v[..(w - 1) / 32 + 1]) < Shl(1, w)
    modifies v
    ensures var x := UVal(old(v[..(w - 1) / 32 + 1]));
      && Decimal(r) && Ten(x, |r|) == Shl(ValueOf(r), w)
      && (x != 0 ==> r != [] && r[|r| - 1] != '0')
      && (x == 0 ==> r == if w <= 32 then [] else ['0'])
  {
    hide UVal, Up, Ten, ValueOf, Shl, Expanded;
    var msw := (w - 1) / 32;
    ghost var x, n := UVal(v[..msw + 1]), msw + 1;
    LeftJustify(v, w);
    ghost var m0, c := UVal(v[..n]), UVal(v[..n]);
    UValBound(v[..n]);
    NothingExpanded(m0, n);
    var lsw := 0;
    r := [];
    while lsw < msw || v[msw] != 0
      invariant 0 <= lsw <= msw + 1 && Decimal(r) && (forall k :: 0 <= k < lsw ==> v[k] == 0)
      invariant Expanded(r, UVal(v[..n]), m0, n, c) && UVal(v[..n]) < Up(1, n) && |r| <= 32 * n
      invariant r != [] && lsw <= msw ==> v[lsw] != 0
      invariant r == [] ==> lsw == 0 && UVal(v[..n]) == m0
      invariant r != [] && m0 != 0 && UVal(v[..n]) == 0 ==> r[|r| - 1] != '0'
      invariant m0 == 0 ==> r == [] || (r == ['0'] && lsw == msw + 1 && msw > 0)
      decreases 32 * n - |r|
    {
      ghost var m, before := UVal(v[..n]), r;
      if lsw <= msw && v[lsw] != 0 { Positive(v[..n], lsw); }
      if v[msw] != 0 { Positive(v[..n], msw); }
      ExpandedRoom(r, m, m0, n, c);
      var digit;
      digit, lsw := NextFractionDigit(v, lsw, msw);
      r := r + [Char(digit)];
      c := ExpandedStep(before, m, m0, n, c, digit, UVal(v[..n]));
      UValBound(v[..n]);
      if lsw <= msw { Positive(v[..n], lsw); }
      DigitCarried(m, digit, UVal(v[..n]), n);
    }
    UValZeros(v[..n]);
    ExpandedAll(r, m0, n, c, x, w);
  }

  lemma LastDigitZero(s: string, y: int)
    requires Decimal(s) && s != [] && ValueOf(s) == 10 * y
    ensures s[|s| - 1] == '0'
  {
    assert Digit(s[|s| - 1]) % 10 == 0;
    assert Char(Digit(s[|s| - 1])) == s[|s| - 1];
  }

  lemma OneChar(c: char, d: char)
    ensures Digit(c) == Digit(d) ==> c == d
  {
  }

  lemma LastDigit(a: string, b: string, c: char, d: char)
    requires 0 <= Digit(c) <= 9 && 0 <= Digit(d) <= 9 && ValueOf(a + [c]) == ValueOf(b + [d])
    ensures ValueOf(a) == ValueOf(b) && c == d
  {
    hide ValueOf, Digit;
    ValueSnoc(a, c);
    ValueSnoc(b, d);
    DivModUnique(ValueOf(a + [c]), 10, ValueOf(a), Digit(c));
    DivModUnique(ValueOf(b + [d]), 10, ValueOf(b), Digit(d));
    OneChar(c, d);
  }

  lemma {:induction false} SameDigits(r: string, s: string)
    requires Decimal(r) && Decimal(s) && |r| == |s| && ValueOf(r) == ValueOf(s)
    ensures r == s
    decreases |r|
  {
    hide ValueOf, Digit;
    if r != [] {
      var a, b, c, d := r[..|r| - 1], s[..|s| - 1], r[|r| - 1], s[|s| - 1];
      assert r == a + [c] && s == b + [d];
      LastDigit(a, b, c, d);
      SameDigits(a, b);
    }
  }

  /** The expansion of a fraction that does not end in a zero is the only one. */
  lemma ExpansionUnique(x: int, w: nat, r: string, s: string)
    requires Decimal(r) && Decimal(s) && r != [] && s != [] && |r| <= |s|
    requires Ten(x, |r|) == Shl(ValueOf(r), w) && Ten(x, |s|) == Shl(ValueOf(s), w)
    requires r[|r| - 1] != '0' && s[|s| - 1] != '0'
    ensures r == s
  {
    var d := |s| - |r|;
    TenTen(x, |r|, d);
    TenShl(ValueOf(r), d, w);
    ShlMonotone(Ten(ValueOf(r), d), ValueOf(s), w);
    if d > 0 {
      LastDigitZero(s, Ten(ValueOf(r), d - 1));
    } else {
      SameDigits(r, s);
    }
  }
}
