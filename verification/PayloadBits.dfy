/** `type_to_gp` and `gp_to_type` for `ac_int`: bit fields at any bit offset of a byte payload. */
module PayloadBits {
  import opened Arith
  import opened BitInt

  /** The payload as one number, the first byte lowest. */
  function Value(p: seq<Byte>): (v: int)
    ensures 0 <= v
  {
    if p == [] then 0 else p[0] + 0x100 * Value(p[1..])
  }

  /** Byte i of a number. */
  function ByteAt(x: int, i: nat): Byte {
    Shr(x, 8 * i) % 0x100
  }

  lemma ShrByByte(h: int)
    ensures Shr(h, 8) == h / 0x100 && Low(h, 8) == h % 0x100
  {
    Shl8(h / 0x100);
    Shl8(1);
    DivModEq(h, 0x100);
    ShrUnique(h, 8, h / 0x100, h % 0x100);
  }

  /** The bytes of a payload are those of its value. */
  lemma {:induction false} ByteOfValue(p: seq<Byte>, i: nat)
    requires i < |p|
    ensures ByteAt(Value(p), i) == p[i]
    decreases |p|
  {
    if i == 0 {
      assert Shr(Value(p), 0) == Value(p);
    } else {
      ByteOfValue(p[1..], i - 1);
      ShrByByte(Value(p));
      ShrShr(Value(p), 8, 8 * (i - 1));
    }
  }

  /** A payload is determined by its bytes: it is the low end of any number with the same ones. */
  lemma {:induction false} ValueOfBytes(p: seq<Byte>, x: int)
    requires forall i :: 0 <= i < |p| ==> p[i] == ByteAt(x, i)
    ensures Value(p) == Low(x, 8 * |p|)
    decreases |p|
  {
    if p == [] {
      assert Shl(x, 0) == x;
    } else {
      forall i | 0 <= i < |p[1..]| ensures p[1..][i] == ByteAt(x / 0x100, i) {
        ShrByByte(x);
        ShrShr(x, 8, 8 * i);
        assert p[1..][i] == p[i + 1];
      }
      ValueOfBytes(p[1..], x / 0x100);
      DroppedBits(x, 8, 8 * |p[1..]|);
      ShrByByte(x);
      Shl8(Low(x / 0x100, 8 * |p[1..]|));
      assert p[0] == ByteAt(x, 0);
      assert Shr(x, 0) == x;
    }
  }

  /** What `ac_int<w,signed>` keeps of x. */
  function Kept(x: int, w: nat, signed: bool): int
    requires 1 <= w
  {
    if signed then ToS(x, w) else Low(x, w)
  }

  /** The value a field of bitlen bits at bit bb holds. */
  function Field(x: int, bitlen: nat, signed: bool, bb: nat): int
    requires 1 <= bitlen
  {
    Kept(Shr(x, bb), bitlen, signed)
  }

  /** v is a value of `ac_int<w,signed>`. */
  predicate Holds(v: int, w: nat, signed: bool)
    requires 1 <= w
  {
    if signed then -Shl(1, w - 1) <= v < Shl(1, w - 1) else 0 <= v < Shl(1, w)
  }

  /** The payload after a field is written: the bits below it stay, those above it in its last byte are cleared. */
  function Written(x: int, bitlen: nat, bb: nat, v: int): int
    requires 1 <= bitlen
  {
    var top := 8 * ((bb + bitlen - 1) / 8 + 1);
    Low(x, bb) + Shl(Low(v, bitlen), bb) + Shl(Shr(x, top), top)
  }

  /** Reading the field back gives the value, and every field below it reads as before. */
  lemma ReadBack(x: int, bitlen: nat, signed: bool, bb: nat, v: int)
    requires 1 <= bitlen && Holds(v, bitlen, signed)
    ensures Field(Written(x, bitlen, bb, v), bitlen, signed, bb) == v
    ensures Low(Written(x, bitlen, bb, v), bb) == Low(x, bb)
  {
    hide Shl, Shr, Low;
    var top := 8 * ((bb + bitlen - 1) / 8 + 1);
    var u, h := Low(v, bitlen), Shr(x, top);
    ShrSpec(x, bb);
    ShrSpec(v, bitlen);
    ShlShl(h, top - bb - bitlen, bitlen);
    ShlShl(h, top - bb, bb);
    var rest := Shl(h, top - bb - bitlen);
    ShlPlus(u, Shl(h, top - bb), bb);
    ShrUnique(Written(x, bitlen, bb, v), bb, u + Shl(h, top - bb), Low(x, bb));
    ShrUnique(u + Shl(rest, bitlen), bitlen, rest, u);
    if signed { FitsS(v, bitlen); } else { FitsU(v, bitlen); }
  }

  /** A field that ends at or below bit bb depends only on the bits below bb. */
  lemma FieldBelow(x: int, y: int, bitlen: nat, signed: bool, at: nat, bb: nat)
    requires 1 <= bitlen && at + bitlen <= bb && Low(x, bb) == Low(y, bb)
    ensures Field(x, bitlen, signed, at) == Field(y, bitlen, signed, at)
  {
    hide Shl, Shr, Low;
    LowOfLow(x, at + bitlen, bb);
    LowOfLow(y, at + bitlen, bb);
    LowOfLow(x, at, bb);
    LowOfLow(y, at, bb);
    DroppedBits(x, at, bitlen);
    DroppedBits(y, at, bitlen);
    ShlMonotone(Low(Shr(x, at), bitlen), Low(Shr(y, at), bitlen), at);
  }

  // ------------------------------------------------------------------ bytes and their positions

  lemma ValueCons(b: Byte, t: seq<Byte>)
    ensures Value([b] + t) == b + 0x100 * Value(t)
  {
    assert ([b] + t)[1..] == t;
  }

  /** Where a payload is cut, its value splits into low bits and shifted-out bits. */
  lemma {:induction false} ValueSplit(p: seq<Byte>, i: nat)
    requires i <= |p|
    ensures Value(p[..i]) == Low(Value(p), 8 * i) && Value(p[i..]) == Shr(Value(p), 8 * i)
  {
    if i == 0 {
      assert p[0..] == p && p[..0] == [];
      assert Shr(Value(p), 0) == Value(p) && Shl(Value(p), 0) == Value(p);
    } else {
      hide Shl, Shr, Low, Value;
      var x, t := Value(p), p[1..];
      assert p == [p[0]] + t && p[..i] == [p[0]] + t[..i - 1] && p[i..] == t[i - 1..];
      ValueCons(p[0], t);
      ValueCons(p[0], t[..i - 1]);
      ValueSplit(t, i - 1);
      DivModUnique(x, 0x100, Value(t), p[0]);
      ShrByByte(x);
      DroppedBits(x, 8, 8 * (i - 1));
      Shl8(Low(Value(t), 8 * (i - 1)));
    }
  }

  /** The low m bits of a number, byte by byte: whole bytes, then the part of one that lies below bit m. */
  lemma BytesOfLow(x: int, m: nat, i: nat)
    requires 8 * i < m
    ensures 8 * i + 8 <= m ==> ByteAt(Low(x, m), i) == ByteAt(x, i)
    ensures m <= 8 * i + 8 ==> ByteAt(Low(x, m), i) == Low(ByteAt(x, i), m - 8 * i)
  {
    hide Shl, Shr, Low;
    var r := Shr(x, 8 * i);
    var n := m - 8 * i;
    DroppedBits(x, 8 * i, n);
    ShrSpec(x, 8 * i);
    ShrUnique(Low(x, m), 8 * i, Low(r, n), Low(x, 8 * i));
    ShrByByte(r);
    ShrByByte(Low(r, n));
    if 8 <= n {
      LowOfLow(r, 8, n);
    }
    if n <= 8 {
      ShrSpec(r, n);
      Pow2Monotone(n, 8);
      Shl8(1);
      assert Low(r, n) % 0x100 == Low(r, n);
      LowOfLow(r, n, 8);
    }
  }

  lemma JoinBelow(low: int, v: int, s: nat)
    requires s < 8 && 0 <= low < Shl(1, s)
    ensures low + Shl(v, s) % 0x100 == (low + Shl(v, s)) % 0x100
  {
    hide Shl, Shr, Low;
    var q, r := Shr(v, 8 - s), Low(v, 8 - s);
    ShrSpec(v, 8 - s);
    ShlPlus(Shl(q, 8 - s), r, s);
    ShlShl(q, 8 - s, s);
    Shl8(q);
    Shl8(1);
    ShlShl(1, 8 - s, s);
    ShlPlus(r, 1, s);
    ShlMonotone(0, r, s);
    ShlMonotone(r + 1, Shl(1, 8 - s), s);
    DivModUnique(Shl(v, s), 0x100, q, Shl(r, s));
    DivModUnique(low + Shl(v, s), 0x100, q, low + Shl(r, s));
  }

  /** Bits put below a shifted number join its first byte and leave the others alone. */
  lemma BytesAbove(low: int, v: int, s: nat, i: nat)
    requires s < 8 && 0 <= low < Shl(1, s)
    ensures i == 0 ==> low + ByteAt(Shl(v, s), 0) == ByteAt(low + Shl(v, s), 0)
    ensures i > 0 ==> ByteAt(Shl(v, s), i) == ByteAt(low + Shl(v, s), i)
  {
    hide Shl, Low;
    if i == 0 {
      assert Shr(Shl(v, s), 0) == Shl(v, s) && Shr(low + Shl(v, s), 0) == low + Shl(v, s);
      JoinBelow(low, v, s);
    } else {
      ShrDropLow(v, low, s, 8 * i - s);
      ShrOfShl(v, s, 8 * i - s);
    }
  }

  /** `a | b` on non-negative numbers. */
  function Or(a: int, b: int): int {
    a + b - And(a, b)
  }

  /** Numbers without a common bit are joined by adding them. */
  lemma {:induction false} OrDisjoint(low: int, high: int, s: nat)
    requires 0 <= low < Shl(1, s) && 0 <= high && Low(high, s) == 0
    ensures Or(low, high) == low + high
    decreases s
  {
    if s > 0 && low > 0 {
      LowStep(high, s);
      ShrSpec(high / 2, s - 1);
      OrDisjoint(low / 2, high / 2, s - 1);
    }
  }

  /** The first byte of a number shifted left by s has no bit below s. */
  lemma FirstByteClear(v: int, s: nat)
    requires s < 8
    ensures Low(ByteAt(Shl(v, s), 0), s) == 0
  {
    hide Shl, Shr, Low;
    ShiftByZero(Shl(v, s));
    ShrByByte(Shl(v, s));
    LowOfLow(Shl(v, s), s, 8);
    ShrShl(v, s);
  }

  lemma OrZero(high: Byte)
    ensures Or(0, high) == high
  {
  }

  /** Masking the byte and or-ing the shifted value over it adds the bits below the field. */
  lemma MergedByte(kept: Byte, v: int, s: nat, k: nat)
    requires s < 8
    ensures Or(if s > 0 && k == 0 then And(Shl(1, s) - 1, kept) else 0, ByteAt(Shl(v, s), k))
        == ByteAt(Low(kept, s) + Shl(v, s), k)
  {
    hide Shl, Shr, Low, ByteAt, And, Or;
    var low, high := Low(kept, s), ByteAt(Shl(v, s), k);
    ShrSpec(kept, s);
    BytesAbove(low, v, s, k);
    if k == 0 {
      AndOnes(s, kept);
      FirstByteClear(v, s);
      OrDisjoint(low, high, s);
      ShiftByZero(kept);
    }
    OrZero(high);
  }

  /** The byte the writing loop stores is the one of the low m bits of the shifted value over the kept bits. */
  lemma NextByte(kept: Byte, v: int, s: nat, m: nat, k: nat, last: bool)
    requires s < 8 && (if last then 8 * k < m <= 8 * k + 8 else 8 * k + 8 <= m)
    ensures
      var cur := Or(if s > 0 && k == 0 then And(Shl(1, s) - 1, kept) else 0, ByteAt(Shl(v, s), k));
      (if last && m < 8 * k + 8 then And(Shl(1, m - 8 * k) - 1, cur) else cur)
      == ByteAt(Low(Low(kept, s) + Shl(v, s), m), k)
  {
    hide Shl, Shr, Low, ByteAt, And, Or;
    MergedByte(kept, v, s, k);
    BytesOfLow(Low(kept, s) + Shl(v, s), m, k);
    var cur := ByteAt(Low(kept, s) + Shl(v, s), k);
    if m < 8 * k + 8 { AndOnes(m - 8 * k, cur); }
  }

  // ------------------------------------------------------------------ the two conversions

  /** The bytes from s on up to n are those of l, the others as before. */
  ghost predicate Filled(was: seq<Byte>, now: seq<Byte>, l: int, s: nat, n: nat)
    requires s <= n <= |was|
  {
    && |now| == |was|
    && (forall i :: 0 <= i < s || n <= i < |was| ==> now[i] == was[i])
    && (forall i :: s <= i < n ==> now[i] == ByteAt(l, i - s))
  }

  /** The value shifted by up to seven bits still fits in its field of eight more. */
  lemma WideEnough(v: int, bitlen: nat, signed: bool, sbit: nat)
    requires 1 <= bitlen && Holds(v, bitlen, signed) && sbit < 8
    ensures Kept(Shl(Kept(v, bitlen + 8, signed), sbit), bitlen + 8, signed) == Shl(v, sbit)
  {
    hide Shl, Low;
    var w := if signed then bitlen - 1 else bitlen;
    Pow2Monotone(w, w + 8);
    Pow2Monotone(w + sbit, w + 8);
    ShlShl(1, w, sbit);
    ShlMonotone(v + 1, Shl(1, w), sbit);
    ShlMonotone(-Shl(1, w), v, sbit);
    ShlNegate(Shl(1, w), sbit);
    ShlPlus(v, 1, sbit);
    ShlMonotone(1, 1, sbit);
    ShlMonotone(v, v, sbit);
    assert Holds(v, bitlen + 8, signed) && Holds(Shl(v, sbit), bitlen + 8, signed);
    if signed {
      FitsS(v, bitlen + 8);
      FitsS(Shl(v, sbit), bitlen + 8);
    } else {
      FitsU(v, bitlen + 8);
      FitsU(Shl(v, sbit), bitlen + 8);
    }
  }

  lemma ThreePieces(p: seq<Byte>, s: nat, n: nat)
    requires s <= n <= |p|
    ensures Value(p) == Value(p[..s]) + Shl(Value(p[s..n]), 8 * s) + Shl(Value(p[n..]), 8 * n)
  {
    hide Shl, Shr, Low, Value;
    ValueSplit(p, s);
    ValueSplit(p, n);
    ValueSplit(p[s..], n - s);
    assert p[s..][..n - s] == p[s..n];
    DroppedBits(Value(p), 8 * s, 8 * (n - s));
    ShrSpec(Value(p), 8 * n);
  }

  /** The new payload from its three pieces: the old low bytes, the new ones, the old high bytes. */
  lemma Pieces(was: seq<Byte>, now: seq<Byte>, l: int, s: nat, n: nat)
    requires s <= n <= |was| && Filled(was, now, l, s, n)
    ensures Value(now) == Low(Value(was), 8 * s) + Shl(Low(l, 8 * (n - s)), 8 * s) + Shl(Shr(Value(was), 8 * n), 8 * n)
  {
    assert now[..s] == was[..s] && now[n..] == was[n..];
    hide Shl, Shr, Low, Value, ByteAt;
    ValueSplit(was, s);
    ValueSplit(was, n);
    ThreePieces(now, s, n);
    var mid := now[s..n];
    assert forall i :: 0 <= i < |mid| ==> mid[i] == ByteAt(l, i);
    ValueOfBytes(mid, l);
  }

  /** The bits of a byte at its own place in the payload. */
  lemma ShiftedLow(x: int, s: nat, b: nat)
    requires b < 8
    ensures Low(Shr(x, 8 * s), b) == Low(ByteAt(x, s), b)
  {
    ShrByByte(Shr(x, 8 * s));
    LowOfLow(Shr(x, 8 * s), b, 8);
  }

  /** The low bits of a field put over b others. */
  lemma FieldOverLow(low: int, v: int, b: nat, bitlen: nat)
    requires 0 <= low < Shl(1, b)
    ensures Low(low + Shl(v, b), b + bitlen) == low + Shl(Low(v, bitlen), b)
  {
    hide Shl, Shr, Low;
    ShrUnique(low + Shl(v, b), b, v, low);
    DroppedBits(low + Shl(v, b), b, bitlen);
  }

  /** Replacing the bytes a field lies in replaces the payload by the written one. */
  lemma Spliced(was: seq<Byte>, now: seq<Byte>, bitlen: nat, bb: nat, v: int)
    requires 1 <= bitlen && (bb + bitlen - 1) / 8 < |was|
    requires
      var l := Low(Low(was[bb / 8], bb % 8) + Shl(v, bb % 8), bb % 8 + bitlen);
      Filled(was, now, l, bb / 8, (bb + bitlen - 1) / 8 + 1)
    ensures Value(now) == Written(Value(was), bitlen, bb, v)
  {
    hide Shl, Shr, Low, Value, ByteAt, Filled;
    var s, n, b := bb / 8, (bb + bitlen - 1) / 8 + 1, bb % 8;
    var x, low := Value(was), Low(was[s], b);
    var l := Low(low + Shl(v, b), b + bitlen);
    Pieces(was, now, l, s, n);
    ShrSpec(low + Shl(v, b), b + bitlen);
    Pow2Monotone(b + bitlen, 8 * (n - s));
    FitsU(l, 8 * (n - s));
    ShrSpec(was[s], b);
    FieldOverLow(low, v, b, bitlen);
    DroppedBits(x, 8 * s, b);
    ByteOfValue(was, s);
    ShiftedLow(x, s, b);
    ShlPlus(low, Shl(Low(v, bitlen), b), 8 * s);
    ShlShl(Low(v, bitlen), b, 8 * s);
  }

  /** Bits [bb, bb + bitlen) of the payload become v; the bits below stay. */
  method TypeToGp(ptr: array<Byte>, v: int, bitlen: nat, signed: bool, bb: nat)
    requires 1 <= bitlen && Holds(v, bitlen, signed)
    requires (bb + bitlen - 1) / 8 < ptr.Length
    modifies ptr
    ensures Value(ptr[..]) == Written(old(Value(ptr[..])), bitlen, bb, v)
  {
    hide Shl, Shr, Low, Value, Written, ByteAt, Kept, And, Or, Holds;
    var sbyte, sbit := bb / 8, bb % 8;
    var ebyte, ebit := (bb + bitlen - 1) / 8, (bb + bitlen - 1) % 8;
    var tmpIn := Kept(Shl(Kept(v, bitlen + 8, signed), sbit), bitlen + 8, signed);
    WideEnough(v, bitlen, signed, sbit);
    ghost var was, m := ptr[..], sbit + bitlen;
    ghost var l := Low(Low(was[sbyte], sbit) + Shl(v, sbit), m);
    assert m == 8 * (ebyte - sbyte) + ebit + 1;
    var at := sbyte;
    while at <= ebyte
      invariant sbyte <= at <= ebyte + 1
      invariant Filled(was, ptr[..], l, sbyte, at)
    {
      var cur := 0;
      if sbit > 0 && at == sbyte {
        cur := And(Shl(1, sbit) - 1, ptr[at]);
      }
      cur := Or(cur, ByteAt(tmpIn, at - sbyte));
      if ebit < 7 && at == ebyte {
        cur := And(Shl(1, ebit + 1) - 1, cur);
      }
      NextByte(was[sbyte], v, sbit, m, at - sbyte, at == ebyte);
      ptr[at] := cur;
      at := at + 1;
    }
    Spliced(was, ptr[..], bitlen, bb, v);
  }

  lemma ByteIsLow(b: Byte)
    ensures Low(b, 8) == b
  {
    Shl8(1);
    FitsU(b, 8);
  }

  /** `set_slc(8 * i, by)`: byte i of x is replaced. */
  function SetByte(x: int, i: nat, part: Byte): int {
    x - Shl(ByteAt(x, i), 8 * i) + Shl(part, 8 * i)
  }

  lemma LowOfByte(b: Byte, n: nat)
    requires n <= 8
    ensures 0 <= Low(b, n) < 0x100
  {
    ShrSpec(b, n);
    Pow2Monotone(n, 8);
    Shl8(1);
  }

  lemma ByteOfShifted(x: int, s: nat, k: nat)
    ensures ByteAt(x, s + k) == Low(Shr(Shr(x, 8 * s), 8 * k), 8)
  {
    hide Shl, Low;
    ShrShr(x, 8 * s, 8 * k);
    ShrByByte(Shr(Shr(x, 8 * s), 8 * k));
  }

  /** Setting a byte above all bits of a number. */
  lemma SetAbove(y: int, k: nat, part: Byte)
    ensures SetByte(Low(y, 8 * k), k, part) == Low(y, 8 * k) + Shl(part, 8 * k)
  {
    hide Shl, Shr, Low;
    ShrSpec(y, 8 * k);
    ShlZero(8 * k);
    ShrUnique(Low(y, 8 * k), 8 * k, 0, Low(y, 8 * k));
  }

  /** Fewer low bits than the width fit it, signed or not. */
  lemma KeptLow(y: int, n: nat, w: nat, signed: bool)
    requires n < w
    ensures Kept(Low(y, n), w, signed) == Low(y, n)
  {
    hide Shl, Shr, Low;
    var z := Low(y, n);
    ShrSpec(y, n);
    Pow2Monotone(n, w - 1);
    Pow2Monotone(w - 1, w);
    ShlMonotone(1, 1, w - 1);
    if signed { FitsS(z, w); } else { FitsU(z, w); }
  }

  /** Setting byte k, or its low n bits, continues the bits collected below it. */
  lemma NextSlice(x: int, s: nat, k: nat, n: nat, w: nat, signed: bool)
    requires 1 <= n <= 8 && 8 * k + n + 1 <= w
    ensures
      var y := Shr(x, 8 * s);
      && 0 <= Low(ByteAt(x, s + k), n) < 0x100
      && Kept(SetByte(Low(y, 8 * k), k, Low(ByteAt(x, s + k), n)), w, signed) == Low(y, 8 * k + n)
  {
    hide Shl, Shr, Low, ByteAt, SetByte, Kept;
    var y := Shr(x, 8 * s);
    var z := Low(y, 8 * k + n);
    LowOfByte(ByteAt(x, s + k), n);
    ByteOfShifted(x, s, k);
    SetAbove(y, k, Low(ByteAt(x, s + k), n));
    LowOfLow(Shr(y, 8 * k), n, 8);
    DroppedBits(y, 8 * k, n);
    ShrSpec(y, 8 * k + n);
    KeptLow(y, 8 * k + n, w, signed);
  }

  lemma SliceIsField(x: int, s: nat, b: nat, bitlen: nat, signed: bool)
    requires 1 <= bitlen
    ensures Kept(Shr(Low(Shr(x, 8 * s), b + bitlen), b), bitlen, signed) == Field(x, bitlen, signed, 8 * s + b)
  {
    hide Shl, Shr, Low;
    var y := Shr(x, 8 * s);
    DroppedBits(y, b, bitlen);
    ShrSpec(y, b);
    ShrUnique(Low(y, b + bitlen), b, Low(Shr(y, b), bitlen), Low(y, b));
    LowOfLow(Shr(y, b), bitlen, bitlen);
    ShrShr(x, 8 * s, b);
  }

  /** Reading the field at bits [bb, bb + bitlen) of the payload. */
  method GpToType(ptr: array<Byte>, bitlen: nat, signed: bool, bb: nat) returns (result: int)
    requires 1 <= bitlen && (bb + bitlen - 1) / 8 < ptr.Length
    ensures result == Field(Value(ptr[..]), bitlen, signed, bb)
  {
    hide Shl, Shr, Low, Value, Field, ByteAt, SetByte;
    var sbyte, sbit := bb / 8, bb % 8;
    var ebyte, ebit := (bb + bitlen - 1) / 8, (bb + bitlen - 1) % 8;
    ghost var y, m := Shr(Value(ptr[..]), 8 * sbyte), sbit + bitlen;
    assert m == 8 * (ebyte - sbyte) + ebit + 1;
    var tmp := 0;
    var at := sbyte;
    ShiftByZero(y);
    while at <= ebyte
      invariant sbyte <= at <= ebyte + 1
      invariant tmp == if at <= ebyte then Low(y, 8 * (at - sbyte)) else Low(y, m)
    {
      var part: Byte := ptr[at];
      if ebit < 7 && at == ebyte {
        AndOnes(ebit + 1, part);
        LowOfByte(part, ebit + 1);
        part := And(Shl(1, ebit + 1) - 1, part);
      }
      ByteOfValue(ptr[..], at);
      ByteIsLow(ptr[at]);
      NextSlice(Value(ptr[..]), sbyte, at - sbyte, if at == ebyte then ebit + 1 else 8, bitlen + 16, signed);
      tmp := Kept(SetByte(tmp, at - sbyte, part), bitlen + 16, signed);
      at := at + 1;
    }
    SliceIsField(Value(ptr[..]), sbyte, sbit, bitlen, signed);
    result := Kept(Shr(tmp, sbit), bitlen, signed);
  }

  // ------------------------------------------------------------------ adjacent fields

  datatype Slot = Slot(value: int, bitlen: nat, signed: bool) {
    predicate Valid() {
      1 <= bitlen && Holds(value, bitlen, signed)
    }
  }

  /** The payload after adjacent fields are written in ascending order from bit bb on. */
  function AllWritten(x: int, slots: seq<Slot>, bb: nat): int
    requires forall k :: 0 <= k < |slots| ==> slots[k].Valid()
    decreases |slots|
  {
    if slots == [] then x
    else
      assert slots[0].Valid();
      AllWritten(Written(x, slots[0].bitlen, bb, slots[0].value), slots[1..], bb + slots[0].bitlen)
  }

  /** The bit field k starts at. */
  function Offset(slots: seq<Slot>, k: nat, bb: nat): nat
    requires k <= |slots|
  {
    if k == 0 then bb else Offset(slots[1..], k - 1, bb + slots[0].bitlen)
  }

  /** Every field of the list can be read back, and the bits below the list are as before. */
  lemma {:induction false} AllReadBack(x: int, slots: seq<Slot>, bb: nat)
    requires forall k :: 0 <= k < |slots| ==> slots[k].Valid()
    ensures Low(AllWritten(x, slots, bb), bb) == Low(x, bb)
    ensures forall k :: 0 <= k < |slots| ==>
      Field(AllWritten(x, slots, bb), slots[k].bitlen, slots[k].signed, Offset(slots, k, bb)) == slots[k].value
    decreases |slots|
  {
    if slots != [] {
      hide Low, Field, Written;
      var f, rest := slots[0], slots[1..];
      var next := bb + f.bitlen;
      var y := Written(x, f.bitlen, bb, f.value);
      var z := AllWritten(y, rest, next);
      ReadBack(x, f.bitlen, f.signed, bb, f.value);
      AllReadBack(y, rest, next);
      FieldBelow(z, y, f.bitlen, f.signed, bb, next);
      LowOfLow(z, bb, next);
      LowOfLow(y, bb, next);
      forall k | 0 <= k < |slots|
        ensures Field(z, slots[k].bitlen, slots[k].signed, Offset(slots, k, bb)) == slots[k].value
      {
        if k > 0 {
          assert rest[k - 1] == slots[k];
        }
      }
    }
  }

  lemma {:induction false} OffsetStep(slots: seq<Slot>, k: nat, bb: nat)
    requires k < |slots|
    ensures Offset(slots, k + 1, bb) == Offset(slots, k, bb) + slots[k].bitlen
  {
    if k > 0 { OffsetStep(slots[1..], k - 1, bb + slots[0].bitlen); }
  }

  lemma {:induction false} OffsetGrows(slots: seq<Slot>, j: nat, k: nat, bb: nat)
    requires j <= k <= |slots|
    ensures Offset(slots, j, bb) <= Offset(slots, k, bb)
    decreases k
  {
    if j < k {
      OffsetStep(slots, k - 1, bb);
      OffsetGrows(slots, j, k - 1, bb);
    }
  }

  /** The payload is as far as the fields that are left to write say. */
  lemma WrittenStep(x: int, slots: seq<Slot>, k: nat, at: nat)
    requires k < |slots| && forall i :: 0 <= i < |slots| ==> slots[i].Valid()
    ensures slots[k].Valid()
    ensures AllWritten(x, slots[k..], at)
        == AllWritten(Written(x, slots[k].bitlen, at, slots[k].value), slots[k + 1..], at + slots[k].bitlen)
  {
    assert slots[k..][0] == slots[k] && slots[k..][1..] == slots[k + 1..];
  }

  lemma OffsetStart(slots: seq<Slot>, bb: nat)
    ensures Offset(slots, 0, bb) == bb
  {
  }

  lemma NothingLeft(x: int, slots: seq<Slot>, at: nat)
    requires slots == []
    ensures AllWritten(x, slots, at) == x
  {
  }

  /** Field k of the list lies within the payload. */
  lemma Fits(slots: seq<Slot>, k: nat, bb: nat, length: nat)
    requires k < |slots| && slots[k].Valid() && Offset(slots, |slots|, bb) <= 8 * length
    ensures 1 <= slots[k].bitlen && Holds(slots[k].value, slots[k].bitlen, slots[k].signed)
    ensures Offset(slots, k + 1, bb) == Offset(slots, k, bb) + slots[k].bitlen
    ensures (Offset(slots, k, bb) + slots[k].bitlen - 1) / 8 < length
  {
    OffsetStep(slots, k, bb);
    OffsetGrows(slots, k + 1, |slots|, bb);
  }

  /** Adjacent fields written one after the other and then read: every value comes back, and the bits below stay. */
  method WriteAndRead(ptr: array<Byte>, slots: seq<Slot>, bb: nat) returns (values: seq<int>)
    requires forall k :: 0 <= k < |slots| ==> slots[k].Valid()
    requires Offset(slots, |slots|, bb) <= 8 * ptr.Length
    modifies ptr
    ensures |values| == |slots| && forall k :: 0 <= k < |slots| ==> values[k] == slots[k].value
    ensures Low(Value(ptr[..]), bb) == old(Low(Value(ptr[..]), bb))
  {
    hide Low, Value, Field, Written, Offset, AllWritten, Slot.Valid;
    ghost var x := Value(ptr[..]);
    var at := bb;
    assert slots[0..] == slots;
    OffsetStart(slots, bb);
    for k := 0 to |slots|
      invariant at == Offset(slots, k, bb)
      invariant AllWritten(Value(ptr[..]), slots[k..], at) == AllWritten(x, slots, bb)
    {
      WrittenStep(Value(ptr[..]), slots, k, at);
      Fits(slots, k, bb, ptr.Length);
      TypeToGp(ptr, slots[k].value, slots[k].bitlen, slots[k].signed, at);
      at := at + slots[k].bitlen;
    }
    NothingLeft(Value(ptr[..]), slots[|slots|..], at);
    AllReadBack(x, slots, bb);
    values, at := [], bb;
    for k := 0 to |slots|
      invariant at == Offset(slots, k, bb) && |values| == k && Value(ptr[..]) == AllWritten(x, slots, bb)
      invariant forall i :: 0 <= i < k ==> values[i] == slots[i].value
    {
      Fits(slots, k, bb, ptr.Length);
      var v := GpToType(ptr, slots[k].bitlen, slots[k].signed, at);
      values, at := values + [v], at + slots[k].bitlen;
    }
  }
}
