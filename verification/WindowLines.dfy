/**
 * Streams of pixels with start and end flags, and the loops that complete a window at the borders of a line. Positions
 * in the stream count all pixels ever written.
 */
module WindowLines {
  /** The last start at or before p. */
  function LineStart(starts: seq<bool>, p: nat): (a: nat)
    requires p < |starts|
    ensures a <= p && (starts[a] || a == 0) && forall q :: a < q <= p ==> !starts[q]
  {
    if starts[p] || p == 0 then p else LineStart(starts, p - 1)
  }

  /** The first end at or after p, or the last position of the stream while the line is still open. */
  function LineEnd(ends: seq<bool>, p: nat): (z: nat)
    requires p < |ends|
    ensures p <= z < |ends| && (ends[z] || z == |ends| - 1) && forall q :: p <= q < z ==> !ends[q]
    decreases |ends| - p
  {
    if ends[p] || p == |ends| - 1 then p else LineEnd(ends, p + 1)
  }

  function Clamp(t: int, a: int, z: int): int {
    if t < a then a else if t > z then z else t
  }

  function Reflect(t: int, a: int, z: int): int {
    if t < a then 2 * a - t else if t > z then 2 * z - t else t
  }

  /** A shift register: everything moves down by one and x enters at the top. */
  method Shift<T>(reg: array<T>, x: T)
    requires reg.Length > 0
    modifies reg
    ensures reg[..] == old(reg[..])[1..] + [x]
  {
    ghost var o := reg[..];
    for i := 0 to reg.Length - 1
      invariant forall k :: 0 <= k < i ==> reg[k] == o[k + 1]
      invariant forall k :: i <= k < reg.Length ==> reg[k] == o[k]
    {
      reg[i] := reg[i + 1];
    }
    reg[reg.Length - 1] := x;
  }

  /** reg holds the last |reg| elements of the stream; before the stream began it holds anything. */
  ghost predicate Tail<T>(reg: seq<T>, stream: seq<T>) {
    forall k :: 0 <= k < |reg| && |reg| - k <= |stream| ==> reg[k] == stream[|stream| - |reg| + k]
  }

  /** The same for flags, which are off before the stream began. */
  ghost predicate FlagTail(reg: seq<bool>, stream: seq<bool>) {
    forall k :: 0 <= k < |reg| ==> reg[k] == (|reg| - k <= |stream| && stream[|stream| - |reg| + k])
  }

  lemma TailShift<T>(reg: seq<T>, stream: seq<T>, x: T)
    requires reg != [] && Tail(reg, stream)
    ensures Tail(reg[1..] + [x], stream + [x])
  {
    var r, s := reg[1..] + [x], stream + [x];
    forall k | 0 <= k < |r| && |r| - k <= |s| ensures r[k] == s[|s| - |r| + k] {
      if k < |r| - 1 { assert r[k] == reg[k + 1]; }
    }
  }

  lemma FlagTailShift(reg: seq<bool>, stream: seq<bool>, x: bool)
    requires reg != [] && FlagTail(reg, stream)
    ensures FlagTail(reg[1..] + [x], stream + [x])
  {
    var r, s := reg[1..] + [x], stream + [x];
    forall k | 0 <= k < |r| ensures r[k] == (|r| - k <= |s| && s[|s| - |r| + k]) {
      if k < |r| - 1 { assert r[k] == reg[k + 1]; }
    }
  }

  // ------------------------------------------------------------------ clipping

  /** Whether a line starts above slot i, up to the centre h: what the lower loop has gathered in `s` at slot i. */
  predicate StartAbove(starts: seq<bool>, h: nat, i: nat)
    requires h < |starts|
    decreases h - i
  {
    i < h && (starts[i + 1] || StartAbove(starts, h, i + 1))
  }

  /** Whether a line ends below slot i, down to the centre h: what the upper loop has gathered in `e` at slot i. */
  predicate EndBelow(ends: seq<bool>, h: nat, i: nat)
    requires i <= |ends|
  {
    i > h && (ends[i - 1] || EndBelow(ends, h, i - 1))
  }

  lemma {:induction false} StartAboveMeans(starts: seq<bool>, h: nat, i: nat)
    requires h < |starts|
    ensures StartAbove(starts, h, i) <==> exists j :: i < j <= h && starts[j]
    decreases h - i
  {
    if i < h { StartAboveMeans(starts, h, i + 1); }
  }

  /** The slot that clipping shows in slot i: towards the centre as long as the line's start or end lies between. */
  function ClipSlot(starts: seq<bool>, ends: seq<bool>, h: nat, i: nat): (m: nat)
    requires h < |starts| == |ends| && i < |starts|
    ensures m < |starts| && (h <= i ==> h <= m <= i)
    decreases if i < h then h - i else i - h
  {
    if StartAbove(starts, h, i) then ClipSlot(starts, ends, h, i + 1)
    else if EndBelow(ends, h, i) then ClipSlot(starts, ends, h, i - 1)
    else i
  }

  /** Completes the lower half of a window by repeating the line's first element; the centre is slot h. */
  method ClipLow<T>(w: array<T>, starts: seq<bool>, ends: seq<bool>, h: nat)
    requires w.Length == |starts| == |ends| && h < w.Length
    modifies w
    ensures forall k :: 0 <= k < h ==> w[k] == old(w[..])[ClipSlot(starts, ends, h, k)]
    ensures w[h..] == old(w[h..])
  {
    ghost var o := w[..];
    var s := false;
    var i := h;
    while i > 0
      invariant 0 <= i <= h
      invariant s == StartAbove(starts, h, i)
      invariant forall k :: i <= k < h ==> w[k] == o[ClipSlot(starts, ends, h, k)]
      invariant forall k :: 0 <= k < w.Length && !(i <= k < h) ==> w[k] == o[k]
    {
      i := i - 1;
      s := s || starts[i + 1];
      assert s == StartAbove(starts, h, i);
      w[i] := if s then w[i + 1] else w[i];
    }
  }

  /** Completes the upper half of a window by repeating the line's last element. */
  method ClipHigh<T>(w: array<T>, starts: seq<bool>, ends: seq<bool>, h: nat)
    requires w.Length == |starts| == |ends| && h < w.Length
    modifies w
    ensures forall k :: h < k < w.Length ==> w[k] == old(w[..])[ClipSlot(starts, ends, h, k)]
    ensures w[..h + 1] == old(w[..h + 1])
  {
    ghost var o := w[..];
    var e := false;
    for i := h + 1 to w.Length
      invariant e == EndBelow(ends, h, i - 1)
      invariant forall k :: h < k < i ==> w[k] == o[ClipSlot(starts, ends, h, k)]
      invariant forall k :: 0 <= k < w.Length && !(h < k < i) ==> w[k] == o[k]
    {
      e := e || ends[i - 1];
      assert e == EndBelow(ends, h, i);
      w[i] := if e then w[i - 1] else w[i];
    }
  }

  lemma {:induction false} StartAboveIs(reg: seq<bool>, starts: seq<bool>, h: nat, k: nat)
    requires h < |reg| <= |starts| + h && FlagTail(reg, starts) && starts[0]
    ensures StartAbove(reg, h, k) <==> |starts| - |reg| + k < LineStart(starts, |starts| - |reg| + h)
    decreases h - k
  {
    if k < h { StartAboveIs(reg, starts, h, k + 1); }
  }

  lemma {:induction false} EndBelowIs(reg: seq<bool>, ends: seq<bool>, h: nat, k: nat)
    requires h < |reg| <= |ends| + h && FlagTail(reg, ends) && k < |reg|
    ensures EndBelow(reg, h, k) <==> |ends| - |reg| + k > LineEnd(ends, |ends| - |reg| + h)
  {
    if k > h { EndBelowIs(reg, ends, h, k - 1); }
  }

  /** In terms of the stream: clipping repeats the first and the last element of the centre's line. */
  lemma {:induction false} ClipSlotIs(reg: seq<bool>, regE: seq<bool>, starts: seq<bool>, ends: seq<bool>,
                                      h: nat, k: nat)
    requires h < |reg| == |regE| <= |starts| + h && k < |reg| && |starts| == |ends| && starts[0]
    requires FlagTail(reg, starts) && FlagTail(regE, ends)
    ensures var p := |starts| - |reg|;
      p + ClipSlot(reg, regE, h, k) == Clamp(p + k, LineStart(starts, p + h), LineEnd(ends, p + h))
    decreases if k < h then h - k else k - h
  {
    var p := |starts| - |reg|;
    var a, z := LineStart(starts, p + h), LineEnd(ends, p + h);
    StartAboveIs(reg, starts, h, k);
    EndBelowIs(regE, ends, h, k);
    if StartAbove(reg, h, k) {
      ClipSlotIs(reg, regE, starts, ends, h, k + 1);
    } else if EndBelow(regE, h, k) {
      ClipSlotIs(reg, regE, starts, ends, h, k - 1);
    }
  }

  /** The clipped slot of a shift register holds the stream's pixel at the clamped position. */
  lemma ClippedTail<T>(reg: seq<T>, stream: seq<T>, sol: seq<bool>, eol: seq<bool>, starts: seq<bool>, ends: seq<bool>,
                       h: nat, k: nat)
    requires h < |reg| == |sol| == |eol| <= |stream| + h && k < |reg| && |stream| == |starts| == |ends| && starts[0]
    requires Tail(reg, stream) && FlagTail(sol, starts) && FlagTail(eol, ends)
    ensures var p := |stream| - |reg|;
      var t := Clamp(p + k, LineStart(starts, p + h), LineEnd(ends, p + h));
      0 <= t < |stream| && reg[ClipSlot(sol, eol, h, k)] == stream[t]
  {
    hide FlagTail, LineStart, LineEnd, ClipSlot;
    ClipSlotIs(sol, eol, starts, ends, h, k);
  }

  // ------------------------------------------------------------------ mirroring

  /** The slot the lower mirroring loop has in `m_` at slot i: the lowest line start between there and the centre. */
  function MirrorPoint(starts: seq<bool>, h: nat, i: nat): (m: nat)
    requires h < |starts|
    ensures StartAbove(starts, h, i) ==> i < m <= h && starts[m] && forall j :: i < j < m ==> !starts[j]
    decreases h - i
  {
    if i >= h then 0 else if starts[i + 1] then i + 1 else MirrorPoint(starts, h, i + 1)
  }

  /**
   * In a window of even size the loop reads behind the window exactly when a line starts at the centre and none below.
   */
  lemma EvenMirrorReadsBehind(starts: seq<bool>, h: nat)
    requires 1 <= h && |starts| == 2 * h
    ensures (exists i: nat :: i < h && StartAbove(starts, h, i) && 2 * MirrorPoint(starts, h, i) - i >= |starts|)
      <==> starts[h] && forall j :: 1 <= j < h ==> !starts[j]
  {
    StartAboveMeans(starts, h, 0);
    if starts[h] && forall j :: 1 <= j < h ==> !starts[j] {
      assert StartAbove(starts, h, 0) && MirrorPoint(starts, h, 0) == h;
    }
  }

  /** The lower loop: s tells whether the line's start has been passed on the way out, m where. */
  method MirrorLow<T>(w: array<T>, starts: seq<bool>, h: nat, ghost a: int) returns (m: nat)
    requires w.Length == |starts| == 2 * h + 1 && a <= h
    requires forall j :: 1 <= j <= h ==> (starts[j] <==> j == a)
    modifies w
    ensures forall k :: 0 <= k < w.Length ==> w[k] == old(w[..])[if k < a then 2 * a - k else k]
  {
    ghost var o := w[..];
    var s;
    s, m := false, 0;
    var i := h;
    while i > 0
      invariant 0 <= i <= h
      invariant s == (i < a) && (s ==> m == a)
      invariant forall k :: i <= k < w.Length ==> w[k] == o[if k < a then 2 * a - k else k]
      invariant forall k :: 0 <= k < i ==> w[k] == o[k]
    {
      i := i - 1;
      s := s || starts[i + 1];
      if starts[i + 1] { m := i + 1; }
      w[i] := if s then w[m * 2 - i] else w[i];
    }
  }

  /** The upper loop, with m as the lower one left it. */
  method MirrorHigh<T>(w: array<T>, ends: seq<bool>, h: nat, ghost z: int, m0: nat)
    requires w.Length == |ends| == 2 * h + 1 && h <= z
    requires forall j :: h <= j < 2 * h ==> (ends[j] <==> j == z)
    modifies w
    ensures forall k :: 0 <= k < w.Length ==> w[k] == old(w[..])[if k > z then 2 * z - k else k]
  {
    ghost var low := w[..];
    var e, m := false, m0;
    for j := h + 1 to w.Length
      invariant e == (z < j - 1) && (e ==> m == z)
      invariant forall k :: 0 <= k < j ==> w[k] == low[if k > z then 2 * z - k else k]
      invariant forall k :: j <= k < w.Length ==> w[k] == low[k]
    {
      e := e || ends[j - 1];
      if ends[j - 1] { m := j - 1; }
      w[j] := if e then w[m * 2 - j] else w[j];
    }
  }

  /**
   * Completes a window by reflection in the line's first and last elements. a and z are the slots of the line's start
   * and end, which may lie outside; the line is at least half a window long.
   */
  method MirrorLine<T>(w: array<T>, starts: seq<bool>, ends: seq<bool>, h: nat, ghost a: int, ghost z: int)
    requires w.Length == |starts| == |ends| == 2 * h + 1
    requires a <= h <= z && h <= z - a
    requires forall m :: 1 <= m <= h ==> (starts[m] <==> m == a)
    requires forall m :: h <= m < 2 * h ==> (ends[m] <==> m == z)
    modifies w
    ensures forall k :: 0 <= k < w.Length && 2 * h >= z ==> w[k] == old(w[..])[Reflect(k, a, z)]
    ensures forall k :: 0 <= k < w.Length && 2 * h < z ==> w[k] == old(w[..])[Reflect(k, a, 2 * h)]
  {
    ghost var o := w[..];
    var m := MirrorLow(w, starts, h, a);
    ghost var low := w[..];
    MirrorHigh(w, ends, h, z, m);
    forall k | 0 <= k < w.Length && 2 * h >= z ensures w[k] == o[Reflect(k, a, z)] {
      assert w[k] == low[if k > z then 2 * z - k else k];
    }
  }

  /** Both clipping loops. */
  method ClipLine<T>(w: array<T>, starts: seq<bool>, ends: seq<bool>, h: nat)
    requires w.Length == |starts| == |ends| && h < w.Length
    modifies w
    ensures forall k :: 0 <= k < w.Length ==> w[k] == old(w[..])[ClipSlot(starts, ends, h, k)]
  {
    ghost var o := w[..];
    ClipLow(w, starts, ends, h);
    assert forall k :: h <= k < w.Length ==> w[k] == w[h..][k - h] == o[h..][k - h] == o[k];
    ghost var low := w[..];
    ClipHigh(w, starts, ends, h);
    assert forall k :: 0 <= k <= h ==> w[k] == w[..h + 1][k] == low[..h + 1][k] == low[k];
  }

  /** Every line begins right after the one before has ended. */
  ghost predicate Framed(starts: seq<bool>, ends: seq<bool>) {
    && |starts| == |ends|
    && (starts != [] ==> starts[0])
    && forall t :: 0 < t < |starts| ==> starts[t] == ends[t - 1]
  }

  /** Finished lines have more than h elements. */
  ghost predicate LongLines(starts: seq<bool>, ends: seq<bool>, h: nat) {
    && |starts| == |ends|
    && forall q :: 0 <= q < |ends| && ends[q] ==> q - LineStart(starts, q) >= h
  }

  lemma FlagAt(reg: seq<bool>, stream: seq<bool>, m: nat)
    requires FlagTail(reg, stream) && m < |reg|
    ensures reg[m] == (|reg| - m <= |stream| && stream[|stream| - |reg| + m])
  {
  }

  /** The last element of a line has the same start as any other. */
  lemma {:induction false} SameLine(starts: seq<bool>, ends: seq<bool>, p: nat)
    requires Framed(starts, ends) && p < |starts|
    ensures LineStart(starts, LineEnd(ends, p)) == LineStart(starts, p)
    decreases |ends| - p
  {
    if !ends[p] && p < |ends| - 1 {
      SameLine(starts, ends, p + 1);
    }
  }

  /** The line of an element reaches half a window from its start, unless it is still open. */
  lemma WholeLine(starts: seq<bool>, ends: seq<bool>, h: nat, p: nat)
    requires Framed(starts, ends) && LongLines(starts, ends, h) && p + h == |starts| - 1
    ensures LineEnd(ends, p) - LineStart(starts, p) >= h
  {
    SameLine(starts, ends, p);
  }

  lemma OneStart(starts: seq<bool>, ends: seq<bool>, h: nat, p: nat, q: nat)
    requires Framed(starts, ends) && LongLines(starts, ends, h) && p < |starts| && p - h < q <= p
    ensures starts[q] <==> q == LineStart(starts, p)
  {
    var a := LineStart(starts, p);
    if a > 0 {
      var b := LineStart(starts, a - 1);
      assert ends[a - 1] && a - 1 - b >= h;
    }
  }

  lemma OneEnd(starts: seq<bool>, ends: seq<bool>, h: nat, p: nat, q: nat)
    requires Framed(starts, ends) && LongLines(starts, ends, h) && p <= q < |starts| - 1 && q < p + h
    ensures ends[q] <==> q == LineEnd(ends, p)
  {
    var z := LineEnd(ends, p);
    if z < q {
      assert starts[z + 1];
      assert LineStart(starts, q) >= z + 1;
    }
  }

  /** In such a stream a window meets at most one start below its centre and one end above. */
  lemma MirrorSlots(reg: seq<bool>, regE: seq<bool>, starts: seq<bool>, ends: seq<bool>, h: nat)
    requires |reg| == |regE| == 2 * h + 1 <= |starts| + h && |starts| == |ends|
    requires FlagTail(reg, starts) && FlagTail(regE, ends) && Framed(starts, ends) && LongLines(starts, ends, h)
    ensures var p := |starts| - |reg|;
      var a, z := LineStart(starts, p + h) - p, LineEnd(ends, p + h) - p;
      && a <= h <= z <= 2 * h && h <= z - a
      && (forall m :: 1 <= m <= h ==> (reg[m] <==> m == a))
      && (forall m :: h <= m < 2 * h ==> (regE[m] <==> m == z))
  {
    hide FlagTail, Framed, LongLines;
    var p := |starts| - |reg|;
    var a, z := LineStart(starts, p + h) - p, LineEnd(ends, p + h) - p;
    WholeLine(starts, ends, h, p + h);
    forall m | 1 <= m <= h ensures reg[m] <==> m == a {
      FlagAt(reg, starts, m);
      if p + m >= 0 { OneStart(starts, ends, h, p + h, p + m); }
    }
    forall m | h <= m < 2 * h ensures regE[m] <==> m == z {
      FlagAt(regE, ends, m);
      OneEnd(starts, ends, h, p + h, p + m);
    }
  }

  /** A stream shorter than half a window has no flag where mirroring looks. */
  lemma NoFlags(reg: seq<bool>, regE: seq<bool>, starts: seq<bool>, ends: seq<bool>, h: nat)
    requires |reg| == |regE| == 2 * h + 1 && |starts| <= h
    requires FlagTail(reg, starts) && FlagTail(regE, ends) && Framed(starts, ends) && LongLines(starts, ends, h)
    ensures forall m :: 1 <= m <= h ==> !reg[m]
    ensures forall m :: h <= m < 2 * h ==> !regE[m]
  {
  }
}
