/** `ac_window_1d_flag`: a window sliding along lines, completed at their ends by clipping or mirroring. */
module Window1d {
  import opened WindowLines

  datatype Mode = Win | Clip | Mirror | Boundary

  /** The stream position shown for position t when the centre's line runs from a to z. */
  function Shown(mode: Mode, t: int, a: int, z: int): int {
    match mode
    case Win | Boundary => t
    case Clip => Clamp(t, a, z)
    case Mirror => Reflect(t, a, z)
  }

  class Window<T(0)> {
    const n: nat
    const mode: Mode
    const data: array<T>
    const wout: array<T>
    const sol: array<bool>
    const eol: array<bool>

    var rampup: bool

    // the stream so far
    ghost var pixels: seq<T>
    ghost var sols: seq<bool>
    ghost var eols: seq<bool>

    /** The centre's delay: it is slot n / 2. */
    function Half(): int { (n - 1) / 2 }

    /** `AC_WN/2-AC_EVEN_ROW`: in an even window the slot before the centre. */
    function StartSlot(): int { n / 2 - if n % 2 == 0 then 1 else 0 }

    ghost predicate Arrays() {
      && 1 <= n && (mode == Mirror ==> n % 2 == 1)
      && data.Length == wout.Length == sol.Length == eol.Length == n
      && data != wout && sol != eol
      && data as object != sol as object && data as object != eol as object
      && wout as object != sol as object && wout as object != eol as object
    }

    /** The registers hold the end of the stream. */
    ghost predicate Held()
      requires Arrays()
      reads this, data, sol, eol
    {
      && |pixels| == |sols| == |eols|
      && Tail(data[..], pixels) && FlagTail(sol[..], sols) && FlagTail(eol[..], eols)
    }

    /** The streams the window is specified for. */
    ghost predicate Allowed(sols: seq<bool>, eols: seq<bool>) {
      Framed(sols, eols) && (mode == Mirror ==> LongLines(sols, eols, n / 2))
    }

    ghost predicate Valid()
      reads this, data, sol, eol
    {
      && Arrays() && Held() && Allowed(sols, eols)
      && (rampup <==> |pixels| > (if mode == Win then n - 1 else n / 2))
    }

    /** Slot k shows the element the mode asks for. */
    ghost predicate Shows(k: nat)
      requires Arrays() && |pixels| == |sols| == |eols| && Half() < |pixels| && k < n
      reads this`pixels, this`sols, this`eols, wout
    {
      var p := |pixels| - 1 - Half();
      var t := Shown(mode, |pixels| - n + k, LineStart(sols, p), LineEnd(eols, p));
      (0 <= t < |pixels| && wout[k] == pixels[t]) || (mode == Boundary && t < 0)
    }

    constructor (n: nat, mode: Mode)
      requires 1 <= n && (mode == Mirror ==> n % 2 == 1)
      ensures Valid() && fresh(data) && fresh(wout) && fresh(sol) && fresh(eol)
      ensures this.n == n && this.mode == mode && pixels == []
    {
      this.n, this.mode, rampup := n, mode, false;
      data := new T[n];
      wout := new T[n];
      sol := new bool[n](_ => false);
      eol := new bool[n](_ => false);
      pixels, sols, eols := [], [], [];
    }

    /** The shifts of the three registers. */
    method Push(src: T, isSol: bool, isEol: bool)
      requires Arrays() && Held()
      modifies `pixels, `sols, `eols, data, sol, eol
      ensures Held()
      ensures pixels == old(pixels) + [src] && sols == old(sols) + [isSol] && eols == old(eols) + [isEol]
    {
      hide Tail, FlagTail;
      TailShift(data[..], pixels, src);
      FlagTailShift(sol[..], sols, isSol);
      FlagTailShift(eol[..], eols, isEol);
      Shift(data, src);
      Shift(sol, isSol);
      Shift(eol, isEol);
      pixels, sols, eols := pixels + [src], sols + [isSol], eols + [isEol];
    }

    /** When the flags at the delayed slots can first be on. */
    lemma RampFlags()
      requires Arrays() && Held() && Framed(sols, eols) && pixels != []
      ensures sol[0] ==> |pixels| >= n
      ensures sol[StartSlot()] ==> |pixels| > n / 2
      ensures |pixels| == n ==> sol[0]
      ensures |pixels| == n / 2 + 1 ==> sol[StartSlot()]
    {
      FlagAt(sol[..], sols, 0);
      FlagAt(sol[..], sols, StartSlot());
    }

    lemma CopyShows()
      requires Arrays() && Held() && (mode == Win || mode == Boundary) && wout[..] == data[..]
      ensures |pixels| > (if mode == Win then n - 1 else Half()) ==> forall k :: 0 <= k < n ==> Shows(k)
    {
      assert forall k :: 0 <= k < n ==> wout[k] == wout[..][k] == data[..][k];
    }

    lemma ClippedShows()
      requires Arrays() && Held() && Framed(sols, eols) && mode == Clip
      requires forall k :: 0 <= k < n ==> wout[k] == data[..][ClipSlot(sol[..], eol[..], n / 2, k)]
      ensures |pixels| > Half() ==> forall k :: 0 <= k < n ==> Shows(k)
    {
      hide Tail, FlagTail, ClipSlot, LineStart, LineEnd;
      forall k | 0 <= k < n && |pixels| > Half() ensures Shows(k) {
        ClippedTail(data[..], pixels, sol[..], eol[..], sols, eols, n / 2, k);
      }
    }

    lemma MirroredShows(a: int, z: int)
      requires Arrays() && Held() && mode == Mirror
      requires a <= Half() <= z && Half() <= z - a
      requires forall k :: 0 <= k < n && 2 * Half() >= z ==> wout[k] == data[..][Reflect(k, a, z)]
      requires |pixels| > Half() ==> |pixels| - n + a == LineStart(sols, |pixels| - 1 - Half())
      requires |pixels| > Half() ==> |pixels| - n + z == LineEnd(eols, |pixels| - 1 - Half())
      ensures |pixels| > Half() ==> forall k :: 0 <= k < n ==> Shows(k)
    {
      hide FlagTail;
    }

    /** The slots of the centre's line ends, where they are known. */
    lemma MirrorPoints() returns (a: int, z: int)
      requires Arrays() && Held() && Allowed(sols, eols) && mode == Mirror && pixels != []
      ensures a <= Half() <= z && Half() <= z - a
      ensures forall m :: 1 <= m <= Half() ==> (sol[m] <==> m == a)
      ensures forall m :: Half() <= m < 2 * Half() ==> (eol[m] <==> m == z)
      ensures |pixels| > Half() ==> |pixels| - n + a == LineStart(sols, |pixels| - 1 - Half())
      ensures |pixels| > Half() ==> |pixels| - n + z == LineEnd(eols, |pixels| - 1 - Half())
    {
      hide Framed, LongLines, FlagTail, LineStart, LineEnd;
      if |pixels| > Half() {
        MirrorSlots(sol[..], eol[..], sols, eols, Half());
        a := LineStart(sols, |pixels| - 1 - Half()) - (|pixels| - n);
        z := LineEnd(eols, |pixels| - 1 - Half()) - (|pixels| - n);
        assert forall m :: 0 <= m < n ==> sol[m] == sol[..][m] && eol[m] == eol[..][m];
      } else {
        a, z := 0, n;
        NoFlags(sol[..], eol[..], sols, eols, Half());
        assert forall m :: 0 <= m < n ==> sol[m] == sol[..][m] && eol[m] == eol[..][m];
      }
    }

    /** Copies the samples to the window and completes it. */
    method Complete()
      requires Arrays() && Held() && Allowed(sols, eols) && pixels != []
      modifies wout
      ensures |pixels| > (if mode == Win then n - 1 else Half()) ==> forall k :: 0 <= k < n ==> Shows(k)
    {
      hide Framed, LongLines, FlagTail, Tail, LineStart, LineEnd, Shows, Clamp, Reflect;
      for i := 0 to n
        invariant forall k :: 0 <= k < i ==> wout[k] == data[k]
      {
        wout[i] := data[i];
      }
      assert wout[..] == data[..];
      if mode == Clip {
        ClipLine(wout, sol[..], eol[..], n / 2);
        ClippedShows();
      } else if mode == Mirror {
        ghost var a, z := MirrorPoints();
        MirrorLine(wout, sol[..], eol[..], n / 2, a, z);
        MirroredShows(a, z);
      } else {
        CopyShows();
      }
    }

    /**
     * `write`. Once the window is valid it shows, around the element half a window back, the elements of that element's
     * own line: clipped or reflected at the line's ends, whatever the lengths of the lines.
     */
    method Write(src: T, isSol: bool, isEol: bool)
      requires Valid() && Allowed(sols + [isSol], eols + [isEol])
      modifies this, data, wout, sol, eol
      ensures Valid()
      ensures pixels == old(pixels) + [src] && sols == old(sols) + [isSol] && eols == old(eols) + [isEol]
      ensures rampup ==> forall k :: 0 <= k < n ==> Shows(k)
    {
      hide Tail, FlagTail, Framed, LongLines, Shows;
      Push(src, isSol, isEol);
      Complete();
      RampFlags();
      rampup := rampup || (if mode == Win then sol[0] else sol[StartSlot()]);
    }

    /**
     * `readFlags`: the flags of the element at the centre, or of the oldest one when the window is shown as it is. In
     * an even window the start flag is that of the element before the centre.
     */
    method ReadFlags() returns (solOut: bool, eolOut: bool)
      requires Valid() && rampup
      ensures var p := |pixels| - n;
        var (a, z) := if mode == Win then (p, p) else (p + StartSlot(), p + n / 2);
        0 <= a < |pixels| && solOut == sols[a] && 0 <= z < |pixels| && eolOut == eols[z]
    {
      hide Framed, LongLines, Tail, FlagTail;
      FlagAt(sol[..], sols, if mode == Win then 0 else StartSlot());
      FlagAt(eol[..], eols, if mode == Win then 0 else n / 2);
      if mode == Win {
        solOut, eolOut := sol[0], eol[0];
      } else {
        solOut, eolOut := sol[StartSlot()], eol[n / 2];
      }
    }
  }
}
