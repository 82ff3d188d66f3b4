/** `ac_window_2d_flag` in clip mode with odd sizes: a window sliding over frames, fed one pixel at a time. */
module Window2d {
  import opened WindowLines
  import opened LineBuffer

  /**
   * The run of a window so far, for frames whose lines all have len pixels. Rows are counted through all frames; the
   * vertical outputs are kept per pixel written, with the row and column each belongs to.
   */
  datatype Run<T> = Run(hist: seq<seq<T>>, sofs: seq<bool>, eofs: seq<bool>,
                        rowOf: seq<nat>, colOf: seq<nat>, cols: seq<seq<T>>, sols: seq<bool>, eols: seq<bool>) {
    function N(): nat { |rowOf| }

    /** Whether a new line begins with the next pixel. */
    predicate AtStart(len: nat) { hist == [] || |hist[|hist| - 1]| == len }

    /** The frame ends of all rows; that of an unfinished row is still open. */
    function Ends(): seq<bool> {
      if |eofs| < |hist| then eofs + [false] else eofs
    }

    ghost predicate Cell(len: nat, p: nat)
      requires |rowOf| == |colOf| == |cols| == |sols| == |eols| && p < N()
    {
      && rowOf[p] < |hist| && colOf[p] < |hist[rowOf[p]]|
      && sols[p] == (colOf[p] == 0) && eols[p] == (colOf[p] == len - 1)
    }

    ghost predicate Next(len: nat, p: nat)
      requires |rowOf| == |colOf| && 0 < p < N()
    {
      if colOf[p] == 0 then rowOf[p] == rowOf[p - 1] + 1 && colOf[p - 1] == len - 1
      else rowOf[p] == rowOf[p - 1] && colOf[p] == colOf[p - 1] + 1
    }

    ghost predicate Shape(len: nat, nr: nat)
      ensures Shape(len, nr) ==> |rowOf| == |colOf| == |cols| == |sols| == |eols| && (hist == [] <==> N() == 0)
      ensures Shape(len, nr) ==> |sofs| == |hist| == |Ends()| && (hist != [] ==> sofs[0])
      ensures Shape(len, nr) ==> forall p :: 0 <= p < |cols| ==> |cols[p]| == nr
    {
      && 1 <= len
      && |rowOf| == |colOf| == |cols| == |sols| == |eols|
      && (forall r :: 0 <= r < |hist| ==> 1 <= |hist[r]| <= len && (r < |hist| - 1 ==> |hist[r]| == len))
      && |sofs| == |hist| && |eofs| == (if AtStart(len) then |hist| else |hist| - 1)
      && (hist != [] ==> sofs[0])
      && (hist == [] <==> N() == 0)
      && (N() > 0 ==> rowOf[0] == 0 && colOf[0] == 0)
      && (N() > 0 ==> rowOf[N() - 1] == |hist| - 1 && colOf[N() - 1] == |hist[|hist| - 1]| - 1)
      && (forall p :: 0 <= p < N() ==> |cols[p]| == nr)
      && (forall p :: 0 <= p < N() ==> Cell(len, p))
      && (forall p :: 0 < p < N() ==> Next(len, p))
    }

    /** The row shown dy rows from row y: rows outside the frame of y repeat its first or last row. */
    ghost function FrameRow(y: nat, dy: int): (r: int)
      requires |sofs| == |hist| == |Ends()| && y < |hist|
      ensures y + dy < |hist| ==> 0 <= r < |hist|
    {
      Clamp(y + dy, LineStart(sofs, y), LineEnd(Ends(), y))
    }

    ghost predicate UprightAt(len: nat, nr: nat, p: nat, j: nat)
      requires Shape(len, nr) && p < N() && j < nr && nr / 2 <= rowOf[p] && nr % 2 == 1
    {
      assert Cell(len, p);
      var r := FrameRow(rowOf[p] - nr / 2, j - nr / 2);
      colOf[p] < |hist[r]| && cols[p][j] == hist[r][colOf[p]]
    }

    /** The vertical outputs are right: hr rows above the pixel is the centre. */
    ghost predicate Upright(len: nat, nr: nat)
      requires Shape(len, nr)
    {
      forall p, j :: 0 <= p < N() && 0 <= j < nr && nr / 2 <= rowOf[p] && nr % 2 == 1 ==> UprightAt(len, nr, p, j)
    }

    /** One more pixel, with the vertical output it gave. */
    ghost function Step(src: T, sof: bool, eof: bool, sol: bool, eol: bool, col: seq<T>): Run<T>
      requires !sol ==> hist != [] && rowOf != [] && colOf != []
    {
      Run(Extended(hist, src, if sol then 0 else 1, true),
          if sol then sofs + [sof] else sofs,
          if eol then eofs + [eof] else eofs,
          rowOf + [if !sol then rowOf[N() - 1] else |hist|],
          colOf + [if !sol then |hist[|hist| - 1]| else 0],
          cols + [col], sols + [sol], eols + [eol])
    }
  }

  lemma CellStep<T>(s: Run<T>, len: nat, nr: nat, src: T, sof: bool, eof: bool, sol: bool, eol: bool, col: seq<T>,
                    p: nat)
    requires s.Shape(len, nr) && p <= s.N()
    requires sol == s.AtStart(len) && eol == ((if sol then 0 else |s.hist[|s.hist| - 1]|) == len - 1)
    ensures s.Step(src, sof, eof, sol, eol, col).Cell(len, p)
  {
    if p < s.N() { assert s.Cell(len, p); }
  }

  lemma NextStep<T>(s: Run<T>, len: nat, nr: nat, src: T, sof: bool, eof: bool, sol: bool, eol: bool, col: seq<T>,
                    p: nat)
    requires s.Shape(len, nr) && 0 < p <= s.N() && sol == s.AtStart(len)
    ensures s.Step(src, sof, eof, sol, eol, col).Next(len, p)
  {
    if p < s.N() { assert s.Next(len, p); }
  }

  lemma ShapeStep<T>(s: Run<T>, len: nat, nr: nat, src: T, sof: bool, eof: bool, sol: bool, eol: bool, col: seq<T>)
    requires s.Shape(len, nr) && |col| == nr
    requires sol == s.AtStart(len) && eol == ((if sol then 0 else |s.hist[|s.hist| - 1]|) == len - 1)
    requires s.hist == [] ==> sof
    ensures s.Step(src, sof, eof, sol, eol, col).Shape(len, nr)
  {
    hide Run<T>.Cell, Run<T>.Next;
    var t := s.Step(src, sof, eof, sol, eol, col);
    forall p | 0 <= p < t.N() ensures t.Cell(len, p) {
      CellStep(s, len, nr, src, sof, eof, sol, eol, col, p);
    }
    forall p | 0 < p < t.N() ensures t.Next(len, p) {
      NextStep(s, len, nr, src, sof, eof, sol, eol, col, p);
    }
  }

  lemma StartStable(starts: seq<bool>, more: seq<bool>, y: nat)
    requires y < |starts|
    ensures LineStart(starts + more, y) == LineStart(starts, y)
  {
    var a, a' := LineStart(starts, y), LineStart(starts + more, y);
    assert (starts + more)[a] == starts[a] && (starts + more)[a'] == starts[a'];
  }

  /** A line that goes on, or is seen to end, does not change what is shown of the rows seen before. */
  lemma EndStable(ends: seq<bool>, x: bool, y: nat, t: int, a: int)
    requires y < |ends| && t < |ends|
    ensures Clamp(t, a, LineEnd(ends + [x], y)) == Clamp(t, a, LineEnd(ends, y))
  {
    var z, z' := LineEnd(ends, y), LineEnd(ends + [x], y);
    assert (ends + [x])[z] == ends[z];
    if z' < |ends| { assert (ends + [x])[z'] == ends[z']; }
    assert forall q :: y <= q < |ends| ==> (ends + [x])[q] == ends[q];
  }

  lemma LastEndStable(ends: seq<bool>, x: bool, x': bool, y: nat)
    requires y <= |ends|
    ensures LineEnd(ends + [x], y) == LineEnd(ends + [x'], y)
  {
    var z, z' := LineEnd(ends + [x], y), LineEnd(ends + [x'], y);
    assert forall q :: y <= q < |ends| ==> (ends + [x])[q] == ends[q] == (ends + [x'])[q];
    if z < |ends| { assert (ends + [x'])[z]; }
    if z' < |ends| { assert (ends + [x])[z']; }
  }

  /** A step leaves what earlier pixels show. */
  lemma FrameRowStable<T>(s: Run<T>, t: Run<T>, len: nat, nr: nat, src: T, sof: bool, eof: bool, sol: bool, eol: bool,
                          col: seq<T>, y: nat, dy: int)
    requires s.Shape(len, nr) && t.Shape(len, nr) && sol == s.AtStart(len)
    requires t == s.Step(src, sof, eof, sol, eol, col)
    requires y < |s.hist| && y + dy < |s.hist|
    ensures t.FrameRow(y, dy) == s.FrameRow(y, dy)
  {
    StartStable(s.sofs, [sof], y);
    var e := s.eofs;
    if sol {
      EndStable(e, false, y, y + dy, LineStart(s.sofs, y));
      EndStable(e, eof, y, y + dy, LineStart(s.sofs, y));
    } else {
      LastEndStable(e, false, eof, y);
    }
  }

  lemma StepRows<T>(s: Run<T>, t: Run<T>, len: nat, nr: nat, src: T, sof: bool, eof: bool, sol: bool, eol: bool,
                    col: seq<T>)
    requires s.Shape(len, nr) && sol == s.AtStart(len) && t == s.Step(src, sof, eof, sol, eol, col) && t.Shape(len, nr)
    ensures t.N() == s.N() + 1 && t.rowOf[..s.N()] == s.rowOf && t.rowOf[s.N()] == |t.hist| - 1
    ensures forall p :: 0 <= p < s.N() ==> t.rowOf[p] == s.rowOf[p]
  {
  }

  lemma StepKeeps<T>(s: Run<T>, t: Run<T>, len: nat, nr: nat, src: T, sof: bool, eof: bool, sol: bool, eol: bool,
                     col: seq<T>, p: nat, r: nat)
    requires s.Shape(len, nr) && sol == s.AtStart(len) && t == s.Step(src, sof, eof, sol, eol, col)
    requires p < s.N() && r < |s.hist|
    ensures |t.rowOf| == |t.colOf| == |t.cols| == s.N() + 1 && r < |t.hist|
    ensures t.rowOf[p] == s.rowOf[p] && t.colOf[p] == s.colOf[p] && t.cols[p] == s.cols[p]
    ensures s.hist[r] <= t.hist[r]
  {
  }

  lemma UprightKept<T>(s: Run<T>, t: Run<T>, len: nat, nr: nat, src: T, sof: bool, eof: bool, sol: bool, eol: bool,
                       col: seq<T>, p: nat, j: nat)
    requires s.Shape(len, nr) && t.Shape(len, nr) && sol == s.AtStart(len)
    requires t == s.Step(src, sof, eof, sol, eol, col)
    requires p < s.N() && j < nr && nr / 2 <= s.rowOf[p] && nr % 2 == 1 && s.UprightAt(len, nr, p, j)
    ensures t.UprightAt(len, nr, p, j)
  {
    hide Run<T>.Step, Run<T>.FrameRow;
    assert s.Cell(len, p);
    var y := s.rowOf[p] - nr / 2;
    StepKeeps(s, t, len, nr, src, sof, eof, sol, eol, col, p, s.FrameRow(y, j - nr / 2));
    assert t.Cell(len, p);
    FrameRowStable(s, t, len, nr, src, sof, eof, sol, eol, col, y, j - nr / 2);
  }

  lemma UprightStep<T>(s: Run<T>, len: nat, nr: nat, src: T, sof: bool, eof: bool, sol: bool, eol: bool, col: seq<T>)
    requires s.Shape(len, nr) && s.Upright(len, nr) && |col| == nr && nr % 2 == 1
    requires sol == s.AtStart(len) && eol == ((if sol then 0 else |s.hist[|s.hist| - 1]|) == len - 1)
    requires s.hist == [] ==> sof
    requires var t := s.Step(src, sof, eof, sol, eol, col);
      t.Shape(len, nr) && (nr / 2 <= |t.hist| - 1 ==> forall j :: 0 <= j < nr ==> t.UprightAt(len, nr, s.N(), j))
    ensures s.Step(src, sof, eof, sol, eol, col).Upright(len, nr)
  {
    hide Run<T>.Step, Run<T>.Shape, Run<T>.UprightAt;
    var t := s.Step(src, sof, eof, sol, eol, col);
    StepRows(s, t, len, nr, src, sof, eof, sol, eol, col);
    forall p, j | 0 <= p < t.N() && 0 <= j < nr && nr / 2 <= t.rowOf[p] && nr % 2 == 1
      ensures t.UprightAt(len, nr, p, j)
    {
      if p < s.N() {
        UprightKept(s, t, len, nr, src, sof, eof, sol, eol, col, p, j);
      }
    }
  }

  /** The pixels of one line follow each other. */
  lemma {:induction false} LineCells<T>(s: Run<T>, len: nat, nr: nat, p: nat, q: nat)
    requires s.Shape(len, nr) && p < s.N() && LineStart(s.sols, p) <= q <= LineEnd(s.eols, p)
    ensures s.rowOf[q] == s.rowOf[p] && s.colOf[q] + p == s.colOf[p] + q
    decreases if q < p then p - q else q - p
  {
    assert s.Cell(len, p) && s.Cell(len, q);
    if q < p {
      LineCells(s, len, nr, p, q + 1);
      assert s.Cell(len, q + 1) && s.Next(len, q + 1);
    } else if q > p {
      LineCells(s, len, nr, p, q - 1);
      assert s.Cell(len, q - 1) && s.Next(len, q);
    }
  }

  /** Clipping in the stream is clipping in the line. */
  lemma ClippedCell<T>(s: Run<T>, len: nat, nr: nat, p: nat, t: int)
    requires s.Shape(len, nr) && p < s.N() && t < s.N()
    ensures var q := Clamp(t, LineStart(s.sols, p), LineEnd(s.eols, p));
      0 <= q < s.N() && s.rowOf[q] == s.rowOf[p] && s.colOf[q] == Clamp(s.colOf[p] + (t - p), 0, len - 1)
  {
    var a, z := LineStart(s.sols, p), LineEnd(s.eols, p);
    var q := Clamp(t, a, z);
    LineCells(s, len, nr, p, a);
    LineCells(s, len, nr, p, z);
    LineCells(s, len, nr, p, q);
    assert s.Cell(len, a) && s.Cell(len, z) && s.Cell(len, p);
  }

  /** The flags the vertical clipping looks at end one row earlier: the current row has not ended yet. */
  function EndsAbove(eof: seq<bool>): (ends: seq<bool>)
    requires eof != []
    ensures |ends| == |eof|
  {
    eof[1..] + [false]
  }

  /** The slot shown vertically is the row of the centre's frame. */
  lemma VerticalFrame<T>(s: Run<T>, t: Run<T>, len: nat, nr: nat, isEof: bool, isEol: bool,
                         sof: seq<bool>, eof: seq<bool>, j: nat)
    requires nr % 2 == 1 && |sof| == |eof| == nr && j < nr
    requires s.Shape(len, nr) && t.Shape(len, nr) && nr / 2 <= |t.hist| - 1
    requires FlagTail(sof, t.sofs) && FlagTail(eof, s.eofs)
    requires |s.eofs| == |t.hist| - 1 && t.eofs == if isEol then s.eofs + [isEof] else s.eofs
    ensures |t.hist| - nr + ClipSlot(sof, EndsAbove(eof), nr / 2, j) == t.FrameRow(|t.hist| - 1 - nr / 2, j - nr / 2)
  {
    hide Run<T>.Shape, FlagTail, LineStart, LineEnd, ClipSlot;
    var h, y := nr / 2, |t.hist| - 1 - nr / 2;
    FlagTailShift(eof, s.eofs, false);
    ClipSlotIs(sof, EndsAbove(eof), t.sofs, s.eofs + [false], h, j);
    LastEndStable(s.eofs, false, isEof, y);
  }

  /** Slot k of the column is the pixel nr-1-k rows above the last one. */
  ghost predicate ColumnAt<T>(t: Run<T>, len: nat, nr: nat, column: seq<T>, k: nat)
    requires t.Shape(len, nr) && t.N() > 0 && |column| == nr && k < nr && nr - k <= |t.hist|
  {
    var r, x := |t.hist| - nr + k, t.colOf[t.N() - 1];
    x < |t.hist[r]| && column[k] == t.hist[r][x]
  }

  /** Vertical clipping of the column above the pixel gives the rows of the centre's frame. */
  lemma VerticalRight<T>(s: Run<T>, t: Run<T>, len: nat, nr: nat, isEof: bool, isEol: bool,
                         column: seq<T>, sof: seq<bool>, eof: seq<bool>, j: nat)
    requires nr % 2 == 1 && |column| == |sof| == |eof| == nr && j < nr
    requires s.Shape(len, nr) && t.Shape(len, nr) && nr / 2 <= |t.hist| - 1
    requires FlagTail(sof, t.sofs) && FlagTail(eof, s.eofs)
    requires |s.eofs| == |t.hist| - 1 && t.eofs == if isEol then s.eofs + [isEof] else s.eofs
    requires t.N() > 0 && forall k :: 0 <= k < nr && nr - k <= |t.hist| ==> ColumnAt(t, len, nr, column, k)
    requires t.cols[t.N() - 1][j] == column[ClipSlot(sof, EndsAbove(eof), nr / 2, j)]
    ensures t.rowOf[t.N() - 1] == |t.hist| - 1 && t.UprightAt(len, nr, t.N() - 1, j)
  {
    hide FlagTail, ClipSlot, Run<T>.FrameRow;
    VerticalFrame(s, t, len, nr, isEof, isEol, sof, eof, j);
    var k := ClipSlot(sof, EndsAbove(eof), nr / 2, j);
    assert t.FrameRow(|t.hist| - 1 - nr / 2, j - nr / 2) >= 0;
    assert ColumnAt(t, len, nr, column, k);
  }

  /** The column is that of the rows above the last pixel, as many as there are. */
  ghost predicate ColumnShows<T>(hist: seq<seq<T>>, column: seq<T>) {
    && hist != []
    && forall r :: 0 <= r < |hist| && |hist| - |column| <= r && |hist[|hist| - 1]| <= |hist[r]|
                   && hist[|hist| - 1] != [] ==>
         column[|column| - |hist| + r] == hist[r][|hist[|hist| - 1]| - 1]
  }

  lemma NewColumn<T>(s: Run<T>, t: Run<T>, len: nat, nr: nat, isEof: bool, isEol: bool,
                     column: seq<T>, sof: seq<bool>, eof: seq<bool>, j: nat)
    requires nr % 2 == 1 && |column| == |sof| == |eof| == nr && j < nr
    requires s.Shape(len, nr) && t.Shape(len, nr) && nr / 2 <= |t.hist| - 1
    requires FlagTail(sof, t.sofs) && FlagTail(eof, s.eofs)
    requires |s.eofs| == |t.hist| - 1 && t.eofs == if isEol then s.eofs + [isEof] else s.eofs
    requires t.N() > 0 && t.colOf[t.N() - 1] == |t.hist[|t.hist| - 1]| - 1
    requires ColumnShows(t.hist, column)
    requires t.cols[t.N() - 1][j] == column[ClipSlot(sof, EndsAbove(eof), nr / 2, j)]
    ensures t.rowOf[t.N() - 1] == |t.hist| - 1 && t.UprightAt(len, nr, t.N() - 1, j)
  {
    hide FlagTail, ClipSlot, Run<T>.UprightAt;
    forall k | 0 <= k < nr && nr - k <= |t.hist| ensures ColumnAt(t, len, nr, column, k) {
      var r := |t.hist| - nr + k;
      assert |t.hist[|t.hist| - 1]| <= |t.hist[r]| && t.hist[|t.hist| - 1] != [];
    }
    VerticalRight(s, t, len, nr, isEof, isEol, column, sof, eof, j);
  }

  lemma StepEnds<T>(s: Run<T>, t: Run<T>, len: nat, nr: nat, src: T, isSof: bool, isEof: bool, isSol: bool, isEol: bool,
                    col: seq<T>)
    requires s.Shape(len, nr) && t.Shape(len, nr)
    requires isSol == s.AtStart(len) && isEol == ((if isSol then 0 else |s.hist[|s.hist| - 1]|) == len - 1)
    requires t == s.Step(src, isSof, isEof, isSol, isEol, col)
    ensures t.hist == Extended(s.hist, src, if isSol then 0 else 1, true) && t.N() == s.N() + 1 && t.cols[s.N()] == col
    ensures |s.eofs| == |t.hist| - 1 && t.eofs == if isEol then s.eofs + [isEof] else s.eofs
    ensures t.sofs == if isSol then s.sofs + [isSof] else s.sofs
    ensures |t.colOf| == |t.cols| == t.N() && 0 < |t.hist|
    ensures t.rowOf[t.N() - 1] == |t.hist| - 1 && t.colOf[t.N() - 1] == |t.hist[|t.hist| - 1]| - 1
    ensures |t.hist[|t.hist| - 1]| == (if isSol then 0 else |s.hist[|s.hist| - 1]|) + 1
  {
  }

  /** The column clipped to its frame is the step's vertical output. */
  lemma VerticalStep<T>(s: Run<T>, len: nat, nr: nat, src: T, isSof: bool, isEof: bool, isSol: bool, isEol: bool,
                        column: seq<T>, col: seq<T>, sof: seq<bool>, eof: seq<bool>)
    requires nr % 2 == 1 && |column| == |col| == |sof| == |eof| == nr
    requires s.Shape(len, nr) && s.Upright(len, nr)
    requires isSol == s.AtStart(len) && isEol == ((if isSol then 0 else |s.hist[|s.hist| - 1]|) == len - 1)
    requires s.hist == [] ==> isSof
    requires FlagTail(sof, if isSol then s.sofs + [isSof] else s.sofs) && FlagTail(eof, s.eofs)
    requires ColumnShows(Extended(s.hist, src, if isSol then 0 else 1, true), column)
    requires forall j :: 0 <= j < nr ==> col[j] == column[ClipSlot(sof, EndsAbove(eof), nr / 2, j)]
    ensures var t := s.Step(src, isSof, isEof, isSol, isEol, col);
      && t.Shape(len, nr) && t.Upright(len, nr)
      && t.hist == Extended(s.hist, src, if isSol then 0 else 1, true) && t.hist != []
      && |t.hist[|t.hist| - 1]| == (if isSol then 0 else |s.hist[|s.hist| - 1]|) + 1
      && t.sofs == (if isSol then s.sofs + [isSof] else s.sofs) && t.eofs == if isEol then s.eofs + [isEof] else s.eofs
  {
    hide Run<T>.Step, Run<T>.Upright, Run<T>.UprightAt, Run<T>.Shape;
    hide FlagTail, ColumnShows, Extended, ClipSlot, EndsAbove;
    ShapeStep(s, len, nr, src, isSof, isEof, isSol, isEol, col);
    var t := s.Step(src, isSof, isEof, isSol, isEol, col);
    StepEnds(s, t, len, nr, src, isSof, isEof, isSol, isEol, col);
    if nr / 2 <= |t.hist| - 1 {
      forall j | 0 <= j < nr ensures t.UprightAt(len, nr, s.N(), j) {
        NewColumn(s, t, len, nr, isEof, isEol, column, sof, eof, j);
      }
    }
    UprightStep(s, len, nr, src, isSof, isEof, isSol, isEol, col);
  }

  /** The vertical half of the window: the flags of the rows, the line buffer, and the column clipped to its frame. */
  class Rows<T(0)> {
    const nr: nat
    const ncol: nat
    ghost const len: nat // the length of all lines
    const vWind: Buffer2d<T>
    const sof: array<bool>
    const eof: array<bool>
    const wout: array<T>

    var addr: nat
    ghost var run: Run<T>

    ghost const Repr: set<object>

    ghost predicate Arrays() {
      && nr % 2 == 1 && 3 <= nr && 1 <= len <= ncol
      && sof.Length == eof.Length == wout.Length == nr
      && sof != eof && wout as object != sof as object && wout as object != eof as object
      && {this as object, sof, eof, wout} !! vWind.Repr
      && vWind.nrow == nr && vWind.ncol == ncol && !vWind.rewind && (vWind.lines.single ==> len % 2 == 0)
    }

    /** The column after the last pixel. */
    ghost function Column(): nat
      reads this
    {
      if run.hist == [] then 0 else |run.hist[|run.hist| - 1]|
    }

    ghost predicate Valid()
      reads this, Repr
      ensures Valid() ==> Arrays() && {this as object, sof, eof, wout} <= Repr
      ensures Valid() ==> run.Shape(len, nr) && run.Upright(len, nr) && FlagTail(sof[..], run.sofs)
    {
      && Arrays() && Repr == {this, sof, eof, wout, vWind} + vWind.Repr
      && run.Shape(len, nr) && run.Upright(len, nr)
      && FlagTail(sof[..], run.sofs) && FlagTail(eof[..], run.eofs)
      && vWind.Valid() && vWind.hist == run.hist
      && vWind.lines.next == Column() && (run.hist != [] ==> vWind.lastW)
      && (run.hist != [] ==> addr == if Column() < ncol then Column() else ncol - 1)
    }

    /** Lines of len pixels, the first of them the first of a frame. */
    ghost predicate Follows(isSof: bool, isSol: bool, isEol: bool)
      reads this
    {
      && isSol == run.AtStart(len) && isEol == ((if isSol then 0 else Column()) == len - 1)
      && (run.hist == [] ==> isSof)
    }

    lemma NothingShown()
      requires Arrays() && run == Run([], [], [], [], [], [], [], [])
      requires forall k :: 0 <= k < nr ==> !sof[k] && !eof[k]
      ensures FlagTail(sof[..], []) && FlagTail(eof[..], []) && run.Shape(len, nr) && run.Upright(len, nr)
    {
    }

    constructor (nr: nat, ncol: nat, single: bool, ghost len: nat)
      requires nr % 2 == 1 && 3 <= nr && 1 <= len <= ncol && (single ==> len % 2 == 0)
      ensures Valid() && fresh(Repr) && run.hist == []
      ensures this.nr == nr && this.ncol == ncol && this.len == len
    {
      hide Buffer2d<T>.Valid, LineBuf<T>.Valid, Run<T>.Upright, Run<T>.Shape, FlagTail;
      this.nr, this.ncol, this.len := nr, ncol, len;
      var s, e, w := new bool[nr](_ => false), new bool[nr](_ => false), new T[nr];
      var v := new Buffer2d(nr, ncol, false, single);
      sof, eof, wout, vWind, addr := s, e, w, v, 0;
      run := Run([], [], [], [], [], [], [], []);
      Repr := {this, s, e, w, v} + v.Repr;
      new;
      NothingShown();
    }

    /** In raster order the address is the column. */
    lemma RowsBelow()
      requires Valid()
      ensures run.hist != [] && !run.AtStart(len) ==> 1 <= Column() < len && addr == Column()
      ensures vWind.lines.single && run.AtStart(len) ==> vWind.lines.next % 2 == 0
    {
    }

    /** The start flag of a row, and the first column. */
    method StartRow(isSof: bool, isSol: bool)
      requires sof.Length > 0 && FlagTail(sof[..], run.sofs)
      modifies `addr, sof
      ensures FlagTail(sof[..], if isSol then run.sofs + [isSof] else run.sofs)
      ensures addr == if isSol then 0 else old(addr)
    {
      if isSol {
        FlagTailShift(sof[..], run.sofs, isSof);
        Shift(sof, isSof);
        addr := 0;
      }
    }

    /** The column in the order of the rows. */
    lemma ColumnTaken(i: nat)
      requires wout.Length == vWind.wout.Length == nr == vWind.nrow && vWind.ShowsColumn(i)
      requires forall k :: 0 <= k < nr ==> wout[k] == vWind.wout[nr - 1 - k]
      requires vWind.hist != [] && |vWind.hist[|vWind.hist| - 1]| == i + 1
      ensures ColumnShows(vWind.hist, wout[..])
    {
      var h := |vWind.hist|;
      forall r | 0 <= r < h && h - nr <= r && i < |vWind.hist[r]| ensures wout[..][nr - h + r] == vWind.hist[r][i] {
        assert vWind.Slot(h - 1 - r, h - 1 - r, i) && vWind.hist[h - 1 - (h - 1 - r)] == vWind.hist[r];
      }
    }

    /** `operator[]` of the line buffer, slot by slot: the newest row comes first there. */
    method TakeColumn()
      requires wout.Length == vWind.wout.Length == nr && wout != vWind.wout
      modifies wout
      ensures forall k :: 0 <= k < nr ==> wout[k] == vWind.wout[nr - 1 - k]
    {
      for i := 0 to nr
        invariant forall k :: 0 <= k < i ==> wout[k] == vWind.wout[nr - 1 - k]
      {
        wout[i] := vWind.wout[nr - 1 - i];
      }
    }

    /** The column above a pixel: the start flag of its row, the line buffer and its output. */
    method FetchColumn(src: T, isSof: bool, isSol: bool)
      requires Valid() && isSol == run.AtStart(len)
      modifies `addr, wout, sof, vWind, vWind.Repr
      ensures vWind.Valid() && vWind.hist == Extended(run.hist, src, if isSol then 0 else 1, true)
      ensures vWind.hist != [] && vWind.lines.next == |vWind.hist[|vWind.hist| - 1]| && vWind.lastW
      ensures addr == if vWind.lines.next < ncol then vWind.lines.next else ncol - 1
      ensures FlagTail(sof[..], if isSol then run.sofs + [isSof] else run.sofs)
      ensures ColumnShows(vWind.hist, wout[..])
    {
      hide FlagTail, Buffer2d<T>.Valid, LineBuf<T>.Valid, Run<T>.Upright, Run<T>.Shape;
      hide Buffer2d<T>.ShowsColumn, ColumnShows;
      RowsBelow();
      StartRow(isSof, isSol);
      ghost var sofNow := sof[..];
      vWind.Write(src, addr, true);
      if addr < ncol - 1 { addr := addr + 1; }
      TakeColumn();
      assert sof[..] == sofNow;
      ColumnTaken(vWind.lines.next - 1);
    }

    /** The frame flag is kept for the rows that have ended. */
    method EndRow(isEof: bool, isEol: bool)
      requires eof.Length > 0 && FlagTail(eof[..], run.eofs)
      modifies eof
      ensures FlagTail(eof[..], if isEol then run.eofs + [isEof] else run.eofs)
    {
      if isEol {
        FlagTailShift(eof[..], run.eofs, isEof);
        Shift(eof, isEof);
      }
    }

    /** The column is fetched and clipped to the centre's frame, and the end of the row noted. */
    method Write(src: T, isSof: bool, isEof: bool, isSol: bool, isEol: bool)
      requires Valid() && Follows(isSof, isSol, isEol)
      modifies Repr
      ensures Valid() && run == old(run).Step(src, isSof, isEof, isSol, isEol, wout[..])
    {
      hide FlagTail, Buffer2d<T>.Valid, LineBuf<T>.Valid, Run<T>.Upright, Run<T>.Step, Run<T>.Shape, Extended, ClipSlot;
      hide ColumnShows;
      ghost var eofNow := eof[..];
      FetchColumn(src, isSof, isSol);
      ghost var column := wout[..];
      ClipLine(wout, sof[..], EndsAbove(eof[..]), nr / 2);
      assert eof[..] == eofNow;
      VerticalStep(run, len, nr, src, isSof, isEof, isSol, isEol, column, wout[..], sof[..], eof[..]);
      EndRow(isEof, isEol);
      run := run.Step(src, isSof, isEof, isSol, isEol, wout[..]);
    }
  }

  /** A row of the register holds the last vertical outputs of that row. */
  ghost predicate RowHeld<T>(row: seq<T>, j: nat, cols: seq<seq<T>>)
    requires forall p :: 0 <= p < |cols| ==> j < |cols[p]|
  {
    forall k :: 0 <= k < |row| && |row| - k <= |cols| ==> row[k] == cols[|cols| - |row| + k][j]
  }

  lemma RowShift<T>(row: seq<T>, j: nat, cols: seq<seq<T>>, col: seq<T>)
    requires row != [] && j < |col| && (forall p :: 0 <= p < |cols| ==> j < |cols[p]|) && RowHeld(row, j, cols)
    ensures RowHeld(row[1..] + [col[j]], j, cols + [col])
  {
  }

  /** A row of the output is the row of the register, clipped to the line. */
  ghost predicate RowComplete<T>(out: seq<T>, row: seq<T>, starts: seq<bool>, ends: seq<bool>)
    requires |out| == |row| == |starts| == |ends|
  {
    forall k :: 0 <= k < |row| ==> out[k] == row[ClipSlot(starts, ends, |row| / 2, k)]
  }

  /** The centre of the window has reached the first row. */
  ghost predicate Begun<T>(run: Run<T>, nr: nat, nc: nat) {
    nc / 2 < |run.rowOf| && nr / 2 <= run.rowOf[|run.rowOf| - 1 - nc / 2]
  }

  /** v is the pixel slot (j, k) should show: of the centre's frame and line, clipped in both directions. */
  ghost predicate Shown<T>(s: Run<T>, len: nat, nr: nat, nc: nat, j: nat, k: nat, v: T) {
    var p := s.N() - 1 - nc / 2;
    && 0 <= p && |s.rowOf| == |s.colOf| && |s.sofs| == |s.hist| == |s.Ends()| && 0 <= s.rowOf[p] - nr / 2 < |s.hist|
    && var r, x := s.FrameRow(s.rowOf[p] - nr / 2, j - nr / 2), Clamp(s.colOf[p] + k - nc / 2, 0, len - 1);
       0 <= r < |s.hist| && 0 <= x < |s.hist[r]| && v == s.hist[r][x]
  }

  lemma FirstCell<T>(s: Run<T>, len: nat, nr: nat)
    requires s.Shape(len, nr) && s.N() > 0
    ensures s.sols[0]
  {
    assert s.Cell(len, 0);
  }

  lemma SlotUpright<T>(s: Run<T>, len: nat, nr: nat, nc: nat, q: nat, j: nat, k: nat)
    requires s.Shape(len, nr) && s.Upright(len, nr) && nr % 2 == 1 && q < s.N() && j < nr && Begun(s, nr, nc)
    requires var p := s.N() - 1 - nc / 2;
      s.rowOf[q] == s.rowOf[p] && s.colOf[q] == Clamp(s.colOf[p] + k - nc / 2, 0, len - 1)
    ensures Shown(s, len, nr, nc, j, k, s.cols[q][j])
  {
    assert s.Cell(len, q);
    assert s.UprightAt(len, nr, q, j);
  }

  /** The register's slot that clipping shows in slot k holds that pixel. */
  lemma SlotValue<T>(s: Run<T>, len: nat, nr: nat, nc: nat, sol: seq<bool>, eol: seq<bool>, j: nat, k: nat)
    requires s.Shape(len, nr) && s.Upright(len, nr) && nr % 2 == nc % 2 == 1 && Begun(s, nr, nc)
    requires |sol| == |eol| == nc && j < nr && k < nc && FlagTail(sol, s.sols) && FlagTail(eol, s.eols)
    ensures var q := s.N() - nc + ClipSlot(sol, eol, nc / 2, k);
      0 <= q < |s.cols| && j < |s.cols[q]| && Shown(s, len, nr, nc, j, k, s.cols[q][j])
  {
    hide Run<T>.Upright, FlagTail, LineStart, LineEnd, ClipSlot, Run<T>.Shape, Shown, Clamp, Run<T>.FrameRow;
    var p := s.N() - nc;
    var pc: nat := p + nc / 2;
    FirstCell(s, len, nr);
    ClipSlotIs(sol, eol, s.sols, s.eols, nc / 2, k);
    ClippedCell(s, len, nr, pc, p + k);
    SlotUpright(s, len, nr, nc, Clamp(p + k, LineStart(s.sols, pc), LineEnd(s.eols, pc)), j, k);
  }

  /** The flags, off, and the two-dimensional registers. */
  method Registers<T(0)>(nr: nat, nc: nat) returns (s: array<bool>, e: array<bool>, d: array<seq<T>>, w: array<seq<T>>)
    ensures fresh(s) && fresh(e) && fresh(d) && fresh(w) && s != e && d != w
    ensures s.Length == e.Length == nc && d.Length == w.Length == nr
    ensures forall k :: 0 <= k < nc ==> !s[k] && !e[k]
    ensures forall j :: 0 <= j < nr ==> |d[j]| == nc
  {
    var any := new T[nc];
    var line := any[..];
    s, e := new bool[nc](_ => false), new bool[nc](_ => false);
    d, w := new seq<T>[nr](_ => line), new seq<T>[nr](_ => line);
  }

  lemma CentreCell<T>(t: Run<T>, len: nat, nr: nat, p: nat)
    requires t.Shape(len, nr) && p < t.N()
    ensures t.rowOf[p] <= |t.hist| - 1 == t.rowOf[t.N() - 1] && t.sofs[0]
    ensures p == 0 ==> t.rowOf[p] == 0 && t.sols[p]
    ensures p > 0 ==> t.rowOf[p] == t.rowOf[p - 1] + if t.sols[p] then 1 else 0
  {
    assert t.Cell(len, p);
    if 0 < p { assert t.Next(len, p); }
  }

  /** The pixels that follow a line's first one, up to the last written, are in its line as long as it lasts. */
  lemma {:induction false} SameRow<T>(s: Run<T>, len: nat, nr: nat, p: nat, d: nat)
    requires s.Shape(len, nr) && p + d < s.N() && s.sols[p] && d < len
    ensures s.rowOf[p + d] == s.rowOf[p] && s.colOf[p + d] == d
  {
    assert s.Cell(len, p + d);
    if d > 0 {
      SameRow(s, len, nr, p, d - 1);
      assert s.Next(len, p + d);
    }
  }

  /** When the centre reaches the first row, it stands on its first pixel, and the flags at the delayed slots say so. */
  lemma RampFlags<T>(s: Run<T>, t: Run<T>, len: nat, nr: nat, nc: nat, row: nat, sofReg: seq<bool>, solReg: seq<bool>)
    requires t.Shape(len, nr) && t.rowOf == s.rowOf + [row]
    requires nr % 2 == nc % 2 == 1 && 3 <= nr && nc / 2 < len && |sofReg| == nr && |solReg| == nc
    requires FlagTail(sofReg, t.sofs) && FlagTail(solReg, t.sols)
    ensures Begun(t, nr, nc) <==> Begun(s, nr, nc) || (sofReg[nr / 2] && solReg[nc / 2])
  {
    hide Run<T>.Shape, FlagTail;
    var p := t.N() - 1 - nc / 2;
    FlagAt(sofReg, t.sofs, nr / 2);
    FlagAt(solReg, t.sols, nc / 2);
    if 0 <= p {
      CentreCell(t, len, nr, p);
      if t.sols[p] { SameRow(t, len, nr, p, nc / 2); }
    }
  }

  lemma StepFields<T>(s: Run<T>, t: Run<T>, src: T, sof: bool, eof: bool, sol: bool, eol: bool, col: seq<T>)
    returns (row: nat)
    requires (sol || (s.hist != [] && s.rowOf != [] && s.colOf != [])) && t == s.Step(src, sof, eof, sol, eol, col)
    ensures t.cols == s.cols + [col] && t.sols == s.sols + [sol] && t.eols == s.eols + [eol]
    ensures t.rowOf == s.rowOf + [row]
  {
    row := t.rowOf[|t.rowOf| - 1];
  }

  /** One row after a new sample: the samples shifted, copied and clipped. */
  method CompletedRow<T(0)>(row: seq<T>, x: T, starts: seq<bool>, ends: seq<bool>) returns (out: seq<T>)
    requires |row| == |starts| == |ends| && |row| % 2 == 1
    ensures |out| == |row| && RowComplete(out, row[1..] + [x], starts, ends)
  {
    var n := |row|;
    var line := new T[n];
    for i := 0 to n - 1
      invariant forall k :: 0 <= k < i ==> line[k] == row[k + 1]
    {
      line[i] := row[i + 1];
    }
    line[n - 1] := x;
    assert line[..] == row[1..] + [x];
    ClipLine(line, starts, ends, n / 2);
    out := line[..];
  }

  /** The whole window; a row of the two-dimensional registers is kept as a sequence. */
  class Window<T(0)> {
    const nc: nat
    const rows: Rows<T>
    const sol: array<bool>
    const eol: array<bool>
    const data: array<seq<T>>
    const woutH: array<seq<T>>

    var rampup: bool

    ghost const Repr: set<object>

    ghost predicate Arrays() {
      && nc % 2 == 1 && nc < rows.ncol
      && sol.Length == eol.Length == nc && sol != eol
      && data.Length == woutH.Length == rows.nr && data != woutH
      && {this as object, sol, eol, data, woutH} !! {rows as object} + rows.Repr
    }

    ghost predicate DataHeld(cols: seq<seq<T>>)
      requires Arrays()
      reads data
    {
      && (forall p :: 0 <= p < |cols| ==> |cols[p]| == rows.nr)
      && forall j :: 0 <= j < rows.nr ==> |data[j]| == nc && RowHeld(data[j], j, cols)
    }

    ghost predicate Valid()
      reads this, Repr, rows, rows.Repr
    {
      && Arrays() && Repr == {this, sol, eol, data, woutH, rows} + rows.Repr
      && rows.Valid()
      && FlagTail(sol[..], rows.run.sols) && FlagTail(eol[..], rows.run.eols)
      && DataHeld(rows.run.cols)
      && (nc / 2 < rows.len ==> (rampup <==> Begun(rows.run, rows.nr, nc)))
    }

    /** Slot (j, k) of the window, as `operator()(j, k)` with linear indices reads it. */
    ghost predicate Shows(j: nat, k: nat)
      requires Arrays() && j < rows.nr && k < nc
      reads this, woutH, rows
    {
      |woutH[j]| == nc && Shown(rows.run, rows.len, rows.nr, nc, j, k, woutH[j][k])
    }

    lemma NothingHeld()
      requires Arrays() && rows.Valid() && rows.run.hist == []
      requires forall k :: 0 <= k < nc ==> !sol[k] && !eol[k]
      requires forall j :: 0 <= j < rows.nr ==> |data[j]| == nc
      ensures FlagTail(sol[..], rows.run.sols) && FlagTail(eol[..], rows.run.eols)
      ensures DataHeld(rows.run.cols) && !Begun(rows.run, rows.nr, nc)
    {
    }

    constructor (nr: nat, nc: nat, ncol: nat, single: bool, ghost len: nat)
      requires nr % 2 == 1 && nc % 2 == 1 && 3 <= nr && nc < ncol && 1 <= len <= ncol
      requires single ==> len % 2 == 0
      ensures Valid() && fresh(Repr) && rows.run.hist == []
      ensures this.nc == nc && rows.nr == nr && rows.ncol == ncol && rows.len == len
    {
      hide Rows<T>.Valid, Run<T>.Shape, FlagTail, Window<T>.DataHeld, Begun;
      this.nc, rampup := nc, false;
      var s, e, d, w := Registers<T>(nr, nc);
      ghost var mine: set<object> := {s as object, e, d, w};
      assert fresh(mine);
      var v := new Rows(nr, ncol, single, len);
      sol, eol, data, woutH, rows := s, e, d, w, v;
      Repr := mine + {this, v} + v.Repr;
      new;
      NothingHeld();
    }

    /** The horizontal half of `write`: every row takes its vertical output in, and is completed at the line's ends. */
    method Horizontal(wout: array<T>, ghost cols: seq<seq<T>>)
      requires Arrays() && wout.Length == rows.nr && DataHeld(cols)
      requires wout as object != data as object && wout as object != woutH as object
      modifies data, woutH
      ensures DataHeld(cols + [wout[..]])
      ensures forall j :: 0 <= j < rows.nr ==> |woutH[j]| == nc && RowComplete(woutH[j], data[j], sol[..], eol[..])
    {
      hide RowHeld, RowComplete;
      ghost var sn, en, col := sol[..], eol[..], wout[..];
      for j := 0 to rows.nr
        invariant sol[..] == sn && eol[..] == en && wout[..] == col
        invariant forall m :: 0 <= m < rows.nr ==> |data[m]| == nc
        invariant forall m :: 0 <= m < j ==> RowHeld(data[m], m, cols + [col])
        invariant forall m :: j <= m < rows.nr ==> RowHeld(data[m], m, cols)
        invariant forall m :: 0 <= m < j ==> |woutH[m]| == nc && RowComplete(woutH[m], data[m], sn, en)
      {
        RowShift(data[j], j, cols, col);
        var line := CompletedRow(data[j], wout[j], sol[..], eol[..]);
        data[j] := data[j][1..] + [wout[j]];
        woutH[j] := line;
      }
    }

    lemma SlotShows(j: nat, k: nat)
      requires Arrays() && rows.run.Shape(rows.len, rows.nr) && rows.run.Upright(rows.len, rows.nr) && rows.nr % 2 == 1
      requires Begun(rows.run, rows.nr, nc) && DataHeld(rows.run.cols) && j < rows.nr && k < nc
      requires FlagTail(sol[..], rows.run.sols) && FlagTail(eol[..], rows.run.eols)
      requires |woutH[j]| == nc && RowComplete(woutH[j], data[j], sol[..], eol[..])
      ensures Shows(j, k)
    {
      hide Run<T>.Shape, Run<T>.Upright, FlagTail, Shown, ClipSlot, Begun;
      SlotValue(rows.run, rows.len, rows.nr, nc, sol[..], eol[..], j, k);
    }

    /** Every slot of a complete window shows what it should. */
    lemma AllShow()
      requires Arrays() && rows.run.Shape(rows.len, rows.nr) && rows.run.Upright(rows.len, rows.nr) && rows.nr % 2 == 1
      requires Begun(rows.run, rows.nr, nc) && DataHeld(rows.run.cols)
      requires FlagTail(sol[..], rows.run.sols) && FlagTail(eol[..], rows.run.eols)
      requires forall j :: 0 <= j < rows.nr ==> |woutH[j]| == nc && RowComplete(woutH[j], data[j], sol[..], eol[..])
      ensures forall j, k :: 0 <= j < rows.nr && 0 <= k < nc ==> Shows(j, k)
    {
      forall j, k | 0 <= j < rows.nr && 0 <= k < nc ensures Shows(j, k) {
        SlotShows(j, k);
      }
    }

    /** Both halves, without the ramp-up flag. */
    method Advance(src: T, isSof: bool, isEof: bool, isSol: bool, isEol: bool)
      requires Valid() && rows.Follows(isSof, isSol, isEol)
      modifies sol, eol, data, woutH, rows, rows.Repr
      ensures rows.Valid() && FlagTail(sol[..], rows.run.sols) && FlagTail(eol[..], rows.run.eols)
      ensures DataHeld(rows.run.cols)
      ensures forall j :: 0 <= j < rows.nr ==> |woutH[j]| == nc && RowComplete(woutH[j], data[j], sol[..], eol[..])
      ensures rows.run == old(rows.run).Step(src, isSof, isEof, isSol, isEol, rows.wout[..])
      ensures nc / 2 < rows.len ==>
        (Begun(rows.run, rows.nr, nc) <==> Begun(old(rows.run), rows.nr, nc) || (rows.sof[rows.nr / 2] && sol[nc / 2]))
    {
      hide Rows<T>.Valid, FlagTail, Run<T>.Shape, Run<T>.Upright, Run<T>.Step, RowHeld, RowComplete, Shown, Begun;
      ghost var s, sols, eols := rows.run, sol[..], eol[..];
      rows.Write(src, isSof, isEof, isSol, isEol);
      assert sol[..] == sols && eol[..] == eols;
      FlagTailShift(sol[..], s.sols, isSol);
      FlagTailShift(eol[..], s.eols, isEol);
      Shift(sol, isSol);
      Shift(eol, isEol);
      Horizontal(rows.wout, s.cols);
      ghost var row := StepFields(s, rows.run, src, isSof, isEof, isSol, isEol, rows.wout[..]);
      if nc / 2 < rows.len { RampFlags(s, rows.run, rows.len, rows.nr, nc, row, rows.sof[..], sol[..]); }
    }

    /**
     * `write`: once it has begun, the window shows around its centre, half a window up and to the left of the pixel
     * just written, the pixels of the centre's own frame and line; outside of them the nearest border pixel repeats.
     */
    method Write(src: T, isSof: bool, isEof: bool, isSol: bool, isEol: bool)
      requires Valid() && rows.Follows(isSof, isSol, isEol)
      modifies Repr
      ensures Valid()
      ensures rows.run == old(rows.run).Step(src, isSof, isEof, isSol, isEol, rows.wout[..])
      ensures Begun(rows.run, rows.nr, nc) ==> forall j, k :: 0 <= j < rows.nr && 0 <= k < nc ==> Shows(j, k)
    {
      hide Rows<T>.Valid, FlagTail, Run<T>.Shape, Run<T>.Upright, Run<T>.Step, RowHeld, RowComplete, Shown, Begun;
      hide Window<T>.Shows, Window<T>.DataHeld;
      Advance(src, isSof, isEof, isSol, isEol);
      rampup := rampup || (rows.sof[rows.nr / 2] && sol[nc / 2]);
      if Begun(rows.run, rows.nr, nc) { AllShow(); }
    }
  }
}
