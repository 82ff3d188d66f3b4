/** `ac_linebuf` and `ac_buffer_2d`: circular row memories that give a column of the last rows at every write. */
module LineBuffer {
  import opened Arith

  /** The words hold the row, except for a written pixel that waits for its neighbour. */
  ghost predicate PackedAs<T>(ws: seq<(T, T)>, tmpIn: (T, T), tmpOut: (T, T), row: seq<T>, next: nat, waits: bool)
    requires |row| == 2 * |ws| && next <= |row|
  {
    && (forall a :: 0 <= a < |ws| ==> row[2 * a + 1] == ws[a].1)
    && (forall a :: 0 <= a < |ws| ==> row[2 * a] == if waits && 2 * a + 1 == next then tmpIn.0 else ws[a].0)
    && (next % 2 == 1 ==> tmpOut == ws[next / 2])
  }

  /** One access to a packed row: the words, the pixel waiting and the word read, and what they hold then. */
  lemma PackedNext<T>(ws: seq<(T, T)>, tmpIn: (T, T), tmpOut: (T, T), row: seq<T>, next: nat, waits: bool,
                      din: T, addr: nat, w: bool)
    requires |row| == 2 * |ws| && next <= |row| && addr < |row| && PackedAs(ws, tmpIn, tmpOut, row, next, waits)
    requires if addr % 2 == 1 then next == addr && waits == w else next % 2 == 0
    ensures var inNow := if !w then tmpIn else if addr % 2 == 1 then (tmpIn.0, din) else (din, tmpIn.1);
      var outNow := if addr % 2 == 0 then ws[addr / 2] else tmpOut;
      && row[addr] == (if addr % 2 == 1 then outNow.1 else outNow.0)
      && PackedAs(if addr % 2 == 1 && w then ws[addr / 2 := inNow] else ws, inNow, outNow,
                  if w then row[addr := din] else row, addr + 1, w)
  {
    var p := addr / 2;
    assert row[2 * p + 1] == ws[p].1;
    assert row[2 * p] == if waits && 2 * p + 1 == next then tmpIn.0 else ws[p].0;
    if addr % 2 == 1 {
      assert addr == 2 * p + 1;
    } else {
      assert addr == 2 * p;
    }
  }

  /** The waiting pixel is given up when the next line begins: the row is what the words hold. */
  lemma PackedDrop<T>(ws: seq<(T, T)>, tmpIn: (T, T), tmpOut: (T, T), row: seq<T>, next: nat, waits: bool)
    requires |row| == 2 * |ws| && next <= |row| && next % 2 == 1 && PackedAs(ws, tmpIn, tmpOut, row, next, waits)
    ensures PackedAs(ws, tmpIn, tmpOut, if waits then row[next - 1 := ws[next / 2].0] else row, 0, false)
  {
    assert next - 1 == 2 * (next / 2);
  }

  lemma PackedStart<T>(ws: seq<(T, T)>, tmpIn: (T, T), tmpOut: (T, T), row: seq<T>, next: nat, waits: bool)
    requires |row| == 2 * |ws| && next <= |row| && next % 2 == 0 && PackedAs(ws, tmpIn, tmpOut, row, next, waits)
    ensures PackedAs(ws, tmpIn, tmpOut, row, 0, false)
  {
  }

  /**
   * The row memories. In single-port mode two neighbouring pixels share a word, which is read on even and written on
   * odd accesses; `contents` is what the memories hold once the pending pixel is counted as written.
   */
  class LineBuf<T(0)> {
    const rows: nat
    const ncol: nat
    const single: bool
    const cells: array2<T>
    const words: array2<(T, T)>
    const tmpIn: array<(T, T)>
    const tmpOut: array<(T, T)>

    var cnt: nat
    ghost var contents: seq<seq<T>>
    ghost var next: nat           // the address that continues the scan
    ghost var pending: seq<bool>  // the rows written by the last access

    ghost const Repr: set<object>

    ghost predicate Arrays() {
      && cells.Length0 == rows && cells.Length1 == ncol
      && words.Length0 == rows && words.Length1 == (ncol + 1) / 2
      && tmpIn.Length == tmpOut.Length == rows && tmpIn != tmpOut
      && cells as object != words as object
    }

    /** The pixels a row memory has room for: an odd row takes a whole word more in single-port mode. */
    ghost function Width(): nat {
      if single then 2 * ((ncol + 1) / 2) else ncol
    }

    ghost predicate Plain(j: nat, row: seq<T>)
      requires Arrays() && j < rows && |row| == ncol
      reads cells
    {
      forall x :: 0 <= x < ncol ==> row[x] == cells[j, x]
    }

    /** The words of row j. */
    ghost function WordsOf(j: nat): (ws: seq<(T, T)>)
      requires Arrays() && j < rows
      reads words
      ensures |ws| == (ncol + 1) / 2 && forall a :: 0 <= a < |ws| ==> ws[a] == words[j, a]
    {
      seq((ncol + 1) / 2, a requires 0 <= a < (ncol + 1) / 2 && Arrays() && j < rows reads words => words[j, a])
    }

    /** Row j is held by its words and its two registers. */
    ghost predicate Packed(j: nat, row: seq<T>, next: nat, waits: bool)
      requires Arrays() && j < rows && |row| == 2 * ((ncol + 1) / 2) && next <= ncol
      reads words, tmpIn, tmpOut
    {
      PackedAs(WordsOf(j), tmpIn[j], tmpOut[j], row, next, waits)
    }

    ghost predicate Valid()
      reads this, Repr
      ensures Valid() ==>
        && Arrays() && |contents| == |pending| == rows && next <= ncol
        && forall j :: 0 <= j < rows ==> |contents[j]| == Width()
    {
      && Arrays()
      && Repr == {this, cells, words, tmpIn, tmpOut}
      && |contents| == |pending| == rows && next <= ncol
      && (forall j :: 0 <= j < rows ==> |contents[j]| == Width())
      && (if single then
            && cnt == next % 2
            && forall j :: 0 <= j < rows ==> Packed(j, contents[j], next, pending[j])
          else forall j :: 0 <= j < rows ==> Plain(j, contents[j]))
    }

    /** Row j without the pixel that waits: what its words hold. */
    ghost function DroppedRow(j: nat): (row: seq<T>)
      requires Arrays() && j < rows && |contents| == |pending| == rows && |contents[j]| == Width() && next <= ncol
      reads this, words
      ensures |row| == Width()
    {
      if single && next % 2 == 1 && pending[j] then contents[j][next - 1 := words[j, next / 2].0] else contents[j]
    }

    ghost function DroppedRows(): (c: seq<seq<T>>)
      requires Valid()
      reads this, Repr
      ensures |c| == rows && forall j :: 0 <= j < rows ==> c[j] == DroppedRow(j)
    {
      seq(rows, j requires 0 <= j < rows && Valid() reads this, Repr => DroppedRow(j))
    }

    /** What a pass that begins at this address finds: a line that begins gives the waiting pixels up. */
    ghost function Found(addr: nat): (c: seq<seq<T>>)
      requires Valid()
      reads this, Repr
      ensures |c| == rows && forall j :: 0 <= j < rows ==> |c[j]| == Width()
    {
      if addr == 0 then DroppedRows() else contents
    }

    /** The contents of the memories as they come. */
    ghost function Initial(): (c: seq<seq<T>>)
      requires Arrays()
      reads cells, words
      ensures |c| == rows && forall j :: 0 <= j < rows ==> |c[j]| == Width() && forall x :: 0 <= x < Width() ==>
        c[j][x] == if !single then cells[j, x] else if x % 2 == 0 then words[j, x / 2].0 else words[j, x / 2].1
    {
      seq(rows, j requires 0 <= j < rows && Arrays() reads cells, words =>
        seq(Width(), x requires 0 <= x < Width() && 0 <= j < rows && Arrays() reads cells, words =>
          if !single then cells[j, x] else if x % 2 == 0 then words[j, x / 2].0 else words[j, x / 2].1))
    }

    lemma InitialRows(c: seq<seq<T>>)
      requires Arrays() && c == Initial()
      ensures forall j :: 0 <= j < rows ==> |c[j]| == Width()
      ensures single ==> forall j :: 0 <= j < rows ==> Packed(j, c[j], 0, false)
      ensures !single ==> forall j :: 0 <= j < rows ==> Plain(j, c[j])
    {
      forall j | 0 <= j < rows ensures if single then Packed(j, c[j], 0, false) else Plain(j, c[j]) {
        var row := c[j];
        if single {
          forall a | 0 <= a < (ncol + 1) / 2 ensures row[2 * a + 1] == words[j, a].1 && row[2 * a] == words[j, a].0 {
            assert (2 * a) / 2 == a && (2 * a + 1) / 2 == a && (2 * a) % 2 == 0 && (2 * a + 1) % 2 == 1;
          }
        }
      }
    }

    constructor (rows: nat, ncol: nat, single: bool)
      ensures Valid() && fresh(Repr) && this.rows == rows && this.ncol == ncol && this.single == single
      ensures next == 0
    {
      hide Packed, Plain, Initial;
      this.rows, this.ncol, this.single, cnt, next := rows, ncol, single, 0, 0;
      var c, w := new T[rows, ncol], new (T, T)[rows, (ncol + 1) / 2];
      var i, o := new (T, T)[rows], new (T, T)[rows];
      cells, words, tmpIn, tmpOut := c, w, i, o;
      Repr := {this, c, w, i, o};
      pending := seq(rows, _ => false);
      new;
      contents := Initial();
      InitialRows(contents);
      assert forall j :: 0 <= j < rows ==> !pending[j];
    }

    /** What a scan may do next: go on, or start a line; the pixels of a word are written to the same rows. */
    ghost predicate Continues(addr: nat, w: seq<bool>)
      reads this
    {
      single ==> addr == 0 || (addr == next && (next % 2 == 1 ==> w == pending))
    }

    ghost function Written(c: seq<seq<T>>, din: T, addr: nat, w: seq<bool>): (r: seq<seq<T>>)
      requires |c| == |w| && forall j :: 0 <= j < |c| ==> addr < |c[j]|
      ensures |r| == |c| && forall j :: 0 <= j < |c| ==> r[j] == if w[j] then c[j][addr := din] else c[j]
    {
      seq(|c|, j requires 0 <= j < |c| => if w[j] then c[j][addr := din] else c[j])
    }

    method AccessPlain(din: T, addr: nat, w: seq<bool>, dout: array<T>)
      requires Arrays() && addr < ncol && |w| == rows
      requires dout.Length == rows && dout as object !in {tmpIn as object, tmpOut, cells, words}
      requires |contents| == rows && forall j :: 0 <= j < rows ==> |contents[j]| == ncol && Plain(j, contents[j])
      modifies cells, dout
      ensures forall j :: 0 <= j < rows ==> dout[j] == contents[j][addr]
      ensures forall j :: 0 <= j < rows ==> Plain(j, if w[j] then contents[j][addr := din] else contents[j])
    {
      var j := rows;
      while j > 0
        invariant 0 <= j <= rows
        invariant forall k :: j <= k < rows ==> dout[k] == contents[k][addr]
        invariant forall k :: j <= k < rows ==> Plain(k, if w[k] then contents[k][addr := din] else contents[k])
        invariant forall k :: 0 <= k < j ==> Plain(k, contents[k])
      {
        j := j - 1;
        dout[j] := cells[j, addr];
        if w[j] { cells[j, addr] := din; }
      }
    }

    /** One row's part of a single-port access: reads a word on even addresses, writes one on odd addresses. */
    method PackedStep(j: nat, din: T, addr: nat, w: bool, ghost row: seq<T>, ghost next0: nat, ghost waits: bool)
      returns (dout: T)
      requires Arrays() && j < rows && addr < ncol && |row| == 2 * ((ncol + 1) / 2) && next0 <= ncol
      requires cnt == addr % 2 && Packed(j, row, next0, waits)
      requires if addr % 2 == 1 then next0 == addr && waits == w else next0 % 2 == 0
      modifies words, tmpIn, tmpOut
      ensures dout == row[addr]
      ensures Packed(j, if w then row[addr := din] else row, addr + 1, w)
      ensures addr % 2 == 0 ==> words[j, addr / 2].0 == row[addr]
      ensures ncol % 2 == 1 ==> words[j, ncol / 2] == old(words[j, ncol / 2])
      ensures forall k :: 0 <= k < rows && k != j ==> tmpIn[k] == old(tmpIn[k]) && tmpOut[k] == old(tmpOut[k])
      ensures forall k :: 0 <= k < rows && k != j ==> WordsOf(k) == old(WordsOf(k))
    {
      var p := addr / 2;
      hide PackedAs;
      ghost var ws, before, out := WordsOf(j), tmpIn[j], tmpOut[j];
      if w {
        tmpIn[j] := if cnt == 1 then (tmpIn[j].0, din) else (din, tmpIn[j].1); // set_half
      }
      if cnt % 2 == 0 {
        tmpOut[j] := words[j, addr / 2];
      } else if w {
        words[j, addr / 2] := tmpIn[j];
      }
      dout := if cnt == 1 then tmpOut[j].1 else tmpOut[j].0; // get_half
      assert WordsOf(j) == if cnt == 1 && w then ws[p := tmpIn[j]] else ws;
      PackedNext(ws, before, out, row, next0, waits, din, addr, w);
      assert cnt == 0 ==> ws[p] == words[j, p];
    }

    method AccessPacked(din: T, addr: nat, w: seq<bool>, dout: array<T>)
      requires Arrays() && addr < ncol && |w| == rows
      requires dout.Length == rows && dout as object !in {tmpIn as object, tmpOut, cells, words}
      requires single && next <= ncol && cnt == addr % 2 && |contents| == |pending| == rows && addr < Width()
      requires addr % 2 == 1 ==> next == addr && pending == w
      requires addr % 2 == 0 ==> next % 2 == 0
      requires forall j :: 0 <= j < rows ==> |contents[j]| == Width() && Packed(j, contents[j], next, pending[j])
      modifies words, tmpIn, tmpOut, dout
      ensures forall j :: 0 <= j < rows ==> dout[j] == contents[j][addr]
      ensures forall j :: 0 <= j < rows ==>
        Packed(j, if w[j] then contents[j][addr := din] else contents[j], addr + 1, w[j])
      ensures addr % 2 == 0 ==> forall j :: 0 <= j < rows ==> words[j, addr / 2].0 == contents[j][addr]
      ensures ncol % 2 == 1 ==> forall j :: 0 <= j < rows ==> words[j, ncol / 2] == old(words[j, ncol / 2])
    {
      hide PackedAs;
      var j := rows;
      while j > 0
        invariant 0 <= j <= rows
        invariant forall k :: j <= k < rows ==> dout[k] == contents[k][addr]
        invariant forall k :: j <= k < rows ==>
          Packed(k, if w[k] then contents[k][addr := din] else contents[k], addr + 1, w[k])
        invariant forall k :: 0 <= k < j ==> Packed(k, contents[k], next, pending[k])
        invariant addr % 2 == 0 ==> forall k :: j <= k < rows ==> WordsOf(k)[addr / 2].0 == contents[k][addr]
        invariant ncol % 2 == 1 ==> forall k :: 0 <= k < rows ==>
          WordsOf(k)[ncol / 2] == words[k, ncol / 2] == old(words[k, ncol / 2])
      {
        j := j - 1;
        dout[j] := PackedStep(j, din, addr, w[j], contents[j], next, pending[j]);
      }
    }

    /** A line begins in single-port mode. */
    ghost method Begin()
      requires Valid() && single
      modifies `contents, `next, `pending
      ensures Arrays() && contents == old(DroppedRows()) && next == 0 && |contents| == |pending| == rows
      ensures forall j :: 0 <= j < rows ==> |contents[j]| == Width() && Packed(j, contents[j], 0, pending[j])
    {
      hide PackedAs;
      ghost var dropped := DroppedRows();
      forall j | 0 <= j < rows ensures Packed(j, dropped[j], 0, false) {
        if next % 2 == 1 {
          PackedDrop(WordsOf(j), tmpIn[j], tmpOut[j], contents[j], next, pending[j]);
        } else {
          PackedStart(WordsOf(j), tmpIn[j], tmpOut[j], contents[j], next, pending[j]);
        }
      }
      contents, next, pending := dropped, 0, seq(rows, _ => false);
    }

    /** After an even address the words still hold the rows that were found. */
    lemma StillFound(c: seq<seq<T>>, din: T, addr: nat, w: seq<bool>)
      requires Valid() && single && addr % 2 == 0 && addr < Width() && next == addr + 1 && pending == w
      requires |c| == rows && (forall j :: 0 <= j < rows ==> |c[j]| == Width()) && contents == Written(c, din, addr, w)
      requires forall j :: 0 <= j < rows ==> words[j, addr / 2].0 == c[j][addr]
      ensures DroppedRows() == c
    {
      hide LineBuf<T>.Valid, Packed;
      forall j | 0 <= j < rows ensures DroppedRow(j) == c[j] {
        if w[j] { assert c[j][addr := din][addr := c[j][addr]] == c[j]; }
      }
    }

    /** `access` in single-port mode. */
    method AccessSingle(din: T, addr: nat, w: seq<bool>, dout: array<T>)
      requires Valid() && single && addr < ncol && |w| == rows && Continues(addr, w)
      requires dout.Length == rows && dout !in Repr
      modifies this, words, tmpIn, tmpOut, dout
      ensures Valid() && next == addr + 1 && pending == w
      ensures forall j :: 0 <= j < rows ==> dout[j] == old(Found(addr))[j][addr]
      ensures contents == Written(old(Found(addr)), din, addr, w)
      ensures addr % 2 == 0 ==> DroppedRows() == old(Found(addr))
      ensures ncol % 2 == 1 ==> forall j :: 0 <= j < rows ==>
        && words[j, ncol / 2] == old(words[j, ncol / 2])
        && (addr == ncol - 1 ==> dout[j] == words[j, ncol / 2].0)
    {
      hide LineBuf<T>.Packed, LineBuf<T>.Plain, LineBuf<T>.DroppedRows, LineBuf<T>.Written, LineBuf<T>.WordsOf;
      hide PackedAs, LineBuf<T>.DroppedRow;
      ghost var found := Found(addr);
      if addr == 0 {
        Begin();
        cnt := 0;
      }
      AccessPacked(din, addr, w, dout);
      cnt := (cnt + 1) % 2;
      contents := Written(found, din, addr, w);
      next, pending := addr + 1, w;
      if addr % 2 == 0 { StillFound(found, din, addr, w); }
    }

    lemma NothingDropped()
      requires Valid() && !single
      ensures DroppedRows() == contents
    {
    }

    /**
     * `access`: reads a column and writes din to the rows w, by the same contract in both modes. In single-port mode
     * the pixel at an even address waits for its neighbour, and a line that begins finds the rows without it: the last
     * word of an odd row is never written.
     */
    method Access(din: T, addr: nat, w: seq<bool>) returns (dout: array<T>)
      requires Valid() && addr < ncol && |w| == rows && Continues(addr, w)
      modifies Repr
      ensures Valid() && next == addr + 1 && pending == w
      ensures fresh(dout) && dout.Length == rows
      ensures forall j :: 0 <= j < rows ==> dout[j] == old(Found(addr))[j][addr]
      ensures contents == Written(old(Found(addr)), din, addr, w)
      ensures single && addr % 2 == 0 ==> DroppedRows() == old(Found(addr))
      ensures single && ncol % 2 == 1 ==> forall j :: 0 <= j < rows ==>
        && words[j, ncol / 2] == old(words[j, ncol / 2])
        && (addr == ncol - 1 ==> dout[j] == words[j, ncol / 2].0)
    {
      hide LineBuf<T>.Packed, LineBuf<T>.Plain, LineBuf<T>.DroppedRows, LineBuf<T>.Written;
      dout := new T[rows];
      if single {
        AccessSingle(din, addr, w, dout);
      } else {
        NothingDropped();
        AccessPlain(din, addr, w, dout);
        contents := Written(contents, din, addr, w);
        next, pending := addr + 1, w;
      }
    }
  }

  /** 2^`log2_ceil<n>`: how many values an `ac_int` with room for n values has. */
  function Room(n: nat): (p: nat)
    ensures n <= p && 1 <= p
  {
    if n <= 1 then 1 else 2 * Room((n + 1) / 2)
  }

  /** Stepping back by at most k rows in a ring of k. */
  lemma RingBack(n: int, ring: nat, k: nat)
    requires 1 <= ring && k <= ring
    ensures (n - k) % ring == n % ring - k + if n % ring < k then ring else 0
  {
    var r := n % ring - k + if n % ring < k then ring else 0;
    DivModEq(n, ring);
    var q := n / ring - if n % ring < k then 1 else 0;
    assert q * ring == (n / ring) * ring - if n % ring < k then ring else 0;
    DivModUnique(n - k, ring, q, r);
  }

  lemma RingStart(ring: nat)
    requires 1 <= ring
    ensures -1 % ring == ring - 1
  {
    DivModUnique(-1, ring, -1, ring - 1);
  }

  lemma WithinRoom(x: nat, room: nat)
    requires x <= room && 1 <= room
    ensures x % room == if x == room then 0 else x
  {
    DivModUnique(x, room, if x == room then 1 else 0, if x == room then 0 else x);
  }

  lemma RingForth(n: int, ring: nat)
    requires 1 <= ring
    ensures (n + 1) % ring == if n % ring + 1 == ring then 0 else n % ring + 1
  {
    RingBack(n + 1, ring, 1);
  }

  /** Two rows of one pixel in single-port mode: above the second there is what the memory held at the beginning. */
  method OddRowLost<T(0)>(x: T, y: T) returns (above: T, atFirst: T)
    ensures above == atFirst
  {
    var l := new LineBuf<T>(1, 1, true);
    atFirst := l.words[0, 0].0;
    var column := l.Access(x, 0, [true]);
    column := l.Access(y, 0, [true]);
    above := column[0];
  }

  /**
   * The pixels the ring still holds: the last rows, and of the one before them what the current row has not replaced.
   */
  ghost predicate Reach<T>(ring: nat, hist: seq<seq<T>>, r: int, x: int) {
    && 0 <= r < |hist| && |hist| - 1 - ring <= r && 0 <= x < |hist[r]|
    && (r == |hist| - 1 - ring ==> |hist[|hist| - 1]| <= x)
  }

  ghost predicate Stored<T>(ring: nat, hist: seq<seq<T>>, mem: seq<seq<T>>) {
    && 1 <= ring == |mem|
    && forall r, x :: Reach(ring, hist, r, x) ==> x < |mem[r % ring]| && mem[r % ring][x] == hist[r][x]
  }

  lemma NothingStored<T>(ring: nat, mem: seq<seq<T>>)
    requires 1 <= ring == |mem|
    ensures Stored(ring, [], mem)
  {
  }

  /** Writing a pixel to the selected memory keeps that, when a row begins and when it goes on. */
  lemma StoredBegin<T>(ring: nat, hist: seq<seq<T>>, mem: seq<seq<T>>, mem': seq<seq<T>>, src: T)
    requires Stored(ring, hist, mem) && |mem'| == ring
    requires forall j :: 0 <= j < ring ==>
      |mem[j]| > 0 && mem'[j] == if j == |hist| % ring then mem[j][0 := src] else mem[j]
    ensures Stored(ring, hist + [[src]], mem')
  {
    var n, h := |hist|, hist + [[src]];
    forall r, x | Reach(ring, h, r, x) ensures x < |mem'[r % ring]| && mem'[r % ring][x] == h[r][x] {
      if r < n {
        RingBack(n, ring, n - r);
        assert h[r] == hist[r];
        assert Reach(ring, hist, r, x);
      }
    }
  }

  /** A row may begin without a pixel. */
  lemma StoredEmpty<T>(ring: nat, hist: seq<seq<T>>, mem: seq<seq<T>>)
    requires Stored(ring, hist, mem)
    ensures Stored(ring, hist + [[]], mem)
  {
    var h := hist + [[]];
    forall r, x | Reach(ring, h, r, x) ensures x < |mem[r % ring]| && mem[r % ring][x] == h[r][x] {
      assert h[r] == hist[r] && Reach(ring, hist, r, x);
    }
  }

  lemma StoredGoOn<T>(ring: nat, hist: seq<seq<T>>, mem: seq<seq<T>>, mem': seq<seq<T>>, src: T, i: nat)
    requires Stored(ring, hist, mem) && |mem'| == ring && hist != [] && i == |hist[|hist| - 1]|
    requires forall j :: 0 <= j < ring ==> |mem[j]| > i
    requires forall j :: 0 <= j < ring ==> mem'[j] == if j == (|hist| - 1) % ring then mem[j][i := src] else mem[j]
    ensures Stored(ring, hist[|hist| - 1 := hist[|hist| - 1] + [src]], mem')
  {
    var n := |hist|;
    var h := hist[n - 1 := hist[n - 1] + [src]];
    forall r, x | Reach(ring, h, r, x) ensures x < |mem'[r % ring]| && mem'[r % ring][x] == h[r][x] {
      RingBack(n - 1, ring, n - 1 - r);
      if r < n - 1 {
        assert h[r] == hist[r];
        assert Reach(ring, hist, r, x);
      } else if x < i {
        assert Reach(ring, hist, r, x);
      }
    }
  }

  /** Where the memories hold the pixel k rows up: in the ring, k steps back from the selected one. */
  function StepsBack(ring: nat, sel: nat, k: nat): int {
    sel - k + if sel < k then ring else 0
  }

  lemma StepsBackRange(ring: nat, sel: nat, k: nat)
    requires sel < ring && k <= ring
    ensures 0 <= StepsBack(ring, sel, k) < ring
    ensures StepsBack(ring, sel, k) == sel <==> k == 0 || k == ring
  {
  }

  lemma RowsUp<T>(ring: nat, hist: seq<seq<T>>, mem: seq<seq<T>>, k: nat, x: nat)
    requires Stored(ring, hist, mem) && k < |hist| && k <= ring && x < |hist[|hist| - 1 - k]|
    requires k == ring ==> |hist[|hist| - 1]| <= x
    ensures var j := (|hist| - 1 - k) % ring;
      0 <= j < ring && x < |mem[j]| && mem[j][x] == hist[|hist| - 1 - k][x]
  {
    assert Reach(ring, hist, |hist| - 1 - k, x);
  }

  /** The history after one write in raster order. */
  ghost function Extended<T>(hist: seq<seq<T>>, src: T, i: nat, w: bool): seq<seq<T>>
    requires w && i != 0 ==> hist != []
  {
    if !w then hist
    else if i == 0 then hist + [[src]]
    else hist[|hist| - 1 := hist[|hist| - 1] + [src]]
  }

  /** What the memories hold before a write is the column of the rows above the pixel written. */
  lemma ColumnAbove<T>(ring: nat, hist: seq<seq<T>>, mem: seq<seq<T>>, src: T, i: nat, w: bool, k: nat)
    requires Stored(ring, hist, mem) && (w ==> i == 0 || (hist != [] && i == |hist[|hist| - 1]|))
    requires var h := Extended(hist, src, i, w);
      k < |h| && i < |h[|h| - 1 - k]| && (if w then 1 <= k <= ring else k < ring)
    ensures var h := Extended(hist, src, i, w);
      var j := StepsBack(ring, (|h| - 1) % ring, k);
      0 <= j < ring && i < |mem[j]| && mem[j][i] == h[|h| - 1 - k][i]
  {
    var h := Extended(hist, src, i, w);
    RingBack(|h| - 1, ring, k);
    RowsUp(ring, hist, mem, if w && i == 0 then k - 1 else k, i);
  }

  /** The history without the last pixel of the last row. */
  ghost function Shortened<T>(hist: seq<seq<T>>): (h: seq<seq<T>>)
    requires hist != [] && hist[|hist| - 1] != []
    ensures |h| == |hist| && forall r :: 0 <= r < |h| ==> |h[r]| <= |hist[r]|
  {
    hist[|hist| - 1 := hist[|hist| - 1][..|hist[|hist| - 1]| - 1]]
  }

  lemma ExtendedNot<T>(hist: seq<seq<T>>, src: T, i: nat)
    ensures Extended(hist, src, i, false) == hist
  {
  }

  lemma ShortenedExtended<T>(hist: seq<seq<T>>, src: T, i: nat)
    requires i != 0 ==> hist != []
    ensures var h := Extended(hist, src, i, true); h != [] && h[|h| - 1] != []
    ensures Shortened(Extended(hist, src, i, true)) == if i == 0 then hist + [[]] else hist
  {
    var h := Extended(hist, src, i, true);
    assert h[|h| - 1][..|h[|h| - 1]| - 1] == if i == 0 then [] else hist[|hist| - 1];
  }

  /** `ac_buffer_2d`: the rows above a pixel, from a ring of row memories. */
  class Buffer2d<T(0)> {
    const nrow: nat
    const ncol: nat
    const rewind: bool
    const lines: LineBuf<T>
    const b: array<T>
    const t: array<T>
    const wout: array<T>

    var sel: nat
    ghost var hist: seq<seq<T>>  // all rows as far as they are kept; the last one may be unfinished
    ghost var lastW: bool

    /** The number of row memories. */
    function Ring(): int { nrow - 1 + if rewind then 1 else 0 }

    ghost const Repr: set<object>

    /** The rows to write: the selected one, if w. */
    ghost function Mask(w: bool): (m: seq<bool>)
      requires 1 <= Ring()
      reads `sel
      ensures |m| == Ring() && forall j :: 0 <= j < Ring() ==> m[j] == (w && j == sel)
    {
      var at := sel;
      seq(Ring(), j => w && j == at)
    }

    /**
     * What a pass that begins at column i finds of the history: in single-port mode a row of odd length loses its last
     * pixel when the next pass begins.
     */
    ghost function Kept(i: nat): (h: seq<seq<T>>)
      requires lastW ==> hist != [] && hist[|hist| - 1] != []
      reads this, lines
      ensures |h| == |hist| && forall r :: 0 <= r < |h| ==> |h[r]| <= |hist[r]|
      ensures i != 0 || !lines.single || lines.next % 2 == 0 ==> h == hist
    {
      if lines.single && i == 0 && lastW && lines.next % 2 == 1 then Shortened(hist) else hist
    }

    ghost predicate Valid()
      reads this, Repr
      ensures Valid() ==> wout.Length == nrow && {this as object, wout, lines} <= Repr
      ensures Valid() ==> (lastW ==> hist != [] && |hist[|hist| - 1]| == lines.next > 0)
    {
      && Repr == {this, b, t, wout, lines} + lines.Repr
      && 2 <= nrow && b.Length == t.Length == wout.Length == nrow
      && b != t && t != wout && b != wout
      && {this as object, b, t, wout} !! lines.Repr
      && lines.Valid() && lines.rows == Ring() && lines.ncol == ncol
      && sel == (|hist| - 1) % Ring()
      && (forall r :: 0 <= r < |hist| ==> |hist[r]| <= ncol)
      && (lastW ==> hist != [] && |hist[|hist| - 1]| == lines.next > 0)
      && Stored(Ring(), hist, lines.contents) && Stored(Ring(), Kept(0), lines.DroppedRows())
      && (lines.next % 2 == 1 ==> lines.pending == Mask(lastW))
    }

    constructor (nrow: nat, ncol: nat, rewind: bool, single: bool)
      requires 2 <= nrow
      ensures Valid() && fresh(Repr) && hist == [] && lines.next == 0
      ensures this.nrow == nrow && this.ncol == ncol && this.rewind == rewind && lines.single == single
    {
      hide LineBuf<T>.Valid, Stored;
      this.nrow, this.ncol, this.rewind := nrow, ncol, rewind;
      var ring: nat := nrow - 1 + if rewind then 1 else 0;
      var bb, tt, ww := new T[nrow], new T[nrow], new T[nrow];
      var l := new LineBuf(ring, ncol, single);
      b, t, wout, lines := bb, tt, ww, l;
      sel, hist, lastW := ring - 1, [], false;
      Repr := {this, bb, tt, ww, l} + l.Repr;
      new;
      RingStart(ring);
      NothingStored<T>(ring, lines.contents);
      NothingStored<T>(ring, lines.DroppedRows());
    }

    /** Rows are written from column 0 on; a pass that does not write may read any column. */
    ghost predicate InOrder(i: nat, w: bool)
      reads this
    {
      i < ncol && (w ==> i == 0 || (hist != [] && i == |hist[|hist| - 1]|))
    }

    /** In single-port mode every pass, writing or not, goes from column to column. */
    ghost predicate Scan(i: nat, w: bool)
      reads this, lines
    {
      lines.single ==> i == 0 || (i == lines.next && (i % 2 == 1 ==> w == lastW))
    }

    /** Slot k of the output is the pixel of column i so many rows up, as far as that row reaches. */
    ghost predicate Slot(k: nat, up: nat, i: nat)
      requires wout.Length == nrow && k < nrow
      reads this, wout
    {
      up < |hist| && i < |hist[|hist| - 1 - up]| ==> wout[k] == hist[|hist| - 1 - up][i]
    }

    /** How many rows up slot k shows: without a memory for the current row, a pass that reads shows that row last. */
    function Above(w: bool, k: nat): nat {
      if !w && !rewind && k == nrow - 1 then 0 else k
    }

    /** Slot k of the output is the pixel k rows up. */
    ghost predicate ShowsColumn(i: nat)
      requires wout.Length == nrow
      reads this, wout
    {
      forall k :: 0 <= k < nrow ==> Slot(k, k, i)
    }

    /** The next row's memory is selected when a row begins. */
    method Select(i: nat, w: bool)
      requires 2 <= nrow && sel < Ring()
      modifies `sel
      ensures sel == if i == 0 && w then (if old(sel) + 1 == Ring() then 0 else old(sel) + 1) else old(sel)
    {
      WithinRoom(sel + 1, Room(nrow));
      if i == 0 && w { sel := (sel + 1) % Room(nrow); }
      if sel == Ring() { sel := 0; }
    }

    /** Without a memory for the current row: the other rows go to slots 1 and up. */
    method ArrangeRows(tTmp: array<T>)
      requires 2 <= nrow && sel < nrow - 1 == tTmp.Length && b.Length == nrow && tTmp != b
      modifies b
      ensures forall k :: 1 <= k < nrow ==> b[k] == tTmp[StepsBack(nrow - 1, sel, k)]
    {
      for j := 0 to nrow - 1
        invariant forall k :: 1 <= k < nrow && StepsBack(nrow - 1, sel, k) < j ==>
          b[k] == tTmp[StepsBack(nrow - 1, sel, k)]
      {
        var sel1 := sel - j;
        if sel1 <= 0 { sel1 := sel1 + nrow - 1; }
        b[sel1] := tTmp[j];
      }
      forall k | 1 <= k < nrow ensures b[k] == tTmp[StepsBack(nrow - 1, sel, k)] {
        StepsBackRange(nrow - 1, sel, k);
      }
    }

    /** With one for every row. */
    method ArrangeAll()
      requires sel < nrow == t.Length == b.Length && t != b
      modifies b
      ensures forall k :: 0 <= k < nrow ==> b[k] == t[StepsBack(nrow, sel, k)]
    {
      for j := 0 to nrow
        invariant forall k :: 0 <= k < nrow && StepsBack(nrow, sel, k) < j ==> b[k] == t[StepsBack(nrow, sel, k)]
      {
        var sel1 := sel - j;
        if sel1 < 0 { sel1 := sel1 + nrow; }
        b[sel1] := t[j];
      }
      forall k | 0 <= k < nrow ensures b[k] == t[StepsBack(nrow, sel, k)] {
        StepsBackRange(nrow, sel, k);
      }
    }

    /** Puts the column read from the memories in the order of the rows. */
    method Arrange(tTmp: array<T>, src: T, w: bool)
      requires 2 <= nrow && sel < Ring() && tTmp.Length == Ring()
      requires b.Length == t.Length == wout.Length == nrow && b != t && t != wout && b != wout
      requires tTmp != b && tTmp != t && tTmp != wout
      modifies b, t, wout
      ensures forall k :: 1 <= k < nrow ==> wout[k] == tTmp[StepsBack(Ring(), sel, k)]
      ensures wout[0] == if w then src else if rewind then tTmp[sel] else old(t[nrow - 1])
    {
      for j := 0 to Ring()
        invariant forall k :: 0 <= k < j ==> t[k] == tTmp[k]
        invariant forall k :: j <= k < nrow ==> t[k] == old(t[k])
      {
        t[j] := tTmp[j];
      }
      if !rewind {
        ArrangeRows(tTmp);
        b[0] := if w then src else t[nrow - 1];
      } else {
        if w { t[sel] := src; }
        ArrangeAll();
        forall k | 0 <= k < nrow ensures b[k] == if k == 0 && w then src else tTmp[StepsBack(nrow, sel, k)] {
          StepsBackRange(nrow, sel, k);
        }
      }
      ghost var slots := b[..];
      for j := 0 to nrow
        invariant b[..] == slots
        invariant forall k :: 0 <= k < j ==> wout[k] == slots[k]
      {
        wout[j] := b[j];
      }
    }

    /** The history and the memories after one write. */
    lemma StoredNow(hist0: seq<seq<T>>, mem: seq<seq<T>>, src: T, i: nat, w: bool)
      requires 2 <= nrow && Stored(Ring(), hist0, mem) && sel == (|hist| - 1) % Ring()
      requires lines.rows == Ring() && lines.Valid() && |lines.contents| == |mem|
      requires forall j :: 0 <= j < |mem| ==> |mem[j]| > i
      requires forall j :: 0 <= j < |mem| ==> lines.contents[j] == if w && j == sel then mem[j][i := src] else mem[j]
      requires w ==> i == 0 || (hist0 != [] && i == |hist0[|hist0| - 1]|)
      requires hist == Extended(hist0, src, i, w)
      ensures Stored(Ring(), hist, lines.contents)
    {
      hide Stored;
      if !w {
        assert lines.contents == mem;
      } else if i == 0 {
        StoredBegin(Ring(), hist0, mem, lines.contents, src);
      } else {
        StoredGoOn(Ring(), hist0, mem, lines.contents, src, i);
      }
    }

    /** The same without the pixel that waits for its neighbour. */
    lemma DroppedNow(hist0: seq<seq<T>>, mem: seq<seq<T>>, src: T, i: nat, w: bool)
      requires 2 <= nrow && Stored(Ring(), hist0, mem) && Stored(Ring(), hist, lines.contents)
      requires lines.rows == Ring() && lines.Valid() && |mem| == Ring() && lines.next == i + 1 && lastW == w
      requires lines.single && i % 2 == 0 ==> lines.DroppedRows() == mem
      requires w && i != 0 ==> hist0 != []
      requires hist == Extended(hist0, src, i, w)
      ensures lastW ==> hist != [] && hist[|hist| - 1] != []
      ensures Stored(Ring(), Kept(0), lines.DroppedRows())
    {
      hide Stored, Shortened, Extended, LineBuf<T>.Valid;
      if w { ShortenedExtended(hist0, src, i); }
      if lines.single && i % 2 == 0 {
        if w && i == 0 { StoredEmpty(Ring(), hist0, mem); }
        ExtendedNot(hist0, src, i);
      } else {
        assert lines.DroppedRows() == lines.contents;
      }
    }

    /** The memories' part of a write: the row of the pixel is selected, and the column of its predecessors read. */
    method AccessRows(src: T, i: nat, w: bool) returns (tTmp: array<T>)
      requires Valid() && InOrder(i, w) && Scan(i, w)
      modifies `sel, lines.Repr
      ensures sel < Ring() && sel == (|hist| - 1 + if w && i == 0 then 1 else 0) % Ring()
      ensures lines.Valid() && lines.next == i + 1 && lines.pending == Mask(w)
      ensures lines.contents == lines.Written(old(lines.Found(i)), src, i, Mask(w))
      ensures lines.single && i % 2 == 0 ==> lines.DroppedRows() == old(lines.Found(i))
      ensures fresh(tTmp) && tTmp.Length == Ring()
      ensures forall j :: 0 <= j < Ring() ==> tTmp[j] == old(lines.Found(i))[j][i]
    {
      hide Stored, LineBuf<T>.Valid, LineBuf<T>.Written, LineBuf<T>.DroppedRows, LineBuf<T>.Found, Room, Kept;
      RingForth(|hist| - 1, Ring());
      Select(i, w);
      var at := sel;
      var s := seq(Ring(), j => w && j == at);
      assert s == Mask(w);
      tTmp := lines.Access(src, i, s);
    }

    /** That, and the history it makes. */
    method Advance(src: T, i: nat, w: bool) returns (tTmp: array<T>, ghost mem: seq<seq<T>>)
      requires Valid() && InOrder(i, w) && Scan(i, w)
      modifies `sel, `hist, `lastW, lines.Repr
      ensures Valid() && hist == Extended(old(Kept(i)), src, i, w) && lines.next == i + 1 && lastW == w
      ensures Stored(Ring(), old(Kept(i)), mem)
      ensures fresh(tTmp) && tTmp.Length == Ring() == |mem|
      ensures forall j :: 0 <= j < Ring() ==> i < |mem[j]| && tTmp[j] == mem[j][i]
    {
      hide Stored, LineBuf<T>.Valid, LineBuf<T>.DroppedRows, Shortened;
      mem := lines.Found(i);
      ghost var hist0 := Kept(i);
      tTmp := AccessRows(src, i, w);
      hist, lastW := Extended(hist0, src, i, w), w;
      StoredNow(hist0, mem, src, i, w);
      DroppedNow(hist0, mem, src, i, w);
    }

    /** One slot of the output, from the memories before the write. */
    lemma SlotShows(hist0: seq<seq<T>>, mem: seq<seq<T>>, src: T, i: nat, w: bool, k: nat, up: nat)
      requires 2 <= nrow == wout.Length && k < nrow && Stored(Ring(), hist0, mem)
      requires w ==> i == 0 || (hist0 != [] && i == |hist0[|hist0| - 1]|)
      requires hist == Extended(hist0, src, i, w) && sel < Ring() && (hist != [] ==> sel == (|hist| - 1) % Ring())
      requires (k != 0 || w || rewind) && up == Above(w, k)
      requires if k == 0 && w then wout[0] == src else (
        var j := StepsBack(Ring(), sel, k);
        0 <= j < |mem| && i < |mem[j]| && wout[k] == mem[j][i])
      ensures Slot(k, up, i)
    {
      if up < |hist| && i < |hist[|hist| - 1 - up]| && !(k == 0 && w) {
        hide Stored, Extended;
        ColumnAbove(Ring(), hist0, mem, src, i, w, up);
      }
    }

    /**
     * `write`: after it, slot k of the output is the pixel k rows above column i, in a writing pass and in one that
     * only reads the rows again, where a buffer without a memory for the current row shows that row in the last slot.
     */
    method Write(src: T, i: nat, w: bool)
      requires Valid() && InOrder(i, w) && Scan(i, w)
      modifies Repr
      ensures Valid() && hist == Extended(old(Kept(i)), src, i, w) && lines.next == i + 1 && lastW == w
      ensures w || rewind ==> ShowsColumn(i)
      ensures forall k :: 0 <= k < nrow && (k != 0 || w || rewind) ==> Slot(k, Above(w, k), i)
    {
      hide Stored, LineBuf<T>.Valid, StepsBack, Kept, Extended, Slot, LineBuf<T>.DroppedRows, LineBuf<T>.Found;
      ghost var hist0 := Kept(i);
      var tTmp, mem := Advance(src, i, w);
      ghost var column := tTmp[..];
      Arrange(tTmp, src, w);
      forall k: nat | k < nrow && (k != 0 || w || rewind)
        ensures Slot(k, Above(w, k), i)
      {
        StepsBackRange(Ring(), sel, k);
        assert !(k == 0 && w) ==> column[StepsBack(Ring(), sel, k)] == mem[StepsBack(Ring(), sel, k)][i];
        SlotShows(hist0, mem, src, i, w, k, Above(w, k));
      }
      if w || rewind {
        forall k: nat | k < nrow ensures Slot(k, k, i) { assert Above(w, k) == k; }
      }
    }
  }
}
