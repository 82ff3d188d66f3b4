/** Programs over copy-on-write arrays behave as programs over values. */
module CowPrograms {
  import opened CowArray

  /** One statement: constructions append an array to the live ones, i and j are positions among them. */
  datatype Op<!T> =
    | New(x: T) | NewFrom(vals: seq<T>) | Copy(i: nat) | Destroy(i: nat)
    | Assign(i: nat, j: nat) | SetAll(i: nat, x: T) | SetFrom(i: nat, vals: seq<T>)
    | Mask(i: nat, f: T -> T) | Write(i: nat, k: nat, v: T) | Read(i: nat, k: nat)
    | SetLower(i: nat, bound: int) | SetUpper(i: nat, bound: int) | Compare(i: nat, j: nat)

  /**
   * An array as a value: its elements, whether it was given them as one common value and not written since, and the
   * bounds of the elements that are compared, negative for none.
   */
  datatype Arr<T> = Arr(elems: seq<T>, uniform: bool, lower: int, upper: int) {
    /** The elements within the bounds are those of the other array. */
    ghost predicate Agrees(other: Arr<T>)
      requires |elems| == |other.elems|
    {
      forall k :: 0 <= k < |elems| && (lower < 0 || lower <= k) && (upper < 0 || k <= upper) ==>
        elems[k] == other.elems[k]
    }

    /** Two uniform arrays are compared by their common values, even when the bounds leave nothing to compare. */
    ghost predicate Same(other: Arr<T>)
      requires |elems| == |other.elems| > 0
    {
      if uniform && other.uniform then elems[0] == other.elems[0] else Agrees(other)
    }
  }

  /** What a statement can show. */
  datatype Shown<T> = Element(x: T) | Comparison(same: bool)

  ghost predicate Sized<T>(s: seq<Arr<T>>, size: nat) {
    forall i :: 0 <= i < |s| ==> |s[i].elems| == size
  }

  /** Positions in range, and fewer than INT_MAX arrays alive at any time. */
  ghost predicate Applies<T(!new)>(s: seq<Arr<T>>, size: nat, op: Op<T>) {
    && |s| < INT_MAX
    && match op
       case New(x) => true
       case NewFrom(vals) => |vals| == size
       case Copy(i) => i < |s|
       case Destroy(i) => i < |s|
       case Assign(i, j) => i < |s| && j < |s|
       case SetAll(i, x) => i < |s|
       case SetFrom(i, vals) => i < |s| && |vals| == size
       case Mask(i, f) => i < |s|
       case Write(i, k, v) => i < |s| && k < size
       case Read(i, k) => i < |s| && k < size
       case SetLower(i, b) => i < |s|
       case SetUpper(i, b) => i < |s|
       case Compare(i, j) => i < |s| && j < |s| && 0 < size && s[i].lower < size && s[i].upper < size
  }

  /** A statement that gives an array another value. */
  predicate Changes<T(!new)>(op: Op<T>) {
    op.Assign? || op.SetAll? || op.SetFrom? || op.Mask? || op.Write? || op.SetLower? || op.SetUpper?
  }

  /** The array it takes the value from. */
  function Other<T(!new)>(op: Op<T>): nat
    requires Changes(op)
  {
    if op.Assign? then op.j else op.i
  }

  /** The value it gives; b is the one assigned from. */
  ghost function Changed<T(!new)>(a: Arr<T>, b: Arr<T>, op: Op<T>): Arr<T>
    requires Changes(op) && (op.Write? ==> op.k < |a.elems|)
  {
    match op
    case Assign(i, j) => b
    case SetAll(i, x) => a.(elems := Repeated(x, |a.elems|), uniform := true)
    case SetFrom(i, vals) => a.(elems := vals, uniform := false)
    case Mask(i, f) => a.(elems := Mapped(f, a.elems))
    case Write(i, k, v) => a.(elems := a.elems[k := v], uniform := false)
    case SetLower(i, bound) => a.(lower := bound)
    case SetUpper(i, bound) => a.(upper := bound)
  }

  /** The statement on values: every array is a value of its own. */
  ghost function Exec<T(!new)>(s: seq<Arr<T>>, size: nat, op: Op<T>): (r: seq<Arr<T>>)
    requires Applies(s, size, op) && Sized(s, size)
    ensures Sized(r, size)
  {
    match op
    case New(x) => s + [Arr(Repeated(x, size), true, -1, -1)]
    case NewFrom(vals) => s + [Arr(vals, false, -1, -1)]
    case Copy(i) => s + [s[i]]
    case Destroy(i) => s[..i] + s[i + 1..]
    case Read(i, k) => s
    case Compare(i, j) => s
    case _ => s[op.i := Changed(s[op.i], s[Other(op)], op)]
  }

  /** What the statement shows of the values. */
  ghost function Seen<T(!new)>(s: seq<Arr<T>>, size: nat, op: Op<T>): seq<Shown<T>>
    requires Applies(s, size, op) && Sized(s, size)
  {
    if op.Read? then [Element(s[op.i].elems[op.k])]
    else if op.Compare? then [Comparison(s[op.i].Same(s[op.j]))]
    else []
  }

  /** The handle stands for this value. */
  ghost predicate Stands<T(0)>(h: Handle<T>, a: Arr<T>)
    reads h, h.p, if h.p != null then {h.p.val} else {}
  {
    h.Contents() == a.elems && (h.p == null <==> a.uniform) && h.lower == a.lower && h.upper == a.upper
  }

  /** The handles are exactly the live ones, each once, and show these values. */
  ghost predicate Holds<T(0, !new)>(g: Store<T>, hs: seq<Handle<T>>, s: seq<Arr<T>>)
    reads g, g.handles, g.datas, set d | d in g.datas :: d.val
  {
    && g.Valid()
    && |hs| == |s| && (forall i :: 0 <= i < |hs| ==> hs[i] in g.handles)
    && (forall h :: h in g.handles ==> h in hs)
    && (forall i, j :: 0 <= i < j < |hs| ==> hs[i] != hs[j])
    && Sized(s, g.size) && forall i :: 0 <= i < |hs| ==> Stands(hs[i], s[i])
  }

  /** What the statements that change no array, or take one away, do. */
  lemma Outcome<T(!new)>(s: seq<Arr<T>>, size: nat, op: Op<T>)
    requires Applies(s, size, op) && Sized(s, size)
    ensures |s| < INT_MAX
    ensures op.Destroy? ==> op.i < |s| && Exec(s, size, op) == s[..op.i] + s[op.i + 1..]
    ensures op.Read? ==>
      op.i < |s| && op.k < size && Exec(s, size, op) == s && Seen(s, size, op) == [Element(s[op.i].elems[op.k])]
    ensures op.Compare? ==>
      && op.i < |s| && op.j < |s| && 0 < size && s[op.i].lower < size && s[op.i].upper < size
      && Exec(s, size, op) == s && Seen(s, size, op) == [Comparison(s[op.i].Same(s[op.j]))]
    ensures !op.Read? && !op.Compare? ==> Seen(s, size, op) == []
  {
  }

  lemma Appended<T(0, !new)>(g: Store<T>, hs: seq<Handle<T>>, s: seq<Arr<T>>, h: Handle<T>, a: Arr<T>)
    requires g.Valid() && |hs| == |s| && h in g.handles && |a.elems| == g.size && Stands(h, a)
    requires forall x :: x in g.handles ==> x in hs || x == h
    requires forall i, j :: 0 <= i < j < |hs| ==> hs[i] != hs[j]
    requires Sized(s, g.size) && forall i :: 0 <= i < |hs| ==> hs[i] in g.handles && hs[i] != h && Stands(hs[i], s[i])
    ensures Holds(g, hs + [h], s + [a])
  {
    hide Store<T>.Counted, Stands;
  }

  lemma WithoutAt<T>(s: seq<T>, i: nat)
    requires i < |s|
    ensures var r := s[..i] + s[i + 1..];
      |r| == |s| - 1 && forall k :: 0 <= k < |r| ==> r[k] == s[if k < i then k else k + 1]
  {
  }

  lemma Removed<T(0, !new)>(g: Store<T>, hs: seq<Handle<T>>, s: seq<Arr<T>>, i: nat)
    requires g.Valid() && |hs| == |s| && i < |hs|
    requires forall x :: x in g.handles <==> x in hs && x != hs[i]
    requires forall j, k :: 0 <= j < k < |hs| ==> hs[j] != hs[k]
    requires Sized(s, g.size) && forall j :: 0 <= j < |hs| && j != i ==> Stands(hs[j], s[j])
    ensures Holds(g, hs[..i] + hs[i + 1..], s[..i] + s[i + 1..])
  {
    hide Store<T>.Counted, Stands;
    var r := hs[..i] + hs[i + 1..];
    WithoutAt(hs, i);
    WithoutAt(s, i);
    forall x | x in g.handles ensures x in r {
      var j :| 0 <= j < |hs| && hs[j] == x;
      assert x == r[if j < i then j else j - 1];
    }
  }

  /** A statement that makes an array. */
  method Construct<T(0, ==, !new)>(size: nat, op: Op<T>, hs: seq<Handle<T>>, ghost s: seq<Arr<T>>, ghost g: Store<T>)
    returns (h: Handle<T>)
    requires g.size == size && Holds(g, hs, s) && Applies(s, size, op) && (op.New? || op.NewFrom? || op.Copy?)
    requires |g.handles| <= |hs|
    modifies g, g.datas
    ensures g.Valid() && g.handles == old(g.handles) + {h} && fresh(h)
    ensures var r := Exec(s, size, op); r != [] && r[..|r| - 1] == s && Stands(h, r[|r| - 1])
    ensures forall x :: x in old(g.handles) ==> x.Contents() == old(x.Contents())
    ensures forall d :: d in g.datas && d !in old(g.datas) ==> fresh(d) && fresh(d.val)
  {
    hide Store<T>.Counted;
    if op.New? {
      h := new Handle.Uniform(size, op.x, g);
    } else if op.NewFrom? {
      h := new Handle.FromArray(op.vals, g);
    } else {
      h := new Handle.Copy(hs[op.i], g);
    }
  }

  /** The array made joins the live ones. */
  method Append<T(0, ==, !new)>(size: nat, op: Op<T>, hs: seq<Handle<T>>, ghost s: seq<Arr<T>>, ghost g: Store<T>)
    returns (r: seq<Handle<T>>)
    requires g.size == size && Holds(g, hs, s) && Applies(s, size, op) && (op.New? || op.NewFrom? || op.Copy?)
    requires |g.handles| <= |hs|
    modifies g, g.datas
    ensures Holds(g, r, Exec(s, size, op))
    ensures forall h :: h in r ==> h in hs || fresh(h)
    ensures forall d :: d in g.datas && d !in old(g.datas) ==> fresh(d) && fresh(d.val)
  {
    hide Store<T>.Counted, Handle<T>.Contents, Exec, Applies;
    var h := Construct(size, op, hs, s, g);
    r := hs + [h];
    ghost var s' := Exec(s, size, op);
    assert s' == s + [s'[|s|]];
    Appended(g, hs, s, h, s'[|s|]);
  }

  /** The statement that ends the life of an array. */
  method Remove<T(0, ==, !new)>(i: nat, hs: seq<Handle<T>>, ghost s: seq<Arr<T>>, ghost g: Store<T>)
    returns (r: seq<Handle<T>>)
    requires Holds(g, hs, s) && i < |hs|
    modifies g, g.handles, g.datas
    ensures Holds(g, r, s[..i] + s[i + 1..])
    ensures forall h :: h in r ==> h in hs
    ensures forall d :: d in g.datas && d !in old(g.datas) ==> fresh(d) && fresh(d.val)
  {
    hide Store<T>.Counted;
    hs[i].Destroy(g);
    r := hs[..i] + hs[i + 1..];
    Removed(g, hs, s, i);
  }

  /** The statement that reads an element. */
  method Show<T(0, ==, !new)>(i: nat, k: nat, hs: seq<Handle<T>>, ghost s: seq<Arr<T>>, ghost g: Store<T>)
    returns (v: T)
    requires Holds(g, hs, s) && i < |s| && k < g.size
    ensures v == s[i].elems[k]
  {
    hide Store<T>.Counted;
    v := hs[i].Read(k, g);
  }

  /** What comparing two handles says of the values they stand for. */
  lemma SameValues<T(0)>(h: Handle<T>, r: Handle<T>, a: Arr<T>, b: Arr<T>, same: bool)
    requires h.size == r.size == |a.elems| == |b.elems| > 0 && Stands(h, a) && Stands(r, b)
    requires (h.p != null ==> h.p.val.Length == h.size) && (r.p != null ==> r.p.val.Length == r.size)
    requires a.lower < h.size && a.upper < h.size
    requires if h.p == null && r.p == null then same <==> h.x == r.x
      else same <==> forall i :: h.From() <= i <= h.To() ==> h.Contents()[i] == r.Contents()[i]
    ensures same <==> a.Same(b)
  {
  }

  /** The statement that compares two arrays. */
  method Contrast<T(0, ==, !new)>(i: nat, j: nat, hs: seq<Handle<T>>, ghost s: seq<Arr<T>>, ghost g: Store<T>)
    returns (same: bool)
    requires Holds(g, hs, s) && i < |s| && j < |s| && 0 < g.size && s[i].lower < g.size && s[i].upper < g.size
    ensures same <==> s[i].Same(s[j])
  {
    same := hs[i].Equal(hs[j], g);
    SameValues(hs[i], hs[j], s[i], s[j], same);
  }

  /** One handle is given another value. */
  method ChangeOne<T(0, ==, !new)>(op: Op<T>, h: Handle<T>, r: Handle<T>, ghost a: Arr<T>, ghost b: Arr<T>,
                                   ghost g: Store<T>)
    requires g.Valid() && h in g.handles && r in g.handles && |g.handles| < INT_MAX && Changes(op)
    requires |a.elems| == |b.elems| == g.size && Stands(h, a) && Stands(r, b)
    requires (op.SetFrom? ==> |op.vals| == g.size) && (op.Write? ==> op.k < g.size)
    modifies h, g, h.p, r.p, h.Elements()
    ensures g.Valid() && g.handles == old(g.handles) && Stands(h, Changed(a, b, op))
    ensures forall x :: x in g.handles && x != h ==> x.Contents() == old(x.Contents())
    ensures forall d :: d in g.datas && d !in old(g.datas) ==> fresh(d) && fresh(d.val)
  {
    hide Store<T>.Counted, Handle<T>.Contents;
    match op
    case Assign(i, j) => h.Assign(r, g);
    case SetAll(i, x) => h.AssignUniform(x, g);
    case SetFrom(i, vals) => h.AssignArray(vals, g);
    case Mask(i, f) => h.Mask(f, g);
    case Write(i, k, v) => h.Write(k, v, g);
    case SetLower(i, bound) => h.SetLower(bound);
    case SetUpper(i, bound) => h.SetUpper(bound);
  }

  lemma Position<T(!new)>(s: seq<Arr<T>>, size: nat, op: Op<T>)
    requires Applies(s, size, op) && Sized(s, size) && Changes(op)
    ensures var j := Other(op);
      && op.i < |s| && j < |s| && |s| < INT_MAX
      && (op.SetFrom? ==> |op.vals| == size) && (op.Write? ==> op.k < size)
      && Exec(s, size, op) == s[op.i := Changed(s[op.i], s[j], op)]
  {
  }

  /** A statement that gives one array another value. */
  method Change<T(0, ==, !new)>(size: nat, op: Op<T>, hs: seq<Handle<T>>, ghost s: seq<Arr<T>>, ghost g: Store<T>)
    requires g.size == size && Holds(g, hs, s) && Applies(s, size, op) && Changes(op) && |g.handles| <= |hs|
    modifies g, g.handles, g.datas, set d | d in g.datas :: d.val
    ensures Holds(g, hs, Exec(s, size, op)) && g.handles == old(g.handles)
    ensures forall d :: d in g.datas && d !in old(g.datas) ==> fresh(d) && fresh(d.val)
  {
    hide Store<T>.Counted, Handle<T>.Contents, Exec, Applies, Changed;
    Position(s, size, op);
    ChangeOne(op, hs[op.i], hs[Other(op)], s[op.i], s[Other(op)], g);
  }

  lemma {:induction false} SetOfSeq<T>(s: seq<T>, a: set<T>)
    requires forall x :: x in a ==> x in s
    ensures |a| <= |s|
  {
    if s != [] {
      SetOfSeq(s[1..], a - {s[0]});
    } else {
      assert a == {};
    }
  }

  /** There are as many live handles as the program has arrays. */
  lemma Count<T(0, !new)>(hs: seq<Handle<T>>, s: seq<Arr<T>>, g: Store<T>)
    requires Holds(g, hs, s)
    ensures |g.handles| <= |hs| == |s| && Sized(s, g.size)
  {
    SetOfSeq(hs, g.handles);
  }

  /** One statement of the program. */
  method Step<T(0, ==, !new)>(size: nat, op: Op<T>, hs: seq<Handle<T>>, ghost s: seq<Arr<T>>, ghost g: Store<T>)
    returns (r: seq<Handle<T>>, seen: seq<Shown<T>>)
    requires g.size == size && Holds(g, hs, s) && Applies(s, size, op)
    modifies g, g.handles, g.datas, set d | d in g.datas :: d.val
    ensures Holds(g, r, Exec(s, size, op)) && seen == Seen(s, size, op)
    ensures forall h :: h in r ==> h in hs || fresh(h)
    ensures forall d :: d in g.datas && d !in old(g.datas) ==> fresh(d) && fresh(d.val)
  {
    hide Holds, Exec, Applies, Seen;
    Count(hs, s, g);
    Outcome(s, size, op);
    seen := [];
    if op.New? || op.NewFrom? || op.Copy? {
      r := Append(size, op, hs, s, g);
    } else if op.Destroy? {
      r := Remove(op.i, hs, s, g);
    } else if op.Read? {
      var v := Show(op.i, op.k, hs, s, g);
      r, seen := hs, [Element(v)];
    } else if op.Compare? {
      var same := Contrast(op.i, op.j, hs, s, g);
      r, seen := hs, [Comparison(same)];
    } else {
      Change(size, op, hs, s, g);
      r := hs;
    }
  }

  /** A whole program on values. */
  ghost predicate Runs<T(!new)>(s: seq<Arr<T>>, size: nat, ops: seq<Op<T>>)
    requires Sized(s, size)
    decreases |ops|
  {
    ops == [] || (Applies(s, size, ops[0]) && Runs(Exec(s, size, ops[0]), size, ops[1..]))
  }

  ghost function ExecAll<T(!new)>(s: seq<Arr<T>>, size: nat, ops: seq<Op<T>>): seq<Arr<T>>
    requires Sized(s, size) && Runs(s, size, ops)
    decreases |ops|
  {
    if ops == [] then s else ExecAll(Exec(s, size, ops[0]), size, ops[1..])
  }

  /** Everything the program shows on its way. */
  ghost function SeenAll<T(!new)>(s: seq<Arr<T>>, size: nat, ops: seq<Op<T>>): seq<Shown<T>>
    requires Sized(s, size) && Runs(s, size, ops)
    decreases |ops|
  {
    if ops == [] then [] else Seen(s, size, ops[0]) + SeenAll(Exec(s, size, ops[0]), size, ops[1..])
  }

  lemma NothingRuns<T(!new)>(s: seq<Arr<T>>, size: nat, ops: seq<Op<T>>)
    requires Sized(s, size) && ops == []
    ensures Runs(s, size, ops) && ExecAll(s, size, ops) == s && SeenAll(s, size, ops) == []
  {
  }

  /** The program from its statement n on. */
  lemma RunsStep<T(!new)>(s: seq<Arr<T>>, size: nat, ops: seq<Op<T>>, n: nat)
    requires Sized(s, size) && n < |ops| && Runs(s, size, ops[n..])
    ensures Applies(s, size, ops[n])
    ensures var t := Exec(s, size, ops[n]);
      && Runs(t, size, ops[n + 1..]) && ExecAll(t, size, ops[n + 1..]) == ExecAll(s, size, ops[n..])
      && Seen(s, size, ops[n]) + SeenAll(t, size, ops[n + 1..]) == SeenAll(s, size, ops[n..])
  {
    hide Exec, Applies, Seen;
    assert ops[n..][0] == ops[n] && ops[n..][1..] == ops[n + 1..];
  }

  /**
   * Value semantics of whole programs: every element read is the one the same statements on plain values read, in the
   * end the arrays show those values, and every block is counted by exactly the handles that share it.
   */
  method Execute<T(0, ==, !new)>(size: nat, ops: seq<Op<T>>)
    returns (hs: seq<Handle<T>>, seen: seq<Shown<T>>, ghost g: Store<T>)
    requires Runs([], size, ops)
    ensures Holds(g, hs, ExecAll([], size, ops))
    ensures seen == SeenAll([], size, ops)
  {
    hide Exec, Applies, Seen, Runs, ExecAll, SeenAll, Store<T>.Counted;
    g := new Store(size);
    hs, seen := [], [];
    ghost var s: seq<Arr<T>> := [];
    assert ops[0..] == ops;
    for n := 0 to |ops|
      invariant fresh(g) && g.size == size && Holds(g, hs, s)
      invariant forall h :: h in hs ==> fresh(h)
      invariant forall d :: d in g.datas ==> fresh(d) && fresh(d.val)
      invariant Sized(s, size) && Runs(s, size, ops[n..])
      invariant ExecAll(s, size, ops[n..]) == ExecAll([], size, ops)
      invariant seen + SeenAll(s, size, ops[n..]) == SeenAll([], size, ops)
    {
      RunsStep(s, size, ops, n);
      var shown;
      hs, shown := Step(size, ops[n], hs, s, g);
      seen := seen + shown;
      s := Exec(s, size, ops[n]);
    }
    NothingRuns(s, size, ops[|ops|..]);
  }

  /** Without bounds arrays are the same exactly when all their elements are. */
  lemma WholeArrays<T>(a: Arr<T>, b: Arr<T>)
    requires |a.elems| == |b.elems| > 0 && a.lower < 0 && a.upper < 0
    requires a.uniform ==> a.elems == Repeated(a.elems[0], |a.elems|)
    requires b.uniform ==> b.elems == Repeated(b.elems[0], |b.elems|)
    ensures a.Same(b) <==> a.elems == b.elems
  {
  }

  lemma RunsCons<T(!new)>(s: seq<Arr<T>>, size: nat, op: Op<T>, ops: seq<Op<T>>)
    requires Sized(s, size) && Applies(s, size, op) && Runs(Exec(s, size, op), size, ops)
    ensures Runs(s, size, [op] + ops)
    ensures SeenAll(s, size, [op] + ops) == Seen(s, size, op) + SeenAll(Exec(s, size, op), size, ops)
  {
    assert ([op] + ops)[1..] == ops;
  }

  /** Comparing two arrays just made from elements: the answer is whether all of them agree. */
  lemma TwoMade<T(!new)>(v: seq<T>, w: seq<T>)
    requires 0 < |v| == |w|
    ensures var ops := [NewFrom(v), NewFrom(w), Compare(0, 1)];
      Runs([], |v|, ops) && SeenAll([], |v|, ops) == [Comparison(v == w)]
  {
    hide Runs, SeenAll;
    var n, a, b := |v|, Arr(v, false, -1, -1), Arr(w, false, -1, -1);
    WholeArrays(a, b);
    assert [] + [a] == [a] && [a] + [b] == [a, b];
    assert [NewFrom(v)] + ([NewFrom(w)] + ([Compare(0, 1)] + [])) == [NewFrom(v), NewFrom(w), Compare(0, 1)];
    NothingRuns([a, b], n, []);
    RunsCons([a, b], n, Compare(0, 1), []);
    RunsCons([a], n, NewFrom(w), [Compare(0, 1)] + []);
    RunsCons([], n, NewFrom(v), [NewFrom(w)] + ([Compare(0, 1)] + []));
  }
}
