/**
 * `mgc_sysc_ver_array1D`: arrays that share their elements until one of them is written. Handles point at counted
 * blocks; a handle without a block stands for an array of equal elements.
 */
module CowArray {
  const INT_MAX := 0x7FFF_FFFF

  function Mapped<T>(f: T -> T, s: seq<T>): (r: seq<T>)
    ensures |r| == |s| && forall i :: 0 <= i < |s| ==> r[i] == f(s[i])
  {
    seq(|s|, i requires 0 <= i < |s| => f(s[i]))
  }

  function Repeated<T>(x: T, n: nat): (r: seq<T>)
    ensures |r| == n && forall i :: 0 <= i < n ==> r[i] == x
  {
    seq(n, _ => x)
  }

  lemma {:induction false} Subset<T>(a: set<T>, b: set<T>)
    requires a <= b
    ensures |a| <= |b|
    decreases |a|
  {
    if a != {} {
      var x :| x in a;
      Subset(a - {x}, b - {x});
    }
  }

  lemma Sole<T>(s: set<T>, x: T)
    requires |s| == 1 && x in s
    ensures s == {x}
  {
    Subset({x}, s);
    assert |s - {x}| == 0;
  }

  /** The inner class `Data`: the elements and the number of handles that share them. */
  class Data<T(0, ==)> {
    const val: array<T>

    var cnt: int
    ghost var users: set<Handle<T>>

    constructor (vals: seq<T>)
      ensures val.Length == |vals| && val[..] == vals && fresh(val) && cnt == 0 && users == {}
    {
      val := new T[|vals|](i requires 0 <= i < |vals| => vals[i]);
      cnt, users := 0, {};
    }

    method Inc()
      requires cnt < INT_MAX
      modifies `cnt
      ensures cnt == old(cnt) + 1
    {
      cnt := cnt + 1;
    }

    method Dec() returns (left: int)
      requires cnt > 0
      modifies `cnt
      ensures cnt == left == old(cnt) - 1
    {
      cnt := cnt - 1;
      left := cnt;
    }

    /** `operator=` from an array. */
    method Fill(vals: seq<T>)
      requires |vals| == val.Length
      modifies val
      ensures val[..] == vals
    {
      for i := 0 to val.Length
        invariant val[..i] == vals[..i]
      {
        val[i] := vals[i];
      }
    }

    /** `operator&=`: f is what masking does to one element. */
    method Apply(f: T -> T)
      modifies val
      ensures val[..] == Mapped(f, old(val[..]))
    {
      for i := 0 to val.Length
        invariant forall k :: 0 <= k < i ==> val[k] == f(old(val[k]))
        invariant forall k :: i <= k < val.Length ==> val[k] == old(val[k])
      {
        val[i] := f(val[i]);
      }
    }
  }

  /** The program's live handles and the blocks not yet deleted. */
  class Store<T(0, ==)> {
    const size: nat

    ghost var handles: set<Handle<T>>
    ghost var datas: set<Data<T>>

    /** The same while one reference to `extra` is counted that no handle holds yet. */
    ghost predicate Counted(extra: Data?<T>)
      reads this, handles`p, datas
      ensures Counted(extra) ==> forall h :: h in handles ==> h.size == size && (h.p != null ==> h.p in datas)
      ensures Counted(extra) ==> forall d :: d in datas ==> d.val.Length == size
    {
      && (forall d :: d in datas ==> d.val.Length == size && d.users <= handles)
      && (forall d :: d in datas ==> d.cnt == |d.users| + (if d == extra then 1 else 0) > 0)
      && (forall d, h :: d in datas && h in handles ==> (h in d.users <==> h.p == d))
      && (forall h :: h in handles ==> h.size == size && (h.p != null ==> h.p in datas))
      && (forall d, e :: d in datas && e in datas && d != e ==> d.val != e.val)
      && (extra != null ==> extra in datas)
    }

    /** Each block counts exactly the live handles that point at it, and there is at least one. */
    ghost predicate Valid()
      reads this, handles`p, datas
    {
      Counted(null)
    }

    /** A block has no more users than there are handles. */
    lemma Bound(d: Data?<T>)
      requires Valid() && (d != null ==> d in datas)
      ensures d != null ==> d.cnt <= |handles|
    {
      if d != null { Subset(d.users, handles); }
    }

    lemma BoundWithout(d: Data<T>, h: Handle<T>)
      requires Valid() && d in datas && h in handles && h.p == null
      ensures d.cnt < |handles|
    {
      Subset(d.users, handles - {h});
    }

    /** The handles that point at a block are its users: the count is theirs. */
    lemma CountIsExact(d: Data<T>)
      requires Valid() && d in datas
      ensures d.cnt == |set h | h in handles && h.p == d| > 0
    {
      assert d.users == set h | h in handles && h.p == d;
    }

    ghost constructor (size: nat)
      ensures Valid() && this.size == size && handles == {} && datas == {}
    {
      this.size, handles, datas := size, {}, {};
    }
  }

  class Handle<T(0, ==)> {
    const size: nat

    var p: Data?<T>
    var x: T
    var lower: int
    var upper: int

    /** The elements the handle stands for. */
    ghost function Contents(): (c: seq<T>)
      reads `p, `x, p, if p != null then {p.val} else {}
    {
      if p == null then Repeated(x, size) else p.val[..]
    }

    /** The block's elements, as part of the frame of a write. */
    ghost function Elements(): set<array<T>>
      reads this, p
    {
      if p == null then {} else {p.val}
    }

    /** A handle without a block joins the live ones. */
    ghost method Enroll(g: Store<T>)
      requires g.Valid() && p == null && size == g.size && this !in g.handles
      modifies g`handles
      ensures g.Valid() && g.handles == old(g.handles) + {this}
    {
      g.handles := g.handles + {this};
    }

    /** The constructor of an array of equal elements. */
    constructor Uniform(size: nat, x: T, ghost g: Store<T>)
      requires g.Valid() && g.size == size
      modifies g
      ensures g.Valid() && g.handles == old(g.handles) + {this} && g.datas == old(g.datas) && fresh(this)
      ensures Contents() == Repeated(x, size) && p == null && this.x == x && lower == upper == -1
      ensures forall h :: h in old(g.handles) ==> h.Contents() == old(h.Contents())
    {
      this.size, p, this.x, lower, upper := size, null, x, -1, -1;
      new;
      hide Store<T>.Counted;
      Enroll(g);
    }

    /** `if (d) d->inc()`. */
    method Share(d: Data?<T>, ghost g: Store<T>)
      requires g.Valid() && (d != null ==> d in g.datas) && |g.handles| <= INT_MAX
      requires this in g.handles && (p == null || |g.handles| < INT_MAX)
      modifies d
      ensures g.Counted(d)
      ensures forall h :: h in g.handles ==> h.Contents() == old(h.Contents())
    {
      if d != null {
        if p == null { g.BoundWithout(d, this); } else { g.Bound(d); }
        d.Inc();
      }
    }

    /** `_p = d`: the reference that was counted becomes this handle's. */
    method Take(d: Data?<T>, ghost g: Store<T>)
      requires g.Counted(d) && this in g.handles && p == null
      modifies `p, d
      ensures g.Valid() && p == d && (d != null ==> d.cnt == old(d.cnt))
      ensures forall h :: h in g.handles && h != this ==> h.Contents() == old(h.Contents())
    {
      p := d;
      if d != null { d.users := d.users + {this}; }
    }

    /** A handle without a block becomes one more user of d. */
    method Join(d: Data?<T>, ghost g: Store<T>)
      requires g.Valid() && this in g.handles && p == null && (d != null ==> d in g.datas) && |g.handles| <= INT_MAX
      modifies `p, d
      ensures g.Valid() && p == d
      ensures forall h :: h in g.handles && h != this ==> h.Contents() == old(h.Contents())
    {
      hide Store<T>.Counted, Handle<T>.Contents;
      Share(d, g);
      Take(d, g);
    }

    /** Handles that point at the same block, or at none and have the same value, stand for the same elements. */
    lemma SameBlock(rhs: Handle<T>)
      requires p == rhs.p && x == rhs.x && size == rhs.size
      ensures Contents() == rhs.Contents()
    {
    }

    /** The copy constructor. */
    constructor Copy(rhs: Handle<T>, ghost g: Store<T>)
      requires g.Valid() && rhs in g.handles && |g.handles| < INT_MAX
      modifies g, rhs.p
      ensures g.Valid() && g.handles == old(g.handles) + {this} && g.datas == old(g.datas) && fresh(this)
      ensures Contents() == old(rhs.Contents()) && p == old(rhs.p) && lower == rhs.lower && upper == rhs.upper
      ensures forall h :: h in old(g.handles) ==> h.Contents() == old(h.Contents())
    {
      size, lower, upper, p, x := rhs.size, rhs.lower, rhs.upper, null, rhs.x;
      new;
      hide Store<T>.Counted, Handle<T>.Contents;
      Enroll(g);
      Join(rhs.p, g);
      SameBlock(rhs);
    }

    /** `new Data(vals)`, with its first reference counted. */
    method NewBlock(vals: seq<T>, ghost g: Store<T>) returns (d: Data<T>)
      requires g.Valid() && |vals| == g.size
      modifies g
      ensures g.Counted(d) && g.handles == old(g.handles)
      ensures fresh(d) && fresh(d.val) && d.val[..] == vals && d.cnt == 1
      ensures forall h :: h in g.handles ==> h.p != d
      ensures forall d :: d in g.datas && d !in old(g.datas) ==> fresh(d) && fresh(d.val)
    {
      d := new Data(vals);
      d.Inc();
      g.datas := g.datas + {d};
    }

    /** A block of its own with these elements. */
    method Fresh(vals: seq<T>, ghost g: Store<T>)
      requires g.Valid() && this in g.handles && p == null && |vals| == g.size
      modifies `p, g
      ensures g.Valid() && g.handles == old(g.handles) && p != null && fresh(p) && fresh(p.val) && p.cnt == 1
      ensures p.val[..] == vals
      ensures forall h :: h in g.handles && h != this ==> h.Contents() == old(h.Contents())
      ensures forall d :: d in g.datas && d !in old(g.datas) ==> fresh(d) && fresh(d.val)
    {
      hide Store<T>.Counted;
      var d := NewBlock(vals, g);
      Take(d, g);
    }

    /** The constructor from an array. */
    constructor FromArray(vals: seq<T>, ghost g: Store<T>)
      requires g.Valid() && |vals| == g.size
      modifies g
      ensures g.Valid() && g.handles == old(g.handles) + {this} && fresh(this)
      ensures Contents() == vals && p != null && lower == upper == -1
      ensures forall h :: h in old(g.handles) ==> h.Contents() == old(h.Contents())
      ensures forall d :: d in g.datas && d !in old(g.datas) ==> fresh(d) && fresh(d.val)
    {
      size, lower, upper, p := |vals|, -1, -1, null;
      new;
      hide Store<T>.Counted;
      Enroll(g);
      Fresh(vals, g);
    }

    /** `if (_p && _p->dec() == 0) delete _p`: the last handle to give a block up deletes it. */
    method Release(ghost extra: Data?<T>, ghost g: Store<T>)
      requires g.Counted(extra) && this in g.handles
      modifies `p, g, p
      ensures g.Counted(extra) && p == null && g.handles == old(g.handles)
      ensures forall h :: h in g.handles && h != this ==> h.Contents() == old(h.Contents())
      ensures forall d :: d in g.datas && d !in old(g.datas) ==> fresh(d) && fresh(d.val)
    {
      if p != null {
        assert this in p.users;
        var left := p.Dec();
        assert |p.users - {this}| == |p.users| - 1;
        p.users := p.users - {this};
        if left == 0 {
          assert p.users == {}; // no handle is left that points at it
          g.datas := g.datas - {p}; // delete _p
        }
      }
      p := null;
    }

    /** The destructor. */
    method Destroy(ghost g: Store<T>)
      requires g.Valid() && this in g.handles
      modifies `p, g, p
      ensures g.Valid() && g.handles == old(g.handles) - {this}
      ensures forall h :: h in g.handles ==> h.Contents() == old(h.Contents())
      ensures forall d :: d in g.datas && d !in old(g.datas) ==> fresh(d) && fresh(d.val)
    {
      Release(null, g);
      g.handles := g.handles - {this};
    }

    /** The handle gives its block up for d, which may be the same one. */
    method Replace(d: Data?<T>, ghost g: Store<T>)
      requires g.Valid() && this in g.handles && (d != null ==> d in g.datas) && |g.handles| < INT_MAX
      modifies `p, g, p, d
      ensures g.Valid() && g.handles == old(g.handles) && p == d
      ensures forall h :: h in g.handles && h != this ==> h.Contents() == old(h.Contents())
      ensures forall d :: d in g.datas && d !in old(g.datas) ==> fresh(d) && fresh(d.val)
    {
      hide Store<T>.Counted, Handle<T>.Contents;
      Share(d, g);
      Release(d, g);
      Take(d, g);
    }

    /** `operator=` from another array, which may be this one or share its block. */
    method Assign(rhs: Handle<T>, ghost g: Store<T>)
      requires g.Valid() && this in g.handles && rhs in g.handles && |g.handles| < INT_MAX
      modifies this, g, p, rhs.p
      ensures g.Valid() && g.handles == old(g.handles)
      ensures Contents() == old(rhs.Contents()) && p == old(rhs.p)
      ensures lower == old(rhs.lower) && upper == old(rhs.upper)
      ensures forall h :: h in g.handles && h != this ==> h.Contents() == old(h.Contents())
      ensures forall d :: d in g.datas && d !in old(g.datas) ==> fresh(d) && fresh(d.val)
    {
      hide Store<T>.Counted;
      Replace(rhs.p, g);
      x, lower, upper := rhs.x, rhs.lower, rhs.upper;
    }

    /** `operator=` from one value. */
    method AssignUniform(x: T, ghost g: Store<T>)
      requires g.Valid() && this in g.handles
      modifies this, g, p
      ensures g.Valid() && g.handles == old(g.handles)
      ensures Contents() == Repeated(x, g.size) && p == null && lower == old(lower) && upper == old(upper)
      ensures forall h :: h in g.handles && h != this ==> h.Contents() == old(h.Contents())
      ensures forall d :: d in g.datas && d !in old(g.datas) ==> fresh(d) && fresh(d.val)
    {
      Release(null, g);
      this.x := x;
    }

    /** `assign`: an array's elements, in place when nobody shares the block. */
    method AssignArray(vals: seq<T>, ghost g: Store<T>)
      requires g.Valid() && this in g.handles && |vals| == g.size
      modifies this, g, p, Elements()
      ensures g.Valid() && g.handles == old(g.handles)
      ensures Contents() == vals && p != null && lower == old(lower) && upper == old(upper)
      ensures forall h :: h in g.handles && h != this ==> h.Contents() == old(h.Contents())
      ensures forall d :: d in g.datas && d !in old(g.datas) ==> fresh(d) && fresh(d.val)
    {
      if p != null && p.cnt == 1 {
        Sole(p.users, this);
        p.Fill(vals);
        return;
      }
      Release(null, g);
      Fresh(vals, g);
    }

    /** What a write does first: the block becomes this handle's own. */
    method Own(ghost g: Store<T>)
      requires g.Valid() && this in g.handles
      modifies this, g, p
      ensures g.Valid() && g.handles == old(g.handles) && p != null && p.cnt == 1
      ensures p == old(p) || (fresh(p) && fresh(p.val))
      ensures old(p != null && p.cnt == 1) ==> p == old(p)
      ensures Contents() == old(Contents()) && lower == old(lower) && upper == old(upper)
      ensures forall h :: h in g.handles && h != this ==> h.Contents() == old(h.Contents())
      ensures forall d :: d in g.datas && d !in old(g.datas) ==> fresh(d) && fresh(d.val)
    {
      if p == null {
        Fresh(Repeated(x, size), g);
      } else if p.cnt > 1 {
        var vals := p.val[..];
        Release(null, g);
        Fresh(vals, g);
      }
    }

    /** `operator[]` as the target of an assignment. */
    method Write(i: nat, v: T, ghost g: Store<T>)
      requires g.Valid() && this in g.handles && i < g.size
      modifies this, g, p, Elements()
      ensures g.Valid() && g.handles == old(g.handles)
      ensures Contents() == old(Contents())[i := v] && p != null && lower == old(lower) && upper == old(upper)
      ensures forall h :: h in g.handles && h != this ==> h.Contents() == old(h.Contents())
      ensures forall d :: d in g.datas && d !in old(g.datas) ==> fresh(d) && fresh(d.val)
    {
      Own(g);
      Sole(p.users, this);
      p.val[i] := v;
    }

    /** `operator&=`. */
    method Mask(f: T -> T, ghost g: Store<T>)
      requires g.Valid() && this in g.handles
      modifies this, g, p, Elements()
      ensures g.Valid() && g.handles == old(g.handles)
      ensures Contents() == Mapped(f, old(Contents())) && (p == null <==> old(p == null))
      ensures lower == old(lower) && upper == old(upper)
      ensures forall h :: h in g.handles && h != this ==> h.Contents() == old(h.Contents())
      ensures forall d :: d in g.datas && d !in old(g.datas) ==> fresh(d) && fresh(d.val)
    {
      if p != null {
        Own(g);
        Sole(p.users, this);
        p.Apply(f);
      } else {
        x := f(x);
      }
    }

    /** `set_lower`. */
    method SetLower(lower: int)
      modifies `lower
      ensures this.lower == lower
    {
      this.lower := lower;
    }

    /** `set_upper`. */
    method SetUpper(upper: int)
      modifies `upper
      ensures this.upper == upper
    {
      this.upper := upper;
    }

    function From(): int
      reads this
    {
      if lower < 0 then 0 else lower
    }

    function To(): int
      reads this
    {
      if upper < 0 then size - 1 else upper
    }

    /**
     * `operator==` within the bounds of this array. Two arrays without blocks are compared by their common values even
     * when the bounds leave nothing to compare.
     */
    method Equal(rhs: Handle<T>, ghost g: Store<T>) returns (same: bool)
      requires g.Valid() && this in g.handles && rhs in g.handles
      requires From() < size && To() <= size - 1
      ensures (same <==> forall i :: From() <= i <= To() ==> Contents()[i] == rhs.Contents()[i])
        <==> !(p == null && rhs.p == null && From() > To() && x != rhs.x)
      ensures p == null && rhs.p == null ==> (same <==> x == rhs.x)
    {
      if p == null && rhs.p == null {
        same := x == rhs.x;
        if From() <= To() { assert Contents()[From()] == x && rhs.Contents()[From()] == rhs.x; }
        return;
      }
      if p != null && p == rhs.p { return true; }
      var i := From();
      while i <= To()
        invariant From() <= i
        invariant forall k :: From() <= k < i && k <= To() ==> Contents()[k] == rhs.Contents()[k]
        decreases To() - i
      {
        var a := if p != null then p.val[i] else x;
        var b := if rhs.p != null then rhs.p.val[i] else rhs.x;
        if a != b {
          assert Contents()[i] != rhs.Contents()[i];
          return false;
        }
        i := i + 1;
      }
      return true;
    }

    /** The reading `operator[]`. */
    method Read(i: nat, ghost g: Store<T>) returns (v: T)
      requires g.Valid() && this in g.handles && i < g.size
      ensures v == Contents()[i]
    {
      v := if p != null then p.val[i] else x;
    }
  }

  /** A concrete case: two arrays of two elements without blocks, compared from index 1 to index 0. */
  method EmptyBoundsDiffer<T(0, ==)>(x: T, y: T) returns (same: bool, first: int, last: int)
    requires x != y
    ensures !same && last < first
  {
    ghost var g := new Store<T>(2);
    var a := new Handle<T>.Uniform(2, x, g);
    var b := new Handle<T>.Uniform(2, y, g);
    a.lower, a.upper := 1, 0;
    first, last := a.From(), a.To();
    same := a.Equal(b, g);
  }
}
