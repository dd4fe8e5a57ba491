/**
 * The loops and memmoves of sound_seg.c, on a track's array of node handles
 * and on the arena's cells taken as a value: each is proved against the
 * function of SegOps or SegNodes that gives its result.
 */
module SegLoops {
  import opened Basics
  import opened SegNodes
  import opened SegOps

  /** The reallocated array: the old handles, then `first`, `first + 1`, ... in the new slots. */
  method Extend(a: array<Handle>, newCapacity: nat, first: nat) returns (b: array<Handle>)
    requires a.Length <= newCapacity
    ensures fresh(b) && b.Length == newCapacity
    ensures b[..] == a[..] + Fresh(first, newCapacity - a.Length)
  {
    b := new Handle[newCapacity];
    forall i | 0 <= i < a.Length {
      b[i] := a[i];
    }
    forall i | a.Length <= i < newCapacity {
      b[i] := first + (i - a.Length);
    }
    assert b[..] == a[..] + Fresh(first, newCapacity - a.Length);
  }

  /**
   * tr_delete_range's memmove, followed by fresh zeroed parents (handles
   * `first`, `first + 1`, ...) in the `end - pos` slots the shift vacates.
   */
  method ShiftDown(a: array<Handle>, pos: nat, end: nat, length: nat, first: nat)
    requires pos <= end <= length <= a.Length
    modifies a
    ensures a[..] == old(a[..pos]) + old(a[end..length]) + Fresh(first, end - pos) + old(a[length..])
  {
    var a0 := a[..];
    var m := end - pos;
    forall i | pos <= i < length {
      a[i] := if i < length - m then a0[i + m] else first + (i - (length - m));
    }
    DownRun(a0, a, pos, end, length, first);
  }

  /** An array that is `a0` with `[end, length)` moved down to `pos` and a fresh run in the slots it vacated. */
  lemma DownRun(a0: seq<Handle>, a: array<Handle>, pos: nat, end: nat, length: nat, first: nat)
    requires a.Length == |a0| && pos <= end <= length <= |a0|
    requires forall q {:trigger a[q]} :: 0 <= q < pos ==> a[q] == a0[q]
    requires forall q :: pos <= q < length - (end - pos) ==> a[q] == a0[q + (end - pos)]
    requires forall q :: length - (end - pos) <= q < length ==> a[q] == first + (q - (length - (end - pos)))
    requires forall q {:trigger a[q]} :: length <= q < a.Length ==> a[q] == a0[q]
    ensures a[..] == a0[..pos] + a0[end..length] + Fresh(first, end - pos) + a0[length..]
  {
    var m := end - pos;
    var b := a0[..pos] + a0[end..length] + Fresh(first, m) + a0[length..];
    forall q | 0 <= q < a.Length
      ensures a[..][q] == b[q]
    {
      if q < pos {
        assert a[q] == a0[q] == b[q];
      } else if q < length - m {
        assert a[q] == a0[q + m] == a0[end..length][q - pos] == b[q];
      } else if q < length {
        assert a[q] == first + (q - (length - m)) == Fresh(first, m)[q - (length - m)] == b[q];
      } else {
        assert a[q] == a0[q] == a0[length..][q - length] == b[q];
      }
    }
  }

  /** tr_insert's memmove: the slots `[destpos, length)` move up by `len`. */
  method ShiftUp(a: array<Handle>, destpos: nat, length: nat, len: nat)
    requires destpos <= length && length + len <= a.Length
    modifies a
    ensures a[..] == old(a[..destpos + len]) + old(a[destpos..length]) + old(a[length + len..])
  {
    var a0 := a[..];
    forall i | destpos <= i < length {
      a[i + len] := a0[i];
    }
    assert a[..] == old(a[..destpos + len]) + old(a[destpos..length]) + old(a[length + len..]);
  }

  /** An array that is `a0` but for the run `start`, `start + 1`, ... from `destpos`. */
  lemma FreshRun(a0: seq<Handle>, a: array<Handle>, destpos: nat, start: nat, n: nat)
    requires a.Length == |a0| && destpos + n <= |a0|
    requires forall q {:trigger a[q]} :: 0 <= q < destpos ==> a[q] == a0[q]
    requires forall q :: destpos <= q < destpos + n ==> a[q] == start + (q - destpos)
    requires forall q {:trigger a[q]} :: destpos + n <= q < a.Length ==> a[q] == a0[q]
    ensures a[..] == a0[..destpos] + Fresh(start, n) + a0[destpos + n..]
  {
    var b := a0[..destpos] + Fresh(start, n) + a0[destpos + n..];
    forall q | 0 <= q < a.Length
      ensures a[..][q] == b[q]
    {
      if q < destpos {
        assert b[q] == a0[q];
      } else if q < destpos + n {
        assert b[q] == Fresh(start, n)[q - destpos];
      } else {
        assert b[q] == a0[destpos + n..][q - (destpos + n)];
      }
    }
  }

  /** The slots after tr_delete_range's shift: the run `[pos, end)` of the live slots cut out, fresh handles after. */
  lemma DeletedView(a: seq<Handle>, a0: seq<Handle>, length: nat, pos: nat, end: nat, first: nat)
    requires pos <= end <= length <= |a0|
    requires a == a0[..pos] + a0[end..length] + Fresh(first, end - pos) + a0[length..]
    ensures Slots(a[..length - (end - pos)], a[length - (end - pos)..]) ==
      DeleteSlots(Slots(a0[..length], a0[length..]), first, pos, end)
  {
    var m := end - pos;
    assert a == (a0[..pos] + a0[end..length]) + (Fresh(first, m) + a0[length..]);
    assert a0[..length][..pos] == a0[..pos] && a0[..length][end..] == a0[end..length];
  }

  /** The slots after tr_insert's shift (`a2`) and fill (`a`): a run of `n` fresh handles from `first` at `destpos`. */
  lemma InsertedView(a: seq<Handle>, a2: seq<Handle>, a1: seq<Handle>, length: nat, destpos: nat, first: nat, n: nat)
    requires destpos <= length && length + n <= |a1|
    requires a2 == a1[..destpos + n] + a1[destpos..length] + a1[length + n..]
    requires a == a2[..destpos] + Fresh(first, n) + a2[destpos + n..]
    ensures a[..length + n] == a1[..length][..destpos] + Fresh(first, n) + a1[..length][destpos..]
    ensures a[length + n..] == a1[length..][n..]
  {
    assert a2[..destpos] == a1[..destpos];
    assert a2[destpos + n..] == a1[destpos..length] + a1[length + n..];
    assert a == (a1[..destpos] + Fresh(first, n) + a1[destpos..length]) + a1[length + n..];
    assert a1[..length][..destpos] == a1[..destpos] && a1[..length][destpos..] == a1[destpos..length];
    assert a1[length..][n..] == a1[length + n..];
  }

  /**
   * tr_insert's fill loop: slot `destpos + i` gets a fresh child of the
   * parent `rs[i]`, which gains one reference; `cells` is the arena's
   * cells `c0` afterwards.
   */
  method Fill(a: array<Handle>, c0: seq<Node>, rs: seq<Handle>, destpos: nat) returns (cells: seq<Node>)
    requires destpos + |rs| <= a.Length && ParentsAt(c0, rs)
    modifies a
    ensures cells == InsertCells(c0, rs)
    ensures a[..] == old(a[..destpos]) + Fresh(|c0|, |rs|) + old(a[destpos + |rs|..])
  {
    ghost var a0 := a[..];
    cells := c0;
    var i := 0;
    assert rs[..0] == [];
    while i < |rs|
      invariant FilledUpTo(c0, rs, i, cells)
      invariant forall q {:trigger a[q]} :: 0 <= q < destpos ==> a[q] == a0[q]
      invariant forall q :: destpos <= q < destpos + i ==> a[q] == |c0| + (q - destpos)
      invariant forall q {:trigger a[q]} :: destpos + i <= q < a.Length ==> a[q] == a0[q]
    {
      FillStep(c0, rs, i, cells);
      a[destpos + i] := |cells|;
      cells := WithChild(cells, rs[i]);
      i := i + 1;
    }
    FillDone(c0, rs, cells);
    FreshRun(a0, a, destpos, |c0|, |rs|);
  }

  /** tr_insert's shift and fill together; `cells` is the arena's cells `c0` afterwards. */
  method Open(a: array<Handle>, c0: seq<Node>, length: nat, rs: seq<Handle>, destpos: nat) returns (cells: seq<Node>)
    requires destpos <= length && length + |rs| <= a.Length && ParentsAt(c0, rs)
    modifies a
    ensures cells == InsertCells(c0, rs)
    ensures a[..length + |rs|] == old(a[..length][..destpos]) + Fresh(|c0|, |rs|) + old(a[..length][destpos..])
    ensures a[length + |rs|..] == old(a[length..][|rs|..])
  {
    ghost var a1 := a[..];
    ShiftUp(a, destpos, length, |rs|);
    ghost var a2 := a[..];
    cells := Fill(a, c0, rs, destpos);
    InsertedView(a[..], a2, a1, length, destpos, |c0|, |rs|);
  }

  /** tr_read's loop: `dest[i]` gets the sample node `a[pos + i]` reads, for each `i < n`. */
  method CopySamples(dest: array<int16>, cells: seq<Node>, a: array<Handle>, pos: nat, n: nat)
    requires Linked(cells) && pos + n <= a.Length && n <= dest.Length && InCells(cells, a[pos..pos + n])
    modifies dest
    ensures dest[..n] == Resolve(cells, a[pos..pos + n])
    ensures dest[n..] == old(dest[n..])
  {
    ghost var hs := a[pos..pos + n];
    assert forall q :: 0 <= q < n ==> a[pos + q] == hs[q];
    var i := 0;
    while i < n
      invariant i <= n
      invariant forall q :: 0 <= q < i ==> dest[q] == SampleAt(cells, hs[q])
      invariant forall q {:trigger dest[q]} :: n <= q < dest.Length ==> dest[q] == old(dest[q])
    {
      var node := cells[a[pos + i]];
      dest[i] := if node.Parent? then node.sample else cells[node.parent].sample;
      i := i + 1;
    }
    assert dest[..n] == Resolve(cells, hs);
  }

  /**
   * tr_write's loop: for each node of `hs` in turn, `src[i]` is stored into
   * the node itself if it is a parent, or else into the parent it refers to.
   */
  method WriteThrough(c0: seq<Node>, hs: seq<Handle>, src: seq<int16>) returns (cells: seq<Node>)
    requires Linked(c0) && InCells(c0, hs) && |hs| == |src|
    ensures cells == Stamp(c0, Roots(c0, hs), src)
  {
    ghost var rs := Roots(c0, hs);
    cells := c0;
    var i := 0;
    while i < |hs|
      invariant i <= |hs| && cells == Stamp(c0, rs[..i], src[..i])
    {
      var h := hs[i];
      var node := cells[h];
      if node.Parent? {
        cells := cells[h := node.(sample := src[i])];
      } else {
        var p := node.parent;
        cells := cells[p := cells[p].(sample := src[i])];
      }
      assert rs[..i + 1][..i] == rs[..i] && src[..i + 1][..i] == src[..i];
      i := i + 1;
    }
    assert rs[..i] == rs && src[..i] == src;
  }

  /**
   * The release loop of tr_delete_range and tr_destroy: each child among
   * `hs` gives back one reference to its parent.
   */
  method ReleaseAll(c0: seq<Node>, hs: seq<Handle>) returns (cells: seq<Node>)
    requires Linked(c0) && InCells(c0, hs)
    ensures cells == Release(c0, hs)
  {
    cells := c0;
    var i := 0;
    while i < |hs|
      invariant i <= |hs| && cells == Release(c0, hs[..i])
    {
      var node := cells[hs[i]];
      assert hs[..i + 1][..i] == hs[..i];
      if node.Child? {
        var p := node.parent;
        cells := cells[p := cells[p].(refCount := cells[p].refCount - 1)];
      }
      i := i + 1;
    }
    assert hs[..i] == hs;
  }

  /** tr_insert's walk from each node of `hs` to the parent it reads from. */
  method RootsOf(cells: seq<Node>, hs: seq<Handle>) returns (rs: seq<Handle>)
    requires Linked(cells) && InCells(cells, hs)
    ensures rs == Roots(cells, hs)
  {
    rs := [];
    var i := 0;
    while i < |hs|
      invariant i <= |hs| && |rs| == i
      invariant forall q :: 0 <= q < i ==> rs[q] == Root(cells, hs[q])
    {
      var p: Handle := hs[i];
      while cells[p].Child?
        invariant p < |cells| && Root(cells, p) == Root(cells, hs[i])
        decreases if cells[p].Child? then 1 else 0
      {
        p := cells[p].parent;
      }
      rs := rs + [p];
      i := i + 1;
    }
  }

  /** Appends `n` zeroed parent cells to `c0`. */
  method AddZeros(c0: seq<Node>, n: nat) returns (cells: seq<Node>)
    ensures cells == c0 + Zeros(n)
  {
    cells := c0;
    var i := 0;
    while i < n
      invariant i <= n && cells == c0 + Zeros(i)
    {
      cells := cells + [ZeroParent];
      i := i + 1;
    }
  }

  /**
   * The cell work of tr_delete_range: the children among `removed` give
   * back their references, and `|removed|` zeroed parents are appended for
   * the slots the shift vacates.
   */
  method Prune(c0: seq<Node>, removed: seq<Handle>) returns (cells: seq<Node>)
    requires Linked(c0) && InCells(c0, removed)
    ensures cells == DeleteCells(c0, removed)
  {
    cells := ReleaseAll(c0, removed);
    cells := AddZeros(cells, |removed|);
  }

  /** tr_delete_range's check loop: whether no parent among `hs` is referred to. */
  method Unreferenced(cells: seq<Node>, hs: seq<Handle>) returns (free: bool)
    requires InCells(cells, hs)
    ensures free == NoneReferenced(cells, hs)
  {
    var i := 0;
    while i < |hs|
      invariant i <= |hs|
      invariant forall q :: 0 <= q < i ==> !(cells[hs[q]].Parent? && cells[hs[q]].refCount > 0)
    {
      var node := cells[hs[i]];
      if node.Parent? && node.refCount > 0 {
        return false;
      }
      i := i + 1;
    }
    return true;
  }
}
