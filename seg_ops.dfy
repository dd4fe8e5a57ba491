/**
 * What each track operation of sound_seg.c does to the arena of node cells,
 * as functions on values, and the proof that each keeps the arena's
 * invariant (SegNodes.WellFormed): exact reference counts, children that
 * refer to parents, zeroed spare slots, no cell in two slots.
 */
module SegOps {
  import opened Basics
  import opened SegNodes

  // ---------------------------------------------------------------------------
  // Writing samples through roots (tr_write's loop)

  ghost predicate ParentsAt(cells: seq<Node>, rs: seq<Handle>)
  {
    forall i :: 0 <= i < |rs| ==> rs[i] < |cells| && cells[rs[i]].Parent?
  }

  /**
   * The cells after `src[i]` has been stored into the parent `rs[i]`, for
   * `i` from first to last: a parent named twice keeps the later sample.
   */
  function Stamp(cells: seq<Node>, rs: seq<Handle>, src: seq<int16>): (r: seq<Node>)
    requires |rs| == |src| && ParentsAt(cells, rs)
    ensures |r| == |cells|
    ensures forall h :: 0 <= h < |cells| ==>
      r[h].Parent? == cells[h].Parent? &&
      (cells[h].Child? ==> r[h] == cells[h]) &&
      (cells[h].Parent? ==> r[h].refCount == cells[h].refCount)
    decreases |rs|
  {
    if rs == [] then cells
    else
      var n := |rs| - 1;
      var c := Stamp(cells, rs[..n], src[..n]);
      c[rs[n] := c[rs[n]].(sample := src[n])]
  }

  /** The position of the last occurrence of `h` in `rs`. */
  function LastIndex(rs: seq<Handle>, h: Handle): (i: nat)
    requires h in rs
    ensures i < |rs| && rs[i] == h
    ensures forall j :: i < j < |rs| ==> rs[j] != h
    decreases |rs|
  {
    if rs[|rs| - 1] == h then |rs| - 1 else LastIndex(rs[..|rs| - 1], h)
  }

  /** Each parent holds the sample of the last write aimed at it; every other cell is untouched. */
  lemma {:induction false} StampAt(cells: seq<Node>, rs: seq<Handle>, src: seq<int16>, h: Handle)
    requires |rs| == |src| && ParentsAt(cells, rs) && h < |cells|
    ensures Stamp(cells, rs, src)[h] ==
      if h in rs then cells[h].(sample := src[LastIndex(rs, h)]) else cells[h]
    decreases |rs|
  {
    if rs != [] {
      var n := |rs| - 1;
      StampAt(cells, rs[..n], src[..n], h);
      if h != rs[n] && h in rs {
        assert h in rs[..n];
      }
    }
  }

  lemma StampLinks(cells: seq<Node>, rs: seq<Handle>, src: seq<int16>)
    requires |rs| == |src| && ParentsAt(cells, rs) && Linked(cells)
    ensures SameLinks(cells, Stamp(cells, rs, src)) && Linked(Stamp(cells, rs, src))
    ensures forall h :: 0 <= h < |cells| ==> Root(Stamp(cells, rs, src), h) == Root(cells, h)
  {
  }

  /**
   * After the stamp, a node reads the sample of the last write aimed at its
   * root, or what it read before when no write was aimed at its root.  This is
   * how a write through one alias is seen through every other.
   */
  lemma StampSample(cells: seq<Node>, rs: seq<Handle>, src: seq<int16>, h: Handle)
    requires |rs| == |src| && ParentsAt(cells, rs) && Linked(cells) && h < |cells|
    ensures Linked(Stamp(cells, rs, src))
    ensures SampleAt(Stamp(cells, rs, src), h) ==
      if Root(cells, h) in rs then src[LastIndex(rs, Root(cells, h))] else SampleAt(cells, h)
  {
    StampLinks(cells, rs, src);
    StampAt(cells, rs, src, Root(cells, h));
  }

  /** Samples written through nodes with pairwise distinct roots read back exactly. */
  lemma StampReadBack(cells: seq<Node>, hs: seq<Handle>, src: seq<int16>)
    requires Linked(cells) && InCells(cells, hs) && |hs| == |src|
    requires Distinct(Roots(cells, hs))
    ensures Linked(Stamp(cells, Roots(cells, hs), src))
    ensures Resolve(Stamp(cells, Roots(cells, hs), src), hs) == src
  {
    var rs := Roots(cells, hs);
    StampLinks(cells, rs, src);
    forall i | 0 <= i < |hs| ensures SampleAt(Stamp(cells, rs, src), hs[i]) == src[i] {
      StampSample(cells, rs, src, hs[i]);
      assert rs[i] == Root(cells, hs[i]);
      assert LastIndex(rs, rs[i]) == i;
    }
  }

  /** What a node whose root is `r` reads after the stamp, given that it read `before`. */
  ghost function Overwritten(before: int16, r: Handle, rs: seq<Handle>, src: seq<int16>): int16
    requires |rs| == |src|
  {
    if r in rs then src[LastIndex(rs, r)] else before
  }

  /** Node by node, the samples a run of nodes reads after the stamp. */
  lemma StampResolve(cells: seq<Node>, rs: seq<Handle>, src: seq<int16>, hs: seq<Handle>)
    requires |rs| == |src| && ParentsAt(cells, rs) && Linked(cells) && InCells(cells, hs)
    ensures Linked(Stamp(cells, rs, src)) && Roots(Stamp(cells, rs, src), hs) == Roots(cells, hs)
    ensures forall i :: 0 <= i < |hs| ==>
      Resolve(Stamp(cells, rs, src), hs)[i] == Overwritten(Resolve(cells, hs)[i], Root(cells, hs[i]), rs, src)
  {
    StampLinks(cells, rs, src);
    forall i | 0 <= i < |hs|
      ensures Resolve(Stamp(cells, rs, src), hs)[i] == Overwritten(Resolve(cells, hs)[i], Root(cells, hs[i]), rs, src)
    {
      StampSample(cells, rs, src, hs[i]);
    }
  }

  // ---------------------------------------------------------------------------
  // Releasing and retaining references (tr_delete_range, tr_destroy, tr_insert)

  /** The cells after every child among `hs` has given back its reference to its parent. */
  function Release(cells: seq<Node>, hs: seq<Handle>): (r: seq<Node>)
    requires Linked(cells) && InCells(cells, hs)
    ensures |r| == |cells| && SameLinks(cells, r)
    ensures forall p :: 0 <= p < |cells| && cells[p].Parent? ==>
      r[p] == Parent(cells[p].sample, cells[p].refCount - ChildrenOf(cells, hs, p))
    decreases |hs|
  {
    if hs == [] then cells
    else
      var n := |hs| - 1;
      var c := Release(cells, hs[..n]);
      var h := hs[n];
      if cells[h].Child? then
        var p := cells[h].parent;
        c[p := c[p].(refCount := c[p].refCount - 1)]
      else c
  }

  /** The cells after every root in `rs` has gained one reference per occurrence. */
  function Retain(cells: seq<Node>, rs: seq<Handle>): (r: seq<Node>)
    requires ParentsAt(cells, rs)
    ensures |r| == |cells| && SameLinks(cells, r)
    ensures forall p :: 0 <= p < |cells| && cells[p].Parent? ==>
      r[p] == Parent(cells[p].sample, cells[p].refCount + Occurrences(rs, p))
    decreases |rs|
  {
    if rs == [] then cells
    else
      var n := |rs| - 1;
      var c := Retain(cells, rs[..n]);
      c[rs[n] := c[rs[n]].(refCount := c[rs[n]].refCount + 1)]
  }

  lemma {:induction false} OccurrencesNone(rs: seq<Handle>, p: Handle)
    requires forall i :: 0 <= i < |rs| ==> rs[i] != p
    ensures Occurrences(rs, p) == 0
    decreases |rs|
  {
    if rs != [] { OccurrencesNone(rs[..|rs| - 1], p); }
  }

  /** `cells'` extends `cells`, keeps its links and every old parent's sample. */
  ghost predicate SameSamples(cells: seq<Node>, cells': seq<Node>)
  {
    SameLinks(cells, cells') &&
    forall h :: 0 <= h < |cells| && cells[h].Parent? ==> cells'[h].sample == cells[h].sample
  }

  /** Reference counting and appending cells change no sample any node reads. */
  lemma SameSamplesResolve(cells: seq<Node>, cells': seq<Node>, hs: seq<Handle>)
    requires Linked(cells) && Linked(cells') && SameSamples(cells, cells') && InCells(cells, hs)
    ensures InCells(cells', hs)
    ensures Roots(cells', hs) == Roots(cells, hs)
    ensures Resolve(cells', hs) == Resolve(cells, hs)
  {
  }

  // ---------------------------------------------------------------------------
  // Slot bookkeeping

  /** `h` is not a spare slot of any track. */
  ghost predicate NotSpare(views: seq<Slots>, h: Handle)
  {
    forall j, i :: 0 <= j < |views| && 0 <= i < |views[j].spare| ==> views[j].spare[i] != h
  }

  /** The roots of live nodes are parents that are not spare slots. */
  lemma LiveRootsNotSpare(cells: seq<Node>, views: seq<Slots>, k: nat, hs: seq<Handle>)
    requires WellFormed(cells, views) && k < |views|
    requires forall i :: 0 <= i < |hs| ==> hs[i] in views[k].live
    ensures InCells(cells, hs)
    ensures ParentsAt(cells, Roots(cells, hs))
    ensures forall i :: 0 <= i < |hs| ==> NotSpare(views, Roots(cells, hs)[i])
  {
    forall i | 0 <= i < |hs| ensures hs[i] < |cells| {
      var m :| 0 <= m < |views[k].live| && views[k].live[m] == hs[i];
    }
    forall i | 0 <= i < |hs| ensures NotSpare(views, Roots(cells, hs)[i]) {
      var m :| 0 <= m < |views[k].live| && views[k].live[m] == hs[i];
      forall j, i2 | 0 <= j < |views| && 0 <= i2 < |views[j].spare|
        ensures views[j].spare[i2] != Roots(cells, hs)[i]
      {
        LiveRootIsNotSpare(cells, views, k, m, j, i2);
      }
    }
  }

  /** No other live node has as its root a live parent that nothing refers to. */
  lemma UnreferencedRoot(cells: seq<Node>, views: seq<Slots>, j: nat, i: nat, j': nat, i': nat)
    requires WellFormed(cells, views)
    requires j < |views| && i < |views[j].live| && j' < |views| && i' < |views[j'].live|
    requires (j, i) != (j', i')
    requires cells[views[j'].live[i']].Parent? && cells[views[j'].live[i']].refCount == 0
    ensures Root(cells, views[j].live[i]) != views[j'].live[i']
  {
    var h, h' := views[j].live[i], views[j'].live[i'];
    if cells[h].Parent? {
      assert views[j].All()[i] == h && views[j'].All()[i'] == h';
      if j != j' { assert Apart(views, j, i, j', i'); }
    } else if cells[h].parent == h' {
      LiveSlotsAround(views, j, views[j]);
      assert LiveSlots(views)[|LiveSlots(views[..j])| + i] == h;
      assert Counted(cells, views, h');
      ChildrenOfPositive(cells, LiveSlots(views), h', |LiveSlots(views[..j])| + i);
      assert false;
    }
  }

  /** Removing a run of slots keeps a sequence without duplicates. */
  lemma DistinctRemove(x: seq<Handle>, lo: nat, hi: nat)
    requires lo <= hi <= |x| && Distinct(x)
    ensures Distinct(x[..lo] + x[hi..])
    ensures forall i :: 0 <= i < |x[..lo] + x[hi..]| ==> (x[..lo] + x[hi..])[i] in x
  {
    var y := x[..lo] + x[hi..];
    forall i | 0 <= i < |y| ensures y[i] == x[if i < lo then i else i + hi - lo] {}
  }

  /** Splicing in fresh handles keeps a sequence without duplicates. */
  lemma DistinctSpliceFresh(a: seq<Handle>, b: seq<Handle>, n: nat, m: nat)
    requires Distinct(a + b) && InCellsBelow(a + b, n)
    ensures Distinct(a + Fresh(n, m) + b)
    ensures forall i :: 0 <= i < |a + Fresh(n, m) + b| ==>
      (a + Fresh(n, m) + b)[i] in a + b || (a + Fresh(n, m) + b)[i] >= n
  {
    var y := a + Fresh(n, m) + b;
    forall i | 0 <= i < |y|
      ensures y[i] == if i < |a| then (a + b)[i] else if i < |a| + m then n + i - |a| else (a + b)[i - m]
    {}
    forall i, j | 0 <= i < j < |y| ensures y[i] != y[j] {
      if i < |a| && j >= |a| + m {
        assert (a + b)[i] != (a + b)[j - m];
      } else if i >= |a| + m {
        assert (a + b)[i - m] != (a + b)[j - m];
      } else if i < |a| && j < |a| {
        assert (a + b)[i] != (a + b)[j];
      } else if i < |a| {
        assert y[i] == (a + b)[i] < n <= y[j];
      } else if j < |a| + m {
        assert y[i] == n + i - |a| < n + j - |a| == y[j];
      } else {
        assert y[j] == (a + b)[j - m] < n <= y[i];
      }
    }
  }

  ghost predicate InCellsBelow(hs: seq<Handle>, n: nat)
  {
    forall i :: 0 <= i < |hs| ==> hs[i] < n
  }

  /**
   * Counting the live children of `p` after track `k`'s slots become `v` and
   * the cells become `cells'`: the other tracks count as before.
   */
  lemma CountAround(cells: seq<Node>, cells': seq<Node>, views: seq<Slots>, k: nat, v: Slots, p: Handle)
    requires WellFormed(cells, views) && k < |views| && SameLinks(cells, cells')
    ensures ChildrenOf(cells', LiveSlots(views[k := v]), p) ==
      ChildrenOf(cells, LiveSlots(views), p) - ChildrenOf(cells, views[k].live, p) + ChildrenOf(cells', v.live, p)
    ensures ChildrenOf(cells, views[k].live, p) <= ChildrenOf(cells, LiveSlots(views), p)
  {
    LiveSlotsAround(views, k, v);
    var before, after := LiveSlots(views[..k]), LiveSlots(views[k + 1..]);
    LiveSlotsInCells(cells, views[..k]);
    LiveSlotsInCells(cells, views[k + 1..]);
    ChildrenOfConcat(cells, before + views[k].live, after, p);
    ChildrenOfConcat(cells, before, views[k].live, p);
    ChildrenOfConcat(cells', before + v.live, after, p);
    ChildrenOfConcat(cells', before, v.live, p);
    ChildrenOfSameLinks(cells, cells', before, p);
    ChildrenOfSameLinks(cells, cells', after, p);
  }

  /** A parent that did not exist before has no live child among old cells. */
  lemma NoChildOfNew(cells: seq<Node>, cells': seq<Node>, hs: seq<Handle>, p: Handle)
    requires Linked(cells) && SameLinks(cells, cells') && InCells(cells, hs) && p >= |cells|
    ensures ChildrenOf(cells', hs, p) == 0
  {
    forall i | 0 <= i < |hs| ensures !IsChildOf(cells', hs[i], p) {
      assert cells'[hs[i]].Child? == cells[hs[i]].Child?;
    }
    ChildrenOfNone(cells', hs, p);
  }

  // ---------------------------------------------------------------------------
  // Each operation keeps the invariant

  /** tr_init: a new empty track. */
  lemma InitKeeps(cells: seq<Node>, views: seq<Slots>)
    requires WellFormed(cells, views)
    ensures WellFormed(cells, views + [Slots([], [])])
  {
    var vs := views + [Slots([], [])];
    assert vs[..|views|] == views;
    assert LiveSlots(vs) == LiveSlots(views);
    assert Slots([], []).All() == [];
    forall j: nat, i: nat ensures SpareZero(cells, vs, j, i) {
      assert SpareZero(cells, views, j, i);
    }
    forall j1: nat, j2: nat, i1: nat, i2: nat | j1 != j2 ensures Apart(vs, j1, i1, j2, i2) {
      assert Apart(views, j1, i1, j2, i2);
    }
    forall p: nat ensures Counted(cells, vs, p) {
      assert Counted(cells, views, p);
    }
  }

  /** tr_resize: `extra` zeroed parents appended to track `k`'s spare slots. */
  lemma ResizeKeeps(cells: seq<Node>, views: seq<Slots>, k: nat, extra: nat)
    requires WellFormed(cells, views) && k < |views|
    ensures WellFormed(cells + Zeros(extra),
                       views[k := Slots(views[k].live, views[k].spare + Fresh(|cells|, extra))])
  {
    var c' := cells + Zeros(extra);
    var v := Slots(views[k].live, views[k].spare + Fresh(|cells|, extra));
    var vs := views[k := v];
    assert SameLinks(cells, c');
    AllInCells(cells, views, k);
    assert v.All() == views[k].All() + Fresh(|cells|, extra) + [];
    assert views[k].All() + [] == views[k].All();
    DistinctSpliceFresh(views[k].All(), [], |cells|, extra);
    ReplaceUnshared(cells, views, k, v);
    forall j: nat, i: nat ensures SpareZero(c', vs, j, i) {
      if j == k && |views[k].spare| <= i < |vs[j].spare| {
        assert vs[j].spare[i] == |cells| + (i - |views[k].spare|);
      } else {
        assert SpareZero(cells, views, j, i);
      }
    }
    forall p: nat ensures Counted(c', vs, p) {
      if p < |c'| && c'[p].Parent? {
        CountAround(cells, c', views, k, v, p);
        ChildrenOfSameLinks(cells, c', views[k].live, p);
        assert Counted(cells, views, p);
        if p >= |cells| {
          LiveSlotsInCells(cells, views);
          NoChildOfNew(cells, cells, LiveSlots(views), p);
        }
      }
    }
  }

  /** tr_write growing `length`: the first `m` spare slots of track `k` become live. */
  lemma GrowKeeps(cells: seq<Node>, views: seq<Slots>, k: nat, m: nat)
    requires WellFormed(cells, views) && k < |views| && m <= |views[k].spare|
    ensures WellFormed(cells, views[k := Slots(views[k].live + views[k].spare[..m], views[k].spare[m..])])
  {
    var sp := views[k].spare;
    var v := Slots(views[k].live + sp[..m], sp[m..]);
    var vs := views[k := v];
    assert v.All() == views[k].All();
    assert Distinct(v.All());
    forall i | 0 <= i < |v.All()| ensures v.All()[i] in views[k].All() {}
    ReplaceUnshared(cells, views, k, v);
    forall i | 0 <= i < |v.live| ensures v.live[i] < |cells| {
      if i >= |views[k].live| {
        assert v.live[i] == sp[i - |views[k].live|];
        assert SpareZero(cells, views, k, i - |views[k].live|);
      }
    }
    forall j: nat, i: nat ensures SpareZero(cells, vs, j, i) {
      if j == k && i < |vs[j].spare| {
        assert vs[j].spare[i] == sp[m + i];
        assert SpareZero(cells, views, k, m + i);
      } else {
        assert SpareZero(cells, views, j, i);
      }
    }
    forall p: nat ensures Counted(cells, vs, p) {
      if p < |cells| && cells[p].Parent? {
        CountAround(cells, cells, views, k, v, p);
        ChildrenOfConcat(cells, views[k].live, sp[..m], p);
        forall i | 0 <= i < m ensures !IsChildOf(cells, sp[..m][i], p) {
          assert SpareZero(cells, views, k, i);
        }
        ChildrenOfNone(cells, sp[..m], p);
        assert Counted(cells, views, p);
      }
    }
  }

  /** tr_write's loop: samples stamped into parents that are not spare slots. */
  lemma StampKeeps(cells: seq<Node>, views: seq<Slots>, rs: seq<Handle>, src: seq<int16>)
    requires WellFormed(cells, views) && |rs| == |src| && ParentsAt(cells, rs)
    requires forall i :: 0 <= i < |rs| ==> NotSpare(views, rs[i])
    ensures WellFormed(Stamp(cells, rs, src), views)
  {
    var c' := Stamp(cells, rs, src);
    StampLinks(cells, rs, src);
    forall j: nat, i: nat ensures SpareZero(c', views, j, i) {
      assert SpareZero(cells, views, j, i);
      if j < |views| && i < |views[j].spare| {
        StampAt(cells, rs, src, views[j].spare[i]);
      }
    }
    LiveSlotsInCells(cells, views);
    forall p: nat ensures Counted(c', views, p) {
      assert Counted(cells, views, p);
      ChildrenOfSameLinks(cells, c', LiveSlots(views), p);
    }
  }

  /** The window `[pos, pos + n)` of track `k`'s live slots. */
  function WindowOf(views: seq<Slots>, k: nat, pos: nat, n: nat): seq<Handle>
    requires k < |views| && pos + n <= |views[k].live|
  {
    views[k].live[pos..pos + n]
  }

  /** The roots of a live window are parents that are not spare slots; the write keeps the invariant. */
  lemma StoreKeeps(cells: seq<Node>, views: seq<Slots>, k: nat, pos: nat, src: seq<int16>)
    requires WellFormed(cells, views) && k < |views| && pos + |src| <= |views[k].live|
    ensures InCells(cells, WindowOf(views, k, pos, |src|))
    ensures ParentsAt(cells, Roots(cells, WindowOf(views, k, pos, |src|)))
    ensures WellFormed(Stamp(cells, Roots(cells, WindowOf(views, k, pos, |src|)), src), views)
  {
    var hs := WindowOf(views, k, pos, |src|);
    assert forall i :: 0 <= i < |hs| ==> hs[i] == views[k].live[pos + i];
    LiveRootsNotSpare(cells, views, k, hs);
    StampKeeps(cells, views, Roots(cells, hs), src);
  }

  /** After tr_write, each node of the window reads the last sample aimed at its own root. */
  lemma WriteWindow(cells: seq<Node>, live: seq<Handle>, pos: nat, src: seq<int16>)
    requires Linked(cells) && InCells(cells, live) && pos + |src| <= |live|
    ensures var rs := Roots(cells, live[pos..pos + |src|]);
      ParentsAt(cells, rs) && Linked(Stamp(cells, rs, src)) &&
      forall i :: 0 <= i < |src| ==> Resolve(Stamp(cells, rs, src), live)[pos + i] == src[LastIndex(rs, rs[i])]
  {
    var hs := live[pos..pos + |src|];
    var rs := Roots(cells, hs);
    StampLinks(cells, rs, src);
    forall i | 0 <= i < |src| ensures Resolve(Stamp(cells, rs, src), live)[pos + i] == src[LastIndex(rs, rs[i])] {
      assert hs[i] == live[pos + i];
      StampSample(cells, rs, src, hs[i]);
    }
  }

  /** After tr_write through a window whose roots are distinct, the window reads back `src`. */
  lemma WriteReadBack(cells: seq<Node>, live: seq<Handle>, pos: nat, src: seq<int16>)
    requires Linked(cells) && InCells(cells, live) && pos + |src| <= |live|
    requires Distinct(Roots(cells, live[pos..pos + |src|]))
    ensures var rs := Roots(cells, live[pos..pos + |src|]);
      ParentsAt(cells, rs) && Linked(Stamp(cells, rs, src)) &&
      Resolve(Stamp(cells, rs, src), live)[pos..pos + |src|] == src
  {
    var hs := live[pos..pos + |src|];
    var rs := Roots(cells, hs);
    StampReadBack(cells, hs, src);
    assert Resolve(Stamp(cells, rs, src), live)[pos..pos + |src|] == Resolve(Stamp(cells, rs, src), hs);
  }

  /** After tr_write, a live parent outside the window that nothing refers to still reads its old sample. */
  lemma WriteMisses(cells: seq<Node>, views: seq<Slots>, k: nat, pos: nat, src: seq<int16>, q: nat)
    requires WellFormed(cells, views) && k < |views| && pos + |src| <= |views[k].live|
    requires q < |views[k].live| && !(pos <= q < pos + |src|)
    requires cells[views[k].live[q]].Parent? && cells[views[k].live[q]].refCount == 0
    ensures InCells(cells, WindowOf(views, k, pos, |src|))
    ensures var rs := Roots(cells, WindowOf(views, k, pos, |src|));
      views[k].live[q] !in rs
  {
    var hs := WindowOf(views, k, pos, |src|);
    assert forall i :: 0 <= i < |hs| ==> hs[i] == views[k].live[pos + i];
    forall w | 0 <= w < |src| ensures Roots(cells, hs)[w] != views[k].live[q] {
      UnreferencedRoot(cells, views, k, pos + w, k, q);
    }
  }

  /**
   * tr_delete_range's slots for live slots `[pos, end)`: the later live slots
   * move down and the vacated slots at the end become `end - pos` fresh
   * zeroed parents, numbered from `n`.
   */
  function DeleteSlots(s: Slots, n: nat, pos: nat, end: nat): Slots
    requires pos <= end <= |s.live|
  {
    Slots(s.live[..pos] + s.live[end..], Fresh(n, end - pos) + s.spare)
  }

  /** The cells after tr_delete_range: the removed children give back their references. */
  function DeleteCells(cells: seq<Node>, removed: seq<Handle>): seq<Node>
    requires Linked(cells) && InCells(cells, removed)
  {
    Release(cells, removed) + Zeros(|removed|)
  }

  lemma DeleteUnshared(cells: seq<Node>, views: seq<Slots>, k: nat, pos: nat, end: nat)
    requires WellFormed(cells, views) && k < |views| && pos <= end <= |views[k].live|
    ensures Unshared(views[k := DeleteSlots(views[k], |cells|, pos, end)])
    ensures InCells(cells, DeleteSlots(views[k], |cells|, pos, end).live)
  {
    var live, sp := views[k].live, views[k].spare;
    var m := end - pos;
    var v := DeleteSlots(views[k], |cells|, pos, end);
    AllInCells(cells, views, k);
    var all := views[k].All();
    assert all[..pos] == live[..pos];
    assert all[end..] == live[end..] + sp;
    DistinctRemove(all, pos, end);
    var kept := live[..pos] + live[end..] + sp;
    assert kept == all[..pos] + all[end..];
    assert InCellsBelow(kept, |cells|) by {
      forall i | 0 <= i < |kept| ensures kept[i] < |cells| {
        assert kept[i] in all;
      }
    }
    DistinctSpliceFresh(live[..pos] + live[end..], sp, |cells|, m);
    assert v.All() == live[..pos] + live[end..] + Fresh(|cells|, m) + sp;
    ReplaceUnshared(cells, views, k, v);
    forall i | 0 <= i < |v.live| ensures v.live[i] < |cells| {
      if i < pos { assert v.live[i] == live[i]; } else { assert v.live[i] == live[i - pos + end]; }
    }
  }

  lemma DeleteCounts(cells: seq<Node>, views: seq<Slots>, k: nat, pos: nat, end: nat)
    requires WellFormed(cells, views) && k < |views| && pos <= end <= |views[k].live|
    requires InCells(cells, views[k].live[pos..end])
    ensures AllCounted(DeleteCells(cells, views[k].live[pos..end]), views[k := DeleteSlots(views[k], |cells|, pos, end)])
  {
    var live := views[k].live;
    var removed := live[pos..end];
    var c' := DeleteCells(cells, removed);
    var v := DeleteSlots(views[k], |cells|, pos, end);
    assert SameLinks(cells, c');
    assert live == live[..pos] + removed + live[end..];
    var vs := views[k := v];
    forall p: nat ensures Counted(c', vs, p) {
      if p < |c'| && c'[p].Parent? {
        CountAround(cells, c', views, k, v, p);
        ChildrenOfConcat(cells, live[..pos] + removed, live[end..], p);
        ChildrenOfConcat(cells, live[..pos], removed, p);
        ChildrenOfConcat(cells, live[..pos], live[end..], p);
        ChildrenOfSameLinks(cells, c', v.live, p);
        assert Counted(cells, views, p);
        if p >= |cells| {
          LiveSlotsInCells(cells, views);
          NoChildOfNew(cells, cells, LiveSlots(views), p);
        }
      }
    }
  }

  lemma DeleteSpares(cells: seq<Node>, views: seq<Slots>, k: nat, pos: nat, end: nat)
    requires WellFormed(cells, views) && k < |views| && pos <= end <= |views[k].live|
    requires InCells(cells, views[k].live[pos..end])
    ensures AllSpareZero(DeleteCells(cells, views[k].live[pos..end]), views[k := DeleteSlots(views[k], |cells|, pos, end)])
  {
    var live, sp := views[k].live, views[k].spare;
    var removed := live[pos..end];
    var m := end - pos;
    var c' := DeleteCells(cells, removed);
    var vs := views[k := DeleteSlots(views[k], |cells|, pos, end)];
    assert live == live[..pos] + removed + live[end..];
    forall j: nat, i: nat ensures SpareZero(c', vs, j, i) {
      if j >= |vs| || i >= |vs[j].spare| {
      } else if j == k && i < m {
        assert vs[j].spare[i] == |cells| + i;
      } else {
        var ii := if j == k then i - m else i;
        var s := views[j].spare[ii];
        assert vs[j].spare[i] == s;
        assert SpareZero(cells, views, j, ii);
        assert Counted(cells, views, s);
        CountAround(cells, cells, views, k, views[k], s);
        ChildrenOfConcat(cells, live[..pos] + removed, live[end..], s);
        ChildrenOfConcat(cells, live[..pos], removed, s);
      }
    }
  }

  /**
   * tr_delete_range on track `k`, live slots `[pos, end)`: the children there
   * give back their references, the later live slots move down, and the
   * vacated slots at the end become fresh zeroed spare slots.
   */
  lemma DeleteKeeps(cells: seq<Node>, views: seq<Slots>, k: nat, pos: nat, end: nat)
    requires WellFormed(cells, views) && k < |views| && pos <= end <= |views[k].live|
    ensures InCells(cells, views[k].live[pos..end])
    ensures WellFormed(DeleteCells(cells, views[k].live[pos..end]),
                       views[k := DeleteSlots(views[k], |cells|, pos, end)])
  {
    var removed := views[k].live[pos..end];
    assert InCells(cells, removed) by {
      forall i | 0 <= i < |removed| ensures removed[i] < |cells| {
        assert removed[i] == views[k].live[pos + i];
      }
    }
    var c' := DeleteCells(cells, removed);
    var vs := views[k := DeleteSlots(views[k], |cells|, pos, end)];
    assert SameLinks(cells, c');
    DeleteUnshared(cells, views, k, pos, end);
    DeleteCounts(cells, views, k, pos, end);
    DeleteSpares(cells, views, k, pos, end);
    forall j | 0 <= j < |vs| ensures InCells(c', vs[j].live) {}
  }

  /**
   * tr_insert's slots for `m` new children spliced in at `destpos`, numbered
   * from `n`: the later live slots move up over the first `m` spare slots.
   */
  function InsertSlots(s: Slots, n: nat, destpos: nat, m: nat): Slots
    requires destpos <= |s.live| && m <= |s.spare|
  {
    Slots(s.live[..destpos] + Fresh(n, m) + s.live[destpos..], s.spare[m..])
  }

  /** The cells after appending a child of the parent `p`, which gains one reference. */
  function WithChild(cells: seq<Node>, p: Handle): (r: seq<Node>)
    requires p < |cells| && cells[p].Parent?
    ensures |r| == |cells| + 1 && r[|cells|] == Child(p)
    ensures r[p] == Parent(cells[p].sample, cells[p].refCount + 1)
    ensures forall h :: 0 <= h < |cells| && h != p ==> r[h] == cells[h]
  {
    var c := cells + [Child(p)];
    c[p := c[p].(refCount := c[p].refCount + 1)]
  }

  /** One step of tr_insert's fill loop: append the child of `rs[i]`, then retain `rs[i]`. */
  lemma RetainStep(cells: seq<Node>, rs: seq<Handle>, i: nat)
    requires ParentsAt(cells, rs) && i < |rs|
    ensures ParentsAt(cells, rs[..i]) && ParentsAt(cells, rs[..i + 1])
    ensures var c := Retain(cells, rs[..i]) + ChildCells(rs[..i]);
      rs[i] < |c| && c[rs[i]].Parent? &&
      Retain(cells, rs[..i + 1]) + ChildCells(rs[..i + 1]) == WithChild(c, rs[i])
  {
    var a := rs[..i + 1];
    assert a[..i] == rs[..i];
    var r := Retain(cells, rs[..i]);
    assert ChildCells(a) == ChildCells(rs[..i]) + [Child(rs[i])];
    var c := r + ChildCells(rs[..i]);
    assert WithChild(c, rs[i]) == r[rs[i] := r[rs[i]].(refCount := r[rs[i]].refCount + 1)] + ChildCells(a);
  }

  /** The cells after tr_insert: one child per root in `rs`, each root retained once per child. */
  function InsertCells(cells: seq<Node>, rs: seq<Handle>): seq<Node>
    requires ParentsAt(cells, rs)
  {
    Retain(cells, rs) + ChildCells(rs)
  }

  /** The cells after the first `i` steps of tr_insert's fill loop over the roots `rs`. */
  ghost predicate FilledUpTo(c0: seq<Node>, rs: seq<Handle>, i: nat, cells: seq<Node>)
  {
    i <= |rs| && ParentsAt(c0, rs) && |cells| == |c0| + i && cells == Retain(c0, rs[..i]) + ChildCells(rs[..i])
  }

  /** Step `i` of the fill loop finds a parent at `rs[i]`, and appending its child gives the cells after step `i + 1`. */
  lemma FillStep(c0: seq<Node>, rs: seq<Handle>, i: nat, cells: seq<Node>)
    requires FilledUpTo(c0, rs, i, cells) && i < |rs|
    ensures rs[i] < |cells| && cells[rs[i]].Parent? && FilledUpTo(c0, rs, i + 1, WithChild(cells, rs[i]))
  {
    RetainStep(c0, rs, i);
  }

  /** After the last step the cells are InsertCells. */
  lemma FillDone(c0: seq<Node>, rs: seq<Handle>, cells: seq<Node>)
    requires FilledUpTo(c0, rs, |rs|, cells)
    ensures cells == InsertCells(c0, rs)
  {
    assert rs[..|rs|] == rs;
  }

  lemma InsertUnshared(cells: seq<Node>, views: seq<Slots>, k: nat, destpos: nat, m: nat)
    requires WellFormed(cells, views) && k < |views|
    requires destpos <= |views[k].live| && m <= |views[k].spare|
    ensures Unshared(views[k := InsertSlots(views[k], |cells|, destpos, m)])
  {
    var live, sp := views[k].live, views[k].spare;
    var v := InsertSlots(views[k], |cells|, destpos, m);
    AllInCells(cells, views, k);
    var all := views[k].All();
    assert all[..|live|] == live;
    assert all[|live| + m..] == sp[m..];
    DistinctRemove(all, |live|, |live| + m);
    var kept := live + sp[m..];
    assert kept == all[..|live|] + all[|live| + m..];
    assert InCellsBelow(kept, |cells|) by {
      forall i | 0 <= i < |kept| ensures kept[i] < |cells| {
        assert kept[i] in all;
      }
    }
    assert live[..destpos] + (live[destpos..] + sp[m..]) == kept;
    DistinctSpliceFresh(live[..destpos], live[destpos..] + sp[m..], |cells|, m);
    assert v.All() == live[..destpos] + Fresh(|cells|, m) + (live[destpos..] + sp[m..]);
    ReplaceUnshared(cells, views, k, v);
  }

  lemma InsertCounts(cells: seq<Node>, views: seq<Slots>, k: nat, destpos: nat, rs: seq<Handle>)
    requires WellFormed(cells, views) && k < |views|
    requires destpos <= |views[k].live| && |rs| <= |views[k].spare| && ParentsAt(cells, rs)
    ensures AllCounted(InsertCells(cells, rs), views[k := InsertSlots(views[k], |cells|, destpos, |rs|)])
  {
    var live := views[k].live;
    var n := |rs|;
    var c' := InsertCells(cells, rs);
    var v := InsertSlots(views[k], |cells|, destpos, n);
    assert SameLinks(cells, c');
    assert live[..destpos] + live[destpos..] == live;
    forall p: nat | p < |c'| && c'[p].Parent? ensures Counted(c', views[k := v], p) {
      assert p < |cells|;
      assert Counted(cells, views, p);
      CountAround(cells, c', views, k, v, p);
      ChildrenOfConcat(c', live[..destpos] + Fresh(|cells|, n), live[destpos..], p);
      ChildrenOfConcat(c', live[..destpos], Fresh(|cells|, n), p);
      ChildrenOfConcat(cells, live[..destpos], live[destpos..], p);
      ChildrenOfSameLinks(cells, c', live[..destpos], p);
      ChildrenOfSameLinks(cells, c', live[destpos..], p);
      ChildrenOfFresh(c', |cells|, rs, p);
    }
  }

  lemma InsertSpares(cells: seq<Node>, views: seq<Slots>, k: nat, destpos: nat, rs: seq<Handle>)
    requires WellFormed(cells, views) && k < |views|
    requires destpos <= |views[k].live| && |rs| <= |views[k].spare|
    requires ParentsAt(cells, rs) && forall i :: 0 <= i < |rs| ==> NotSpare(views, rs[i])
    ensures AllSpareZero(InsertCells(cells, rs), views[k := InsertSlots(views[k], |cells|, destpos, |rs|)])
  {
    var sp := views[k].spare;
    var n := |rs|;
    var c' := InsertCells(cells, rs);
    var vs := views[k := InsertSlots(views[k], |cells|, destpos, n)];
    forall j: nat, i: nat | j < |vs| && i < |vs[j].spare| ensures SpareZero(c', vs, j, i) {
      var ii := if j == k then n + i else i;
      var s := views[j].spare[ii];
      assert vs[j].spare[i] == s;
      assert SpareZero(cells, views, j, ii);
      forall l | 0 <= l < |rs| ensures rs[l] != s {
        assert NotSpare(views, rs[l]);
      }
      OccurrencesNone(rs, s);
    }
  }

  /**
   * tr_insert into track `k` at `destpos`: one fresh child per root in `rs`,
   * spliced in at `destpos`; every root gains a reference per child; the
   * first `|rs|` spare slots are overwritten by the shift.
   */
  lemma InsertKeeps(cells: seq<Node>, views: seq<Slots>, k: nat, destpos: nat, rs: seq<Handle>)
    requires WellFormed(cells, views) && k < |views|
    requires destpos <= |views[k].live| && |rs| <= |views[k].spare|
    requires ParentsAt(cells, rs) && forall i :: 0 <= i < |rs| ==> NotSpare(views, rs[i])
    ensures WellFormed(InsertCells(cells, rs), views[k := InsertSlots(views[k], |cells|, destpos, |rs|)])
  {
    var live := views[k].live;
    var n := |rs|;
    var c' := InsertCells(cells, rs);
    var v := InsertSlots(views[k], |cells|, destpos, n);
    var vs := views[k := v];
    assert SameLinks(cells, c');
    assert Linked(c') by {
      forall h | 0 <= h < |c'| && c'[h].Child? ensures c'[h].parent < |c'| && c'[c'[h].parent].Parent? {
        if h >= |cells| { assert c'[h] == Child(rs[h - |cells|]); }
      }
    }
    InsertUnshared(cells, views, k, destpos, n);
    InsertCounts(cells, views, k, destpos, rs);
    InsertSpares(cells, views, k, destpos, rs);
    forall i | 0 <= i < |v.live| ensures v.live[i] < |c'| {
      if i < destpos { assert v.live[i] == live[i]; }
      else if i >= destpos + n { assert v.live[i] == live[i - n]; }
    }
    forall j | 0 <= j < |vs| ensures InCells(c', vs[j].live) {}
  }

  /** tr_destroy leaves every spare slot of the remaining tracks a zeroed parent. */
  lemma DestroySpare(cells: seq<Node>, views: seq<Slots>, k: nat)
    requires WellFormed(cells, views) && k < |views|
    ensures AllSpareZero(Release(cells, views[k].live), views[..k] + views[k + 1..])
  {
    var c' := Release(cells, views[k].live);
    var vs := views[..k] + views[k + 1..];
    forall j: nat, i: nat ensures SpareZero(c', vs, j, i) {
      var jj := if j < k then j else j + 1;
      assert SpareZero(cells, views, jj, i);
      if j < |vs| && i < |vs[j].spare| {
        assert vs[j] == views[jj];
        var s := views[jj].spare[i];
        assert Counted(cells, views, s);
        CountAround(cells, cells, views, k, views[k], s);
      }
    }
  }

  /** After tr_destroy each parent is referred to by exactly the children left in the remaining tracks. */
  lemma DestroyCounts(cells: seq<Node>, views: seq<Slots>, k: nat)
    requires WellFormed(cells, views) && k < |views|
    ensures AllCounted(Release(cells, views[k].live), views[..k] + views[k + 1..])
  {
    var c' := Release(cells, views[k].live);
    var vs := views[..k] + views[k + 1..];
    LiveSlotsAround(views, k, views[k]);
    LiveSlotsConcat(views[..k], views[k + 1..]);
    LiveSlotsInCells(cells, views[..k]);
    LiveSlotsInCells(cells, views[k + 1..]);
    forall p: nat | p < |c'| && c'[p].Parent? ensures Counted(c', vs, p) {
      assert Counted(cells, views, p);
      ChildrenOfConcat(cells, LiveSlots(views[..k]) + views[k].live, LiveSlots(views[k + 1..]), p);
      ChildrenOfConcat(cells, LiveSlots(views[..k]), views[k].live, p);
      ChildrenOfConcat(c', LiveSlots(views[..k]), LiveSlots(views[k + 1..]), p);
      ChildrenOfSameLinks(cells, c', LiveSlots(views[..k]), p);
      ChildrenOfSameLinks(cells, c', LiveSlots(views[k + 1..]), p);
    }
  }

  /** tr_destroy of track `k`: its children give back their references and the track is gone. */
  lemma DestroyKeeps(cells: seq<Node>, views: seq<Slots>, k: nat)
    requires WellFormed(cells, views) && k < |views|
    ensures WellFormed(Release(cells, views[k].live), views[..k] + views[k + 1..])
  {
    var c' := Release(cells, views[k].live);
    var vs := views[..k] + views[k + 1..];
    assert forall j :: 0 <= j < |vs| ==> vs[j] == views[if j < k then j else j + 1];
    assert Linked(c');
    forall j1: nat, j2: nat, i1: nat, i2: nat | j1 != j2 ensures Apart(vs, j1, i1, j2, i2) {
      assert Apart(views, if j1 < k then j1 else j1 + 1, i1, if j2 < k then j2 else j2 + 1, i2);
    }
    DestroySpare(cells, views, k);
    DestroyCounts(cells, views, k);
  }
}
