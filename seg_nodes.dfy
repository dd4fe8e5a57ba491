/**
 * The node store of sound_seg.c, as values.  A track is an array of nodes; a
 * node is either a parent, owning one sample and counting the children that
 * alias it, or a child, which reads and writes through its parent.  Nodes are
 * kept here as cells of one arena addressed by stable handles, so that "this
 * child refers to that parent" survives every reallocation and shift of a
 * track's array.
 */
module SegNodes {
  import opened Basics

  /** The stable name of a node cell in the arena. */
  type Handle = nat

  /** `struct sound_seg_node` without its address-level union. */
  datatype Node = Parent(sample: int16, refCount: int) | Child(parent: Handle)

  /** The node `tr_resize` puts into every slot it adds. */
  const ZeroParent: Node := Parent(0, 0)

  /** Every child names a cell that holds a parent. */
  ghost predicate Linked(cells: seq<Node>)
  {
    forall h :: 0 <= h < |cells| && cells[h].Child? ==>
      cells[h].parent < |cells| && cells[cells[h].parent].Parent?
  }

  ghost predicate InCells(cells: seq<Node>, hs: seq<Handle>)
  {
    forall i :: 0 <= i < |hs| ==> hs[i] < |cells|
  }

  /** No node of `hs` is a parent that some child refers to: tr_delete_range's check. */
  ghost predicate NoneReferenced(cells: seq<Node>, hs: seq<Handle>)
    requires InCells(cells, hs)
  {
    forall i :: 0 <= i < |hs| ==> !(cells[hs[i]].Parent? && cells[hs[i]].refCount > 0)
  }

  /** The parent a node reads and writes through: itself, or the parent it refers to. */
  function Root(cells: seq<Node>, h: Handle): (r: Handle)
    requires Linked(cells) && h < |cells|
    ensures r < |cells| && cells[r].Parent?
  {
    if cells[h].Parent? then h else cells[h].parent
  }

  /** The sample a node reads: that of its root parent. */
  function SampleAt(cells: seq<Node>, h: Handle): int16
    requires Linked(cells) && h < |cells|
  {
    cells[Root(cells, h)].sample
  }

  /** The samples a run of nodes reads. */
  function Resolve(cells: seq<Node>, hs: seq<Handle>): seq<int16>
    requires Linked(cells) && InCells(cells, hs)
  {
    seq(|hs|, i requires 0 <= i < |hs| => SampleAt(cells, hs[i]))
  }

  /** A slice of the live prefix `a[..n]` is the same slice of `a`. */
  lemma PrefixSlice(a: seq<Handle>, n: nat, i: nat, j: nat)
    requires i <= j <= n <= |a|
    ensures a[..n][i..j] == a[i..j]
  {
  }

  /** The samples of a slice of a run are the slice of the run's samples. */
  lemma ResolveSlice(cells: seq<Node>, hs: seq<Handle>, i: nat, j: nat)
    requires Linked(cells) && InCells(cells, hs) && i <= j <= |hs|
    ensures InCells(cells, hs[i..j]) && Resolve(cells, hs)[i..j] == Resolve(cells, hs[i..j])
  {
    assert InCells(cells, hs[i..j]) by {
      forall q | 0 <= q < j - i ensures hs[i..j][q] < |cells| {
        assert hs[i..j][q] == hs[i + q];
      }
    }
  }

  /** The root parents of a run of nodes. */
  function Roots(cells: seq<Node>, hs: seq<Handle>): seq<Handle>
    requires Linked(cells) && InCells(cells, hs)
  {
    seq(|hs|, i requires 0 <= i < |hs| => Root(cells, hs[i]))
  }

  /** `n` zeroed parents. */
  function Zeros(n: nat): seq<Node>
  {
    seq(n, _ => ZeroParent)
  }

  /** The handles `start`, `start + 1`, ..., `start + n - 1`. */
  function Fresh(start: nat, n: nat): seq<Handle>
  {
    seq(n, i requires 0 <= i < n => start + i)
  }

  /** One child cell per root, in order. */
  function ChildCells(rs: seq<Handle>): seq<Node>
  {
    seq(|rs|, i requires 0 <= i < |rs| => Child(rs[i]))
  }

  // ---------------------------------------------------------------------------
  // Counting children

  predicate IsChildOf(cells: seq<Node>, h: Handle, p: Handle)
  {
    h < |cells| && cells[h] == Child(p)
  }

  /** How many of the nodes `hs` are children of `p`. */
  function ChildrenOf(cells: seq<Node>, hs: seq<Handle>, p: Handle): nat
    decreases |hs|
  {
    if hs == [] then 0
    else ChildrenOf(cells, hs[..|hs| - 1], p) + (if IsChildOf(cells, hs[|hs| - 1], p) then 1 else 0)
  }

  /** How many entries of `rs` are `p`. */
  function Occurrences(rs: seq<Handle>, p: Handle): nat
    decreases |rs|
  {
    if rs == [] then 0
    else Occurrences(rs[..|rs| - 1], p) + (if rs[|rs| - 1] == p then 1 else 0)
  }

  lemma {:induction false} ChildrenOfConcat(cells: seq<Node>, a: seq<Handle>, b: seq<Handle>, p: Handle)
    ensures ChildrenOf(cells, a + b, p) == ChildrenOf(cells, a, p) + ChildrenOf(cells, b, p)
    decreases |b|
  {
    if b == [] {
      assert a + b == a;
    } else {
      assert (a + b)[..|a + b| - 1] == a + b[..|b| - 1];
      ChildrenOfConcat(cells, a, b[..|b| - 1], p);
    }
  }

  lemma {:induction false} ChildrenOfNone(cells: seq<Node>, hs: seq<Handle>, p: Handle)
    requires forall i :: 0 <= i < |hs| ==> !IsChildOf(cells, hs[i], p)
    ensures ChildrenOf(cells, hs, p) == 0
    decreases |hs|
  {
    if hs != [] {
      ChildrenOfNone(cells, hs[..|hs| - 1], p);
    }
  }

  lemma {:induction false} ChildrenOfPositive(cells: seq<Node>, hs: seq<Handle>, p: Handle, i: nat)
    requires i < |hs| && IsChildOf(cells, hs[i], p)
    ensures ChildrenOf(cells, hs, p) > 0
    decreases |hs|
  {
    if i < |hs| - 1 {
      ChildrenOfPositive(cells, hs[..|hs| - 1], p, i);
    }
  }

  /** Counting depends only on which of the counted nodes are children of `p`. */
  lemma {:induction false} ChildrenOfSame(cells: seq<Node>, cells': seq<Node>, hs: seq<Handle>, p: Handle)
    requires forall i :: 0 <= i < |hs| ==> IsChildOf(cells', hs[i], p) == IsChildOf(cells, hs[i], p)
    ensures ChildrenOf(cells', hs, p) == ChildrenOf(cells, hs, p)
    decreases |hs|
  {
    if hs != [] {
      ChildrenOfSame(cells, cells', hs[..|hs| - 1], p);
    }
  }

  /** The fresh children made for roots `rs` count, per parent, as often as it occurs in `rs`. */
  lemma {:induction false} ChildrenOfFresh(cells: seq<Node>, n: nat, rs: seq<Handle>, p: Handle)
    requires n + |rs| <= |cells|
    requires forall i :: 0 <= i < |rs| ==> cells[n + i] == Child(rs[i])
    ensures ChildrenOf(cells, Fresh(n, |rs|), p) == Occurrences(rs, p)
    decreases |rs|
  {
    if rs != [] {
      var m := |rs| - 1;
      assert Fresh(n, |rs|)[..m] == Fresh(n, m);
      ChildrenOfFresh(cells, n, rs[..m], p);
    }
  }

  // ---------------------------------------------------------------------------
  // Cells that keep their links

  /** `cells'` extends `cells`, and every old cell keeps its kind and, if a child, its parent. */
  ghost predicate SameLinks(cells: seq<Node>, cells': seq<Node>)
  {
    |cells| <= |cells'| &&
    forall h :: 0 <= h < |cells| ==>
      cells'[h].Child? == cells[h].Child? && (cells[h].Child? ==> cells'[h] == cells[h])
  }

  lemma ChildrenOfSameLinks(cells: seq<Node>, cells': seq<Node>, hs: seq<Handle>, p: Handle)
    requires SameLinks(cells, cells') && InCells(cells, hs)
    ensures ChildrenOf(cells', hs, p) == ChildrenOf(cells, hs, p)
  {
    ChildrenOfSame(cells, cells', hs, p);
  }

  // ---------------------------------------------------------------------------
  // Tracks as the invariant sees them

  /**
   * One track's node array: the live slots `[0, length)` and the spare slots
   * `[length, capacity)`.
   */
  datatype Slots = Slots(live: seq<Handle>, spare: seq<Handle>)
  {
    function All(): seq<Handle> { live + spare }
  }

  ghost predicate Distinct(hs: seq<Handle>)
  {
    forall i, j :: 0 <= i < j < |hs| ==> hs[i] != hs[j]
  }

  /** Slot `i1` of track `j1` and slot `i2` of track `j2` hold different cells. */
  ghost predicate Apart(views: seq<Slots>, j1: nat, i1: nat, j2: nat, i2: nat)
  {
    j1 < |views| && j2 < |views| && i1 < |views[j1].All()| && i2 < |views[j2].All()| ==>
      views[j1].All()[i1] != views[j2].All()[i2]
  }

  /** No cell sits in two slots, within one track or across tracks. */
  ghost predicate Unshared(views: seq<Slots>)
  {
    && (forall j :: 0 <= j < |views| ==> Distinct(views[j].All()))
    && (forall j1: nat, j2: nat, i1: nat, i2: nat :: j1 != j2 ==> Apart(views, j1, i1, j2, i2))
  }

  /** The live slots of all tracks, track after track. */
  function LiveSlots(views: seq<Slots>): seq<Handle>
    decreases |views|
  {
    if views == [] then [] else LiveSlots(views[..|views| - 1]) + views[|views| - 1].live
  }

  lemma {:induction false} LiveSlotsConcat(a: seq<Slots>, b: seq<Slots>)
    ensures LiveSlots(a + b) == LiveSlots(a) + LiveSlots(b)
    decreases |b|
  {
    if b == [] {
      assert a + b == a;
    } else {
      assert (a + b)[..|a + b| - 1] == a + b[..|b| - 1];
      LiveSlotsConcat(a, b[..|b| - 1]);
    }
  }

  /** The live slots of all tracks, split around track `k`. */
  lemma LiveSlotsAround(views: seq<Slots>, k: nat, v: Slots)
    requires k < |views|
    ensures LiveSlots(views) == LiveSlots(views[..k]) + views[k].live + LiveSlots(views[k + 1..])
    ensures LiveSlots(views[k := v]) == LiveSlots(views[..k]) + v.live + LiveSlots(views[k + 1..])
  {
    assert views == views[..k] + [views[k]] + views[k + 1..];
    assert views[k := v] == views[..k] + [v] + views[k + 1..];
    assert LiveSlots([views[k]]) == views[k].live by { assert [views[k]][..0] == []; }
    assert LiveSlots([v]) == v.live by { assert [v][..0] == []; }
    LiveSlotsConcat(views[..k] + [views[k]], views[k + 1..]);
    LiveSlotsConcat(views[..k], [views[k]]);
    LiveSlotsConcat(views[..k] + [v], views[k + 1..]);
    LiveSlotsConcat(views[..k], [v]);
  }

  /**
   * The arena's invariant over all tracks:
   *  - every child refers to a parent;
   *  - every slot names a cell; spare slots hold zeroed parents;
   *  - no cell sits in two slots, within one track or across tracks;
   *  - every parent's `refCount` is the number of live children referring to it.
   */
  ghost predicate WellFormed(cells: seq<Node>, views: seq<Slots>)
  {
    && Linked(cells)
    && (forall j :: 0 <= j < |views| ==> InCells(cells, views[j].live))
    && AllSpareZero(cells, views)
    && Unshared(views)
    && AllCounted(cells, views)
  }

  /** Spare slot `i` of track `j`, if there is one, holds a zeroed parent. */
  ghost predicate AllSpareZero(cells: seq<Node>, views: seq<Slots>)
  {
    forall j: nat, i: nat :: SpareZero(cells, views, j, i)
  }

  ghost predicate AllCounted(cells: seq<Node>, views: seq<Slots>)
  {
    forall p: nat :: Counted(cells, views, p)
  }

  ghost predicate SpareZero(cells: seq<Node>, views: seq<Slots>, j: nat, i: nat)
  {
    j < |views| && i < |views[j].spare| ==>
      views[j].spare[i] < |cells| && cells[views[j].spare[i]] == ZeroParent
  }

  /** Cell `p`, if it is a parent, counts exactly the live children that refer to it. */
  ghost predicate Counted(cells: seq<Node>, views: seq<Slots>, p: nat)
  {
    p < |cells| && cells[p].Parent? ==> cells[p].refCount == ChildrenOf(cells, LiveSlots(views), p)
  }

  lemma AllInCells(cells: seq<Node>, views: seq<Slots>, j: nat)
    requires WellFormed(cells, views) && j < |views|
    ensures InCells(cells, views[j].All())
  {
    var v := views[j];
    forall i | 0 <= i < |v.All()| ensures v.All()[i] < |cells| {
      if i >= |v.live| {
        assert v.All()[i] == v.spare[i - |v.live|];
        assert SpareZero(cells, views, j, i - |v.live|);
      }
    }
  }

  lemma {:induction false} LiveSlotsInCells(cells: seq<Node>, views: seq<Slots>)
    requires forall j :: 0 <= j < |views| ==> InCells(cells, views[j].live)
    ensures InCells(cells, LiveSlots(views))
    decreases |views|
  {
    if views != [] {
      LiveSlotsInCells(cells, views[..|views| - 1]);
    }
  }

  /**
   * Replacing track `k`'s slots by `v` keeps slots unshared when `v` has no
   * duplicate and takes its handles from the old slots of `k` or from cells
   * that did not exist before.
   */
  lemma ReplaceUnshared(cells: seq<Node>, views: seq<Slots>, k: nat, v: Slots)
    requires WellFormed(cells, views) && k < |views|
    requires Distinct(v.All())
    requires forall i :: 0 <= i < |v.All()| ==> v.All()[i] in views[k].All() || v.All()[i] >= |cells|
    ensures Unshared(views[k := v])
  {
    var vs := views[k := v];
    forall j1: nat, j2: nat, i1: nat, i2: nat | j1 != j2 ensures Apart(vs, j1, i1, j2, i2) {
      if j1 >= |vs| || j2 >= |vs| || i1 >= |vs[j1].All()| || i2 >= |vs[j2].All()| {
      } else if j1 == k {
        AllInCells(cells, views, j2);
        var h := v.All()[i1];
        if h in views[k].All() {
          var m :| 0 <= m < |views[k].All()| && views[k].All()[m] == h;
          assert Apart(views, k, m, j2, i2);
        }
      } else if j2 == k {
        AllInCells(cells, views, j1);
        var h := v.All()[i2];
        if h in views[k].All() {
          var m :| 0 <= m < |views[k].All()| && views[k].All()[m] == h;
          assert Apart(views, j1, i1, k, m);
        }
      } else {
        assert Apart(views, j1, i1, j2, i2);
      }
    }
  }

  /** A live node of one track is not a spare slot of any track. */
  lemma LiveIsNotSpare(cells: seq<Node>, views: seq<Slots>, j: nat, i: nat, j2: nat, i2: nat)
    requires WellFormed(cells, views)
    requires j < |views| && i < |views[j].live| && j2 < |views| && i2 < |views[j2].spare|
    ensures views[j].live[i] != views[j2].spare[i2]
  {
    assert views[j].All()[i] == views[j].live[i];
    assert views[j2].All()[|views[j2].live| + i2] == views[j2].spare[i2];
    assert Apart(views, j, i, j2, |views[j2].live| + i2);
  }

  /** The root of a live node is never a spare slot: a spare parent has no live child. */
  lemma LiveRootIsNotSpare(cells: seq<Node>, views: seq<Slots>, j: nat, i: nat, j2: nat, i2: nat)
    requires WellFormed(cells, views)
    requires j < |views| && i < |views[j].live| && j2 < |views| && i2 < |views[j2].spare|
    ensures Root(cells, views[j].live[i]) != views[j2].spare[i2]
  {
    var h := views[j].live[i];
    var s := views[j2].spare[i2];
    if cells[h].Parent? {
      LiveIsNotSpare(cells, views, j, i, j2, i2);
    } else if cells[h].parent == s {
      LiveSlotsAround(views, j, views[j]);
      var before := LiveSlots(views[..j]);
      assert LiveSlots(views)[|before| + i] == h;
      assert SpareZero(cells, views, j2, i2);
      assert Counted(cells, views, s);
      ChildrenOfPositive(cells, LiveSlots(views), s, |before| + i);
      assert false;
    }
  }
}
