/**
 * Each track operation of sound_seg.c as a function from the arena's state
 * before to its state after, and the properties the operations promise, as
 * lemmas about those functions.  The state is a `Heap`: every node cell, and
 * each live track's slots.  The methods of SegTrack are proved to compute
 * exactly these functions.
 */
module SegHeap {
  import opened Basics
  import opened SegNodes
  import opened SegOps

  /** The arena's state as a value. */
  datatype Heap = Heap(cells: seq<Node>, views: seq<Slots>)
  {
    ghost predicate Valid() { WellFormed(cells, views) }

    /** The samples track `k` reads. */
    ghost function Samples(k: nat): (s: seq<int16>)
      requires Valid() && k < |views|
      ensures |s| == |views[k].live|
    {
      Resolve(cells, views[k].live)
    }
  }

  /** The number of slots of a track's array (`capacity`). */
  function Capacity(s: Slots): nat { |s.live| + |s.spare| }

  // ---------------------------------------------------------------------------
  // tr_resize

  /**
   * tr_resize of track `k`: nothing unless `newCapacity` exceeds the capacity;
   * otherwise the array gains `newCapacity - capacity` slots, each a fresh
   * zeroed parent.
   */
  function ResizeHeap(h: Heap, k: nat, newCapacity: nat): Heap
    requires k < |h.views|
  {
    var s := h.views[k];
    if newCapacity <= Capacity(s) then h
    else
      var extra := newCapacity - Capacity(s);
      Heap(h.cells + Zeros(extra), h.views[k := Slots(s.live, s.spare + Fresh(|h.cells|, extra))])
  }

  /** tr_resize keeps the invariant, reaches the capacity asked for, and changes no track's live slots or samples. */
  lemma ResizeHeapKeeps(h: Heap, k: nat, newCapacity: nat)
    requires h.Valid() && k < |h.views|
    ensures var h' := ResizeHeap(h, k, newCapacity);
      h'.Valid() && |h'.views| == |h.views| && Capacity(h'.views[k]) == Max(Capacity(h.views[k]), newCapacity) &&
      (forall j :: 0 <= j < |h.views| && j != k ==> h'.views[j] == h.views[j]) &&
      (forall j :: 0 <= j < |h.views| ==> h'.views[j].live == h.views[j].live && h'.Samples(j) == h.Samples(j)) &&
      (forall x :: 0 <= x < |h.cells| ==> Root(h'.cells, x) == Root(h.cells, x))
  {
    var s := h.views[k];
    if newCapacity > Capacity(s) {
      var extra := newCapacity - Capacity(s);
      var h' := ResizeHeap(h, k, newCapacity);
      ResizeKeeps(h.cells, h.views, k, extra);
      forall j | 0 <= j < |h.views| ensures h'.Samples(j) == h.Samples(j) {
        SameSamplesResolve(h.cells, h'.cells, h.views[j].live);
      }
    }
  }

  // ---------------------------------------------------------------------------
  // tr_write

  /** tr_write's `length = new_length`: the spare slots up to `newLength` become live. */
  function GrowHeap(h: Heap, k: nat, newLength: nat): Heap
    requires k < |h.views| && |h.views[k].live| <= newLength <= Capacity(h.views[k])
  {
    var s := h.views[k];
    var m := newLength - |s.live|;
    Heap(h.cells, h.views[k := Slots(s.live + s.spare[..m], s.spare[m..])])
  }

  /** Growing keeps the invariant; the old live slots stay, and the new ones hold zeroed parents. */
  lemma GrowHeapKeeps(h: Heap, k: nat, newLength: nat)
    requires h.Valid() && k < |h.views| && |h.views[k].live| <= newLength <= Capacity(h.views[k])
    ensures var h' := GrowHeap(h, k, newLength);
      h'.Valid() && |h'.views| == |h.views| && |h'.views[k].live| == newLength &&
      h'.views[k].live[..|h.views[k].live|] == h.views[k].live &&
      (forall j :: 0 <= j < |h.views| && j != k ==> h'.views[j] == h.views[j]) &&
      (forall q :: |h.views[k].live| <= q < newLength ==> h.cells[h'.views[k].live[q]] == ZeroParent)
  {
    var s := h.views[k];
    var m := newLength - |s.live|;
    GrowKeeps(h.cells, h.views, k, m);
    var h' := GrowHeap(h, k, newLength);
    forall q | |s.live| <= q < newLength ensures h.cells[h'.views[k].live[q]] == ZeroParent {
      assert h'.views[k].live[q] == s.spare[q - |s.live|];
      assert SpareZero(h.cells, h.views, k, q - |s.live|);
    }
  }

  /** tr_write's loop: `src` stamped through the roots of the window `[pos, pos + |src|)` of track `k`. */
  ghost function StoreHeap(h: Heap, k: nat, pos: nat, src: seq<int16>): (h': Heap)
    requires h.Valid() && k < |h.views| && pos + |src| <= |h.views[k].live|
    ensures h'.Valid() && h'.views == h.views
  {
    StoreKeeps(h.cells, h.views, k, pos, src);
    Heap(Stamp(h.cells, Roots(h.cells, WindowOf(h.views, k, pos, |src|)), src), h.views)
  }

  /** The state just before tr_write's loop: resized if `n` exceeds the capacity, then grown to length `n`. */
  ghost function Extended(h: Heap, k: nat, n: nat): (h2: Heap)
    requires h.Valid() && k < |h.views|
    ensures h2.Valid() && k < |h2.views| && n <= |h2.views[k].live|
  {
    var h1 := Reserved(h, k, n);
    ResizeHeapKeeps(h, k, 2 * n);
    if n > |h1.views[k].live| then GrowHeapKeeps(h1, k, n); GrowHeap(h1, k, n) else h1
  }

  /** tr_write of `src` at `pos` into track `k`; nothing for an empty `src`. */
  ghost function WriteHeap(h: Heap, k: nat, pos: nat, src: seq<int16>): Heap
    requires h.Valid() && k < |h.views|
  {
    if src == [] then h else StoreHeap(Extended(h, k, pos + |src|), k, pos, src)
  }
  /** What resizing and growing before tr_write's loop keep and make. */
  lemma ExtendedFacts(h: Heap, k: nat, n: nat)
    requires h.Valid() && k < |h.views|
    ensures var h2 := Extended(h, k, n);
      |h2.views| == |h.views| && |h2.views[k].live| == Max(|h.views[k].live|, n) &&
      (forall j :: 0 <= j < |h.views| && j != k ==> h2.views[j].live == h.views[j].live) &&
      (forall j, i :: 0 <= j < |h.views| && 0 <= i < |h.views[j].live| ==>
        i < |h2.views[j].live| && h2.views[j].live[i] == h.views[j].live[i] &&
        h2.Samples(j)[i] == h.Samples(j)[i] && Root(h2.cells, h.views[j].live[i]) == Root(h.cells, h.views[j].live[i])) &&
      (forall q :: |h.views[k].live| <= q < |h2.views[k].live| ==> h2.cells[h2.views[k].live[q]] == ZeroParent)
  {
    var h1 := Reserved(h, k, n);
    ResizeHeapKeeps(h, k, 2 * n);
    forall j, i | 0 <= j < |h.views| && 0 <= i < |h.views[j].live| ensures h.views[j].live[i] < |h.cells| {
      assert InCells(h.cells, h.views[j].live);
    }
    if n > |h1.views[k].live| {
      GrowHeapKeeps(h1, k, n);
      var h2 := GrowHeap(h1, k, n);
      forall j, i | 0 <= j < |h.views| && 0 <= i < |h.views[j].live|
        ensures i < |h2.views[j].live| && h2.views[j].live[i] == h.views[j].live[i] && h2.Samples(j)[i] == h.Samples(j)[i]
      {
        if j == k {
          assert h2.views[k].live[..|h1.views[k].live|] == h1.views[k].live;
        }
        assert h1.Samples(j)[i] == h.Samples(j)[i];
      }
    }
  }

  /**
   * tr_write keeps the invariant and touches only track `k`'s slots; its
   * length becomes max(length, pos + |src|), and its old live slots stay.
   */
  lemma WriteHeapKeeps(h: Heap, k: nat, pos: nat, src: seq<int16>)
    requires h.Valid() && k < |h.views|
    ensures var h' := WriteHeap(h, k, pos, src);
      h'.Valid() && |h'.views| == |h.views| &&
      |h'.views[k].live| == (if src == [] then |h.views[k].live| else Max(|h.views[k].live|, pos + |src|)) &&
      (forall j :: 0 <= j < |h.views| && j != k ==> h'.views[j].live == h.views[j].live) &&
      (forall j, i :: 0 <= j < |h.views| && 0 <= i < |h.views[j].live| ==>
        i < |h'.views[j].live| && h'.views[j].live[i] == h.views[j].live[i])
  {
    if src != [] {
      ExtendedFacts(h, k, pos + |src|);
    }
  }

  /**
   * After tr_write, every live node of every track reads the last sample of
   * `src` aimed at its root, or what it read before when none was: a write
   * through one node is seen through every node sharing its parent.
   */
  lemma WriteHeapAliases(h: Heap, k: nat, pos: nat, src: seq<int16>)
    requires h.Valid() && k < |h.views| && src != []
    ensures var h' := WriteHeap(h, k, pos, src);
      h'.Valid() && |h'.views| == |h.views| && pos + |src| <= |h'.views[k].live| &&
      InCells(h'.cells, WindowOf(h'.views, k, pos, |src|)) &&
      var rs := Roots(h'.cells, WindowOf(h'.views, k, pos, |src|));
      forall j, i :: 0 <= j < |h.views| && 0 <= i < |h.views[j].live| ==>
        i < |h'.views[j].live| &&
        h'.Samples(j)[i] == Overwritten(h.Samples(j)[i], Root(h.cells, h.views[j].live[i]), rs, src)
  {
    ExtendedFacts(h, k, pos + |src|);
    var h2 := Extended(h, k, pos + |src|);
    StoreKeeps(h2.cells, h2.views, k, pos, src);
    var hs := WindowOf(h2.views, k, pos, |src|);
    var rs := Roots(h2.cells, hs);
    StampResolve(h2.cells, rs, src, hs);
    forall j | 0 <= j < |h.views|
      ensures forall i :: 0 <= i < |h.views[j].live| ==>
        i < |h2.views[j].live| && Resolve(Stamp(h2.cells, rs, src), h2.views[j].live)[i] ==
          Overwritten(h.Samples(j)[i], Root(h.cells, h.views[j].live[i]), rs, src)
    {
      StampResolve(h2.cells, rs, src, h2.views[j].live);
    }
  }

  /**
   * After tr_write, each node of the window reads the last sample aimed at its
   * root; when the window's roots are distinct it reads back exactly `src`.
   */
  lemma WriteHeapReadBack(h: Heap, k: nat, pos: nat, src: seq<int16>)
    requires h.Valid() && k < |h.views| && src != []
    ensures var h' := WriteHeap(h, k, pos, src);
      h'.Valid() && |h'.views| == |h.views| && pos + |src| <= |h'.views[k].live| &&
      InCells(h'.cells, WindowOf(h'.views, k, pos, |src|)) &&
      var rs := Roots(h'.cells, WindowOf(h'.views, k, pos, |src|));
      (forall i :: 0 <= i < |src| ==> h'.Samples(k)[pos + i] == src[LastIndex(rs, rs[i])]) &&
      (Distinct(rs) ==> h'.Samples(k)[pos..pos + |src|] == src)
  {
    var h2 := Extended(h, k, pos + |src|);
    StoreKeeps(h2.cells, h2.views, k, pos, src);
    var live := h2.views[k].live;
    var rs := Roots(h2.cells, WindowOf(h2.views, k, pos, |src|));
    StampResolve(h2.cells, rs, src, WindowOf(h2.views, k, pos, |src|));
    assert InCells(h2.cells, live);
    WriteWindow(h2.cells, live, pos, src);
    if Distinct(rs) {
      WriteReadBack(h2.cells, live, pos, src);
    }
  }

  /** After tr_write past the end, the slots between the old length and `pos` read 0. */
  lemma WriteHeapGap(h: Heap, k: nat, pos: nat, src: seq<int16>)
    requires h.Valid() && k < |h.views| && src != []
    ensures var h' := WriteHeap(h, k, pos, src);
      h'.Valid() && |h'.views| == |h.views| && pos <= |h'.views[k].live| &&
      forall q :: |h.views[k].live| <= q < pos ==> h'.Samples(k)[q] == 0
  {
    ExtendedFacts(h, k, pos + |src|);
    var h2 := Extended(h, k, pos + |src|);
    StoreKeeps(h2.cells, h2.views, k, pos, src);
    var live := h2.views[k].live;
    var rs := Roots(h2.cells, WindowOf(h2.views, k, pos, |src|));
    forall q | |h.views[k].live| <= q < pos ensures Resolve(Stamp(h2.cells, rs, src), live)[q] == 0 {
      WriteMisses(h2.cells, h2.views, k, pos, src, q);
      assert InCells(h2.cells, live);
      StampSample(h2.cells, rs, src, live[q]);
    }
  }
  // ---------------------------------------------------------------------------
  // tr_read

  /** What tr_read copies out of samples `s`: nothing when `pos` is at or past the end or `len` is 0. */
  function Copied(s: seq<int16>, pos: nat, len: nat): (r: seq<int16>)
    ensures |r| == if pos >= |s| || len == 0 then 0 else Min(len, |s| - pos)
    ensures forall i :: 0 <= i < |r| ==> r[i] == s[pos + i]
  {
    if pos >= |s| || len == 0 then [] else s[pos..pos + Min(len, |s| - pos)]
  }

  // ---------------------------------------------------------------------------
  // tr_delete_range

  /** The end of the range tr_delete_range removes: `pos + len`, cut at the length. */
  function DeleteEnd(s: Slots, pos: nat, len: nat): nat
  {
    Min(pos + len, |s.live|)
  }

  /** tr_delete_range on track `k` succeeds: `pos` is live, `len` is positive, and no parent in the range is referred to. */
  ghost predicate DeleteAllowed(h: Heap, k: nat, pos: nat, len: nat)
    requires h.Valid() && k < |h.views|
  {
    var live := h.views[k].live;
    assert InCells(h.cells, live);
    pos < |live| && len > 0 &&
    forall i :: pos <= i < DeleteEnd(h.views[k], pos, len) ==>
      !(h.cells[live[i]].Parent? && h.cells[live[i]].refCount > 0)
  }

  /** DeleteAllowed, once `pos` is live and `len` positive, is the check on the slice `[pos, end)` of the live slots. */
  lemma DeleteAllowedSlice(h: Heap, k: nat, pos: nat, len: nat)
    requires h.Valid() && k < |h.views| && pos < |h.views[k].live| && len > 0
    ensures var live, end := h.views[k].live, DeleteEnd(h.views[k], pos, len);
      InCells(h.cells, live[pos..end]) &&
      (DeleteAllowed(h, k, pos, len) <==> NoneReferenced(h.cells, live[pos..end]))
  {
    var live, end := h.views[k].live, DeleteEnd(h.views[k], pos, len);
    assert InCells(h.cells, live);
    assert forall q :: 0 <= q < end - pos ==> live[pos..end][q] == live[pos + q];
  }

  /**
   * A successful tr_delete_range on track `k`: the live slots `[pos, end)`
   * go, the later ones move down, and every removed child gives back its
   * reference, so each parent's count drops by its removed children.
   */
  ghost function DeleteHeap(h: Heap, k: nat, pos: nat, len: nat): (h': Heap)
    requires h.Valid() && k < |h.views| && pos < |h.views[k].live|
    ensures h'.Valid() && |h'.views| == |h.views| && |h'.cells| >= |h.cells|
    ensures var live, end := h.views[k].live, DeleteEnd(h.views[k], pos, len);
      InCells(h.cells, live[pos..end]) &&
      forall p :: 0 <= p < |h.cells| && h.cells[p].Parent? ==>
        h'.cells[p] == Parent(h.cells[p].sample, h.cells[p].refCount - ChildrenOf(h.cells, live[pos..end], p))
  {
    var end := DeleteEnd(h.views[k], pos, len);
    DeleteKeeps(h.cells, h.views, k, pos, end);
    Heap(DeleteCells(h.cells, h.views[k].live[pos..end]), h.views[k := DeleteSlots(h.views[k], |h.cells|, pos, end)])
  }

  /** The samples a run reads split as the run does. */
  lemma ResolveConcat(cells: seq<Node>, a: seq<Handle>, b: seq<Handle>)
    requires Linked(cells) && InCells(cells, a) && InCells(cells, b)
    ensures InCells(cells, a + b) && Resolve(cells, a + b) == Resolve(cells, a) + Resolve(cells, b)
  {
    assert forall i :: 0 <= i < |a + b| ==> (a + b)[i] == if i < |a| then a[i] else b[i - |a|];
  }

  /**
   * After tr_delete_range, track `k` reads what it read with `[pos, end)`
   * cut out, and every other track reads what it read.
   */
  lemma DeleteHeapContents(h: Heap, k: nat, pos: nat, len: nat)
    requires h.Valid() && k < |h.views| && pos < |h.views[k].live|
    ensures var h', end := DeleteHeap(h, k, pos, len), DeleteEnd(h.views[k], pos, len);
      |h'.views[k].live| == |h.views[k].live| - (end - pos) &&
      h'.Samples(k) == h.Samples(k)[..pos] + h.Samples(k)[end..] &&
      forall j :: 0 <= j < |h.views| && j != k ==> h'.Samples(j) == h.Samples(j)
  {
    var h' := DeleteHeap(h, k, pos, len);
    assert SameSamples(h.cells, h'.cells);
    forall j | 0 <= j < |h.views| && j != k ensures h'.Samples(j) == h.Samples(j) {
      SameSamplesResolve(h.cells, h'.cells, h.views[j].live);
    }
    DeleteHeapOwn(h, k, pos, len);
  }

  /** The part of DeleteHeapContents about track `k` itself. */
  lemma DeleteHeapOwn(h: Heap, k: nat, pos: nat, len: nat)
    requires h.Valid() && k < |h.views| && pos < |h.views[k].live|
    ensures var h', end := DeleteHeap(h, k, pos, len), DeleteEnd(h.views[k], pos, len);
      h'.Samples(k) == h.Samples(k)[..pos] + h.Samples(k)[end..]
  {
    var h' := DeleteHeap(h, k, pos, len);
    var end := DeleteEnd(h.views[k], pos, len);
    var live := h.views[k].live;
    assert SameSamples(h.cells, h'.cells);
    assert h'.views[k].live == live[..pos] + live[end..];
    assert InCells(h.cells, live);
    assert InCells(h.cells, live[..pos]) && InCells(h.cells, live[end..]);
    SameSamplesResolve(h.cells, h'.cells, live[..pos]);
    SameSamplesResolve(h.cells, h'.cells, live[end..]);
    ResolveConcat(h'.cells, live[..pos], live[end..]);
    assert live == live[..pos] + live[pos..end] + live[end..];
    ResolveConcat(h.cells, live[..pos] + live[pos..end], live[end..]);
    ResolveConcat(h.cells, live[..pos], live[pos..end]);
  }

  /**
   * What tr_delete_range's reference check buys: once it passes, no live node
   * of any track, after the delete, reads through a removed parent.
   */
  lemma DeleteHeapNoOrphans(h: Heap, k: nat, pos: nat, len: nat, j: nat, i: nat)
    requires h.Valid() && k < |h.views| && DeleteAllowed(h, k, pos, len)
    requires j < |h.views| && i < |DeleteHeap(h, k, pos, len).views[j].live|
    ensures var h', live := DeleteHeap(h, k, pos, len), h.views[k].live;
      Root(h'.cells, h'.views[j].live[i]) !in live[pos..DeleteEnd(h.views[k], pos, len)]
  {
    var h' := DeleteHeap(h, k, pos, len);
    var end := DeleteEnd(h.views[k], pos, len);
    var live := h.views[k].live;
    var x := h'.views[j].live[i];
    var jj, ii := j, if j == k && i >= pos then i + (end - pos) else i;
    assert x == h.views[jj].live[ii] && !(jj == k && pos <= ii < end) by {
      if j == k {
        assert h'.views[k].live == live[..pos] + live[end..];
      }
    }
    assert InCells(h.cells, h.views[jj].live);
    var root := Root(h.cells, x);
    assert Root(h'.cells, x) == root;
    if root in live[pos..end] {
      var r :| pos <= r < end && live[r] == root;
      assert !(h.cells[live[r]].Parent? && h.cells[live[r]].refCount > 0);
      assert Counted(h.cells, h.views, root);
      UnreferencedRoot(h.cells, h.views, jj, ii, k, r);
    }
  }

  // ---------------------------------------------------------------------------
  // tr_insert

  /** The roots of the source nodes `[srcpos, srcpos + len)` of track `s`. */
  ghost function SourceRoots(h: Heap, s: nat, srcpos: nat, len: nat): (rs: seq<Handle>)
    requires h.Valid() && s < |h.views| && srcpos + len <= |h.views[s].live|
    ensures |rs| == len && ParentsAt(h.cells, rs)
    ensures forall i :: 0 <= i < len ==> NotSpare(h.views, rs[i])
  {
    var hs := h.views[s].live[srcpos..srcpos + len];
    assert forall i :: 0 <= i < len ==> hs[i] in h.views[s].live;
    LiveRootsNotSpare(h.cells, h.views, s, hs);
    Roots(h.cells, hs)
  }

  /** Each source root is the root of its source node. */
  lemma SourceRootsAre(h: Heap, s: nat, srcpos: nat, len: nat)
    requires h.Valid() && s < |h.views| && srcpos + len <= |h.views[s].live|
    ensures InCells(h.cells, h.views[s].live)
    ensures forall i :: 0 <= i < len ==> SourceRoots(h, s, srcpos, len)[i] == Root(h.cells, h.views[s].live[srcpos + i])
  {
    assert InCells(h.cells, h.views[s].live);
  }

  /** The state after tr_insert's resize: twice `n` slots when `n` exceeds the capacity. */
  function Reserved(h: Heap, k: nat, n: nat): (h1: Heap)
    requires k < |h.views|
    ensures |h1.cells| >= |h.cells| && h1.cells[..|h.cells|] == h.cells
  {
    if n > Capacity(h.views[k]) then ResizeHeap(h, k, 2 * n) else h
  }

  /**
   * The resize keeps the invariant, makes room for `n` live slots, and
   * leaves parents that are in no spare slot parents in no spare slot.
   */
  lemma ReservedRoots(h: Heap, k: nat, n: nat, rs: seq<Handle>)
    requires h.Valid() && k < |h.views| && ParentsAt(h.cells, rs)
    requires forall i :: 0 <= i < |rs| ==> NotSpare(h.views, rs[i])
    ensures var h1 := Reserved(h, k, n);
      h1.Valid() && |h1.views| == |h.views| && h1.views[k].live == h.views[k].live &&
      n <= Capacity(h1.views[k]) && ParentsAt(h1.cells, rs) &&
      forall i :: 0 <= i < |rs| ==> NotSpare(h1.views, rs[i])
  {
    var h1 := Reserved(h, k, n);
    ResizeHeapKeeps(h, k, 2 * n);
    if n > Capacity(h.views[k]) {
      var extra := 2 * n - Capacity(h.views[k]);
      forall i | 0 <= i < |rs| ensures NotSpare(h1.views, rs[i]) {
        assert NotSpare(h.views, rs[i]);
        forall j, q | 0 <= j < |h1.views| && 0 <= q < |h1.views[j].spare| ensures h1.views[j].spare[q] != rs[i] {
          if j == k && q >= |h.views[k].spare| {
            assert h1.views[j].spare[q] == Fresh(|h.cells|, extra)[q - |h.views[k].spare|];
          } else {
            assert h1.views[j].spare[q] == h.views[j].spare[q];
          }
        }
      }
    }
  }

  /** The samples held by the parents `rs`. */
  function RootSamples(cells: seq<Node>, rs: seq<Handle>): (r: seq<int16>)
    requires ParentsAt(cells, rs)
    ensures |r| == |rs|
  {
    seq(|rs|, i requires 0 <= i < |rs| => cells[rs[i]].sample)
  }

  /** tr_insert's shift and fill: a fresh child per root of `rs`, placed at `destpos` of track `k`. */
  function InsertOnto(h: Heap, k: nat, destpos: nat, rs: seq<Handle>): Heap
    requires k < |h.views| && destpos <= |h.views[k].live| && |rs| <= |h.views[k].spare| && ParentsAt(h.cells, rs)
  {
    Heap(InsertCells(h.cells, rs), h.views[k := InsertSlots(h.views[k], |h.cells|, destpos, |rs|)])
  }

  /** Where the shift and fill put things: the old nodes around the gap, a child of `rs[i]` at `destpos + i`. */
  lemma InsertOntoLinks(h: Heap, k: nat, destpos: nat, rs: seq<Handle>)
    requires k < |h.views| && destpos <= |h.views[k].live| && |rs| <= |h.views[k].spare| && ParentsAt(h.cells, rs)
    ensures var h', live := InsertOnto(h, k, destpos, rs), h.views[k].live;
      |h'.views| == |h.views| && |h'.views[k].live| == |live| + |rs| &&
      h'.views[k].live[..destpos] == live[..destpos] &&
      h'.views[k].live[destpos + |rs|..] == live[destpos..] &&
      (forall j :: 0 <= j < |h.views| && j != k ==> h'.views[j] == h.views[j]) &&
      forall i :: destpos <= i < destpos + |rs| ==> h'.cells[h'.views[k].live[i]] == Child(rs[i - destpos])
  {
    var h' := InsertOnto(h, k, destpos, rs);
    var live := h.views[k].live;
    SpliceParts(live[..destpos], Fresh(|h.cells|, |rs|), live[destpos..], h'.views[k].live);
    forall i | destpos <= i < destpos + |rs| ensures h'.cells[h'.views[k].live[i]] == Child(rs[i - destpos]) {
      assert h'.views[k].live[i] == |h.cells| + (i - destpos);
    }
  }

  /** What the shift and fill keep: the invariant, the other tracks, and the samples of the old nodes. */
  lemma InsertOntoFacts(h: Heap, k: nat, destpos: nat, rs: seq<Handle>)
    requires h.Valid() && k < |h.views| && destpos <= |h.views[k].live| && |rs| <= |h.views[k].spare|
    requires ParentsAt(h.cells, rs) && forall i :: 0 <= i < |rs| ==> NotSpare(h.views, rs[i])
    ensures var h', live, added := InsertOnto(h, k, destpos, rs), h.views[k].live, Fresh(|h.cells|, |rs|);
      h'.Valid() && |h'.views| == |h.views| &&
      h'.views[k].live == live[..destpos] + added + live[destpos..] &&
      (forall j :: 0 <= j < |h.views| && j != k ==> h'.views[j] == h.views[j] && h'.Samples(j) == h.Samples(j)) &&
      (forall i :: 0 <= i < |rs| ==> h'.cells[|h.cells| + i] == Child(rs[i])) &&
      InCells(h'.cells, added) && Resolve(h'.cells, added) == RootSamples(h.cells, rs) &&
      h'.Samples(k) == h.Samples(k)[..destpos] + Resolve(h'.cells, added) + h.Samples(k)[destpos..]
  {
    InsertKeeps(h.cells, h.views, k, destpos, rs);
    var h' := InsertOnto(h, k, destpos, rs);
    var live, added := h.views[k].live, Fresh(|h.cells|, |rs|);
    assert SameSamples(h.cells, h'.cells);
    forall j | 0 <= j < |h.views| && j != k ensures h'.Samples(j) == h.Samples(j) {
      SameSamplesResolve(h.cells, h'.cells, h.views[j].live);
    }
    assert forall i :: 0 <= i < |rs| ==> h'.cells[|h.cells| + i] == Child(rs[i]);
    assert InCells(h'.cells, added);
    assert Resolve(h'.cells, added) == RootSamples(h.cells, rs) by {
      assert forall i :: 0 <= i < |rs| ==> added[i] == |h.cells| + i;
    }
    assert InCells(h.cells, live);
    assert InCells(h.cells, live[..destpos]) && InCells(h.cells, live[destpos..]);
    SameSamplesResolve(h.cells, h'.cells, live[..destpos]);
    SameSamplesResolve(h.cells, h'.cells, live[destpos..]);
    assert live == live[..destpos] + live[destpos..];
    ResolveConcat(h.cells, live[..destpos], live[destpos..]);
    ResolveConcat(h'.cells, live[..destpos], added);
    ResolveConcat(h'.cells, live[..destpos] + added, live[destpos..]);
  }

  /**
   * tr_insert of the source nodes `[srcpos, srcpos + len)` of track `s` into
   * track `k` at `destpos`: the destination is resized to twice its new
   * length when that exceeds the capacity; its nodes from `destpos` move up
   * by `len`; and each gap slot becomes a fresh child of the root of the
   * matching source node, taken before anything moved, which gains one
   * reference per child.
   */
  ghost function InsertHeap(h: Heap, k: nat, s: nat, destpos: nat, srcpos: nat, len: nat): (h': Heap)
    requires h.Valid() && k < |h.views| && s < |h.views|
    requires destpos <= |h.views[k].live| && srcpos + len <= |h.views[s].live|
    ensures h'.Valid() && |h'.views| == |h.views| && |h'.cells| >= |h.cells|
    ensures var rs := SourceRoots(h, s, srcpos, len);
      forall p :: 0 <= p < |h.cells| && h.cells[p].Parent? ==>
        h'.cells[p] == Parent(h.cells[p].sample, h.cells[p].refCount + Occurrences(rs, p))
  {
    var n := |h.views[k].live| + len;
    var h1 := Reserved(h, k, n);
    ResizeHeapKeeps(h, k, 2 * n);
    var rs := SourceRoots(h, s, srcpos, len);
    assert SourceRoots(h1, s, srcpos, len) == rs;
    InsertKeeps(h1.cells, h1.views, k, destpos, rs);
    InsertOnto(h1, k, destpos, rs)
  }

  /** InsertHeap is the shift and fill applied after the resize. */
  lemma InsertHeapIsOnto(h: Heap, k: nat, s: nat, destpos: nat, srcpos: nat, len: nat)
    requires h.Valid() && k < |h.views| && s < |h.views|
    requires destpos <= |h.views[k].live| && srcpos + len <= |h.views[s].live|
    ensures var h1 := Reserved(h, k, |h.views[k].live| + len);
      ParentsAt(h1.cells, SourceRoots(h, s, srcpos, len)) && len <= |h1.views[k].spare| &&
      InsertHeap(h, k, s, destpos, srcpos, len) == InsertOnto(h1, k, destpos, SourceRoots(h, s, srcpos, len))
  {
    ReservedFacts(h, k, s, srcpos, len);
  }

  /** InsertHeapIsOnto with the parents and the resized heap named by the caller. */
  lemma InsertHeapPlaced(h: Heap, k: nat, s: nat, destpos: nat, srcpos: nat, len: nat, rs: seq<Handle>, n: nat, h1: Heap)
    requires h.Valid() && k < |h.views| && s < |h.views|
    requires destpos <= |h.views[k].live| && srcpos + len <= |h.views[s].live|
    requires rs == SourceRoots(h, s, srcpos, len) && n == |h.views[k].live| + len && h1 == Reserved(h, k, n)
    ensures ParentsAt(h1.cells, rs) && |rs| <= |h1.views[k].spare|
    ensures InsertHeap(h, k, s, destpos, srcpos, len) == InsertOnto(h1, k, destpos, rs)
  {
    assert h1 == Reserved(h, k, |h.views[k].live| + len);
    InsertHeapIsOnto(h, k, s, destpos, srcpos, len);
  }

  /** The resize before tr_insert's shift, with the facts the insert lemmas use. */
  lemma ReservedFacts(h: Heap, k: nat, s: nat, srcpos: nat, len: nat)
    requires h.Valid() && k < |h.views| && s < |h.views| && srcpos + len <= |h.views[s].live|
    ensures var h1, rs := Reserved(h, k, |h.views[k].live| + len), SourceRoots(h, s, srcpos, len);
      h1.Valid() && |h1.views| == |h.views| && len <= |h1.views[k].spare| &&
      (forall j :: 0 <= j < |h.views| ==> h1.views[j].live == h.views[j].live && h1.Samples(j) == h.Samples(j)) &&
      ParentsAt(h1.cells, rs) && SourceRoots(h1, s, srcpos, len) == rs &&
      RootSamples(h1.cells, rs) == h.Samples(s)[srcpos..srcpos + len]
  {
    var n := |h.views[k].live| + len;
    var h1 := Reserved(h, k, n);
    ResizeHeapKeeps(h, k, 2 * n);
    var rs := SourceRoots(h, s, srcpos, len);
    assert SourceRoots(h1, s, srcpos, len) == rs;
    assert InCells(h.cells, h.views[s].live);
    forall i | 0 <= i < len ensures RootSamples(h1.cells, rs)[i] == h.Samples(s)[srcpos + i] {
      assert rs[i] == Root(h.cells, h.views[s].live[srcpos + i]);
      assert h1.cells[rs[i]] == h1.cells[..|h.cells|][rs[i]];
    }
  }

  /**
   * After tr_insert, track `k` reads its old samples before `destpos`, then
   * the samples the source nodes read, then its old samples from `destpos`;
   * every other track reads what it read.
   */
  lemma InsertHeapContents(h: Heap, k: nat, s: nat, destpos: nat, srcpos: nat, len: nat)
    requires h.Valid() && k < |h.views| && s < |h.views|
    requires destpos <= |h.views[k].live| && srcpos + len <= |h.views[s].live|
    ensures var h' := InsertHeap(h, k, s, destpos, srcpos, len);
      |h'.views[k].live| == |h.views[k].live| + len &&
      h'.Samples(k) == h.Samples(k)[..destpos] + h.Samples(s)[srcpos..srcpos + len] + h.Samples(k)[destpos..] &&
      forall j :: 0 <= j < |h.views| && j != k ==> h'.Samples(j) == h.Samples(j)
  {
    var h1 := Reserved(h, k, |h.views[k].live| + len);
    var rs := SourceRoots(h, s, srcpos, len);
    ReservedFacts(h, k, s, srcpos, len);
    InsertOntoFacts(h1, k, destpos, rs);
    InsertHeapIsOnto(h, k, s, destpos, srcpos, len);
  }

  /**
   * tr_insert keeps track `k`'s old nodes in order around the gap, makes
   * each inserted node a child of the root of its source node, and leaves
   * every other track's slots alone.
   */
  lemma InsertHeapLinks(h: Heap, k: nat, s: nat, destpos: nat, srcpos: nat, len: nat)
    requires h.Valid() && k < |h.views| && s < |h.views|
    requires destpos <= |h.views[k].live| && srcpos + len <= |h.views[s].live|
    ensures var h', live := InsertHeap(h, k, s, destpos, srcpos, len), h.views[k].live;
      |h'.views[k].live| == |live| + len &&
      h'.views[k].live[..destpos] == live[..destpos] &&
      h'.views[k].live[destpos + len..] == live[destpos..] &&
      (forall j :: 0 <= j < |h.views| && j != k ==> h'.views[j].live == h.views[j].live) &&
      InCells(h.cells, h.views[s].live) &&
      forall i :: destpos <= i < destpos + len ==>
        h'.cells[h'.views[k].live[i]] == Child(Root(h.cells, h.views[s].live[srcpos + (i - destpos)]))
  {
    var h1 := Reserved(h, k, |h.views[k].live| + len);
    var rs := SourceRoots(h, s, srcpos, len);
    InsertHeapIsOnto(h, k, s, destpos, srcpos, len);
    assert h1.views[k].live == h.views[k].live && |h1.views| == |h.views| by {
      ResizeHeapKeeps(h, k, 2 * (|h.views[k].live| + len));
    }
    assert forall j :: 0 <= j < |h.views| ==> h1.views[j].live == h.views[j].live by {
      ResizeHeapKeeps(h, k, 2 * (|h.views[k].live| + len));
    }
    InsertOntoLinks(h1, k, destpos, rs);
    SourceRootsAre(h, s, srcpos, len);
  }

  /** The three parts of a spliced sequence. */
  lemma SpliceParts<T>(a: seq<T>, b: seq<T>, c: seq<T>, x: seq<T>)
    requires x == a + b + c
    ensures x[..|a|] == a && x[|a| + |b|..] == c
    ensures forall i :: |a| <= i < |a| + |b| ==> x[i] == b[i - |a|]
  {
  }

  // ---------------------------------------------------------------------------
  // tr_destroy

  /**
   * tr_destroy of track `k`: its slots leave the arena, and each of its
   * children gives back the reference it held.
   */
  ghost function DestroyHeap(h: Heap, k: nat): (h': Heap)
    requires h.Valid() && k < |h.views|
    ensures h'.Valid() && |h'.views| == |h.views| - 1 && |h'.cells| == |h.cells|
    ensures InCells(h.cells, h.views[k].live)
    ensures forall p :: 0 <= p < |h.cells| && h.cells[p].Parent? ==>
      h'.cells[p] == Parent(h.cells[p].sample, h.cells[p].refCount - ChildrenOf(h.cells, h.views[k].live, p))
  {
    DestroyKeeps(h.cells, h.views, k);
    Heap(Release(h.cells, h.views[k].live), h.views[..k] + h.views[k + 1..])
  }

  /** After tr_destroy every remaining track keeps its slots and reads what it read. */
  lemma DestroyHeapContents(h: Heap, k: nat)
    requires h.Valid() && k < |h.views|
    ensures var h' := DestroyHeap(h, k);
      forall j :: 0 <= j < |h'.views| ==>
        var jj := if j < k then j else j + 1;
        h'.views[j] == h.views[jj] && h'.Samples(j) == h.Samples(jj)
  {
    var h' := DestroyHeap(h, k);
    assert SameSamples(h.cells, h'.cells);
    forall j | 0 <= j < |h'.views|
      ensures var jj := if j < k then j else j + 1; h'.views[j] == h.views[jj] && h'.Samples(j) == h.Samples(jj)
    {
      var jj := if j < k then j else j + 1;
      assert h'.views[j] == h.views[jj];
      SameSamplesResolve(h.cells, h'.cells, h.views[jj].live);
    }
  }
}
