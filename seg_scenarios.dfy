/**
 * What the operations of sound_seg.c promise together: an inserted region
 * aliases its source, so a write through either side is seen through the
 * other, and the source's parents can no longer be deleted.
 */
module SegScenarios {
  import opened Basics
  import opened SegNodes
  import opened SegOps
  import opened SegHeap

  /** A root that occurs in `rs` occurs at least once. */
  lemma {:induction false} OccurrencesPositive(rs: seq<Handle>, p: Handle, i: nat)
    requires i < |rs| && rs[i] == p
    ensures Occurrences(rs, p) >= 1
    decreases |rs|
  {
    if rs[|rs| - 1] != p {
      OccurrencesPositive(rs[..|rs| - 1], p, i);
    }
  }

  /** tr_insert keeps every old cell's kind and, for a child, its parent. */
  lemma InsertHeapSameLinks(h: Heap, k: nat, s: nat, destpos: nat, srcpos: nat, len: nat)
    requires h.Valid() && k < |h.views| && s < |h.views|
    requires destpos <= |h.views[k].live| && srcpos + len <= |h.views[s].live|
    ensures SameLinks(h.cells, InsertHeap(h, k, s, destpos, srcpos, len).cells)
  {
    var h1 := Reserved(h, k, |h.views[k].live| + len);
    var rs := SourceRoots(h, s, srcpos, len);
    InsertHeapIsOnto(h, k, s, destpos, srcpos, len);
    var r := Retain(h1.cells, rs);
    assert InsertHeap(h, k, s, destpos, srcpos, len).cells == r + ChildCells(rs);
    forall x | 0 <= x < |h.cells| ensures h1.cells[x] == h.cells[x] {
      assert h1.cells[..|h.cells|][x] == h1.cells[x];
    }
  }

  /** Live node `pos` of track `k` and live node `q` of track `s` read and write through the same parent. */
  ghost predicate SharesRoot(h: Heap, k: nat, pos: nat, s: nat, q: nat)
  {
    h.Valid() && k < |h.views| && pos < |h.views[k].live| && s < |h.views| && q < |h.views[s].live| &&
    InCells(h.cells, h.views[k].live) && InCells(h.cells, h.views[s].live) &&
    Root(h.cells, h.views[s].live[q]) == Root(h.cells, h.views[k].live[pos])
  }

  /**
   * After tr_insert from track `s` into another track `k`, each inserted
   * node reads and writes through the same parent as its source node.
   */
  lemma InsertedSharesRoot(h: Heap, k: nat, s: nat, destpos: nat, srcpos: nat, len: nat, i: nat)
    requires h.Valid() && k < |h.views| && s < |h.views| && k != s
    requires destpos <= |h.views[k].live| && srcpos + len <= |h.views[s].live| && i < len
    ensures SharesRoot(InsertHeap(h, k, s, destpos, srcpos, len), k, destpos + i, s, srcpos + i)
  {
    var h' := InsertHeap(h, k, s, destpos, srcpos, len);
    InsertHeapLinks(h, k, s, destpos, srcpos, len);
    InsertHeapSameLinks(h, k, s, destpos, srcpos, len);
    var x := h.views[s].live[srcpos + i];
    assert h'.views[s].live[srcpos + i] == x;
    assert h'.cells[h'.views[k].live[destpos + i]] == Child(Root(h.cells, x));
  }

  /** tr_write keeps the root of every node that was live before it. */
  lemma WriteHeapRoots(h: Heap, k: nat, pos: nat, src: seq<int16>, j: nat, q: nat)
    requires h.Valid() && k < |h.views| && j < |h.views| && q < |h.views[j].live|
    ensures var h' := WriteHeap(h, k, pos, src);
      InCells(h.cells, h.views[j].live) && h.views[j].live[q] < |h'.cells| &&
      Root(h'.cells, h.views[j].live[q]) == Root(h.cells, h.views[j].live[q])
  {
    assert InCells(h.cells, h.views[j].live);
    if src != [] {
      ExtendedFacts(h, k, pos + |src|);
      var h2 := Extended(h, k, pos + |src|);
      StoreKeeps(h2.cells, h2.views, k, pos, src);
      StampLinks(h2.cells, Roots(h2.cells, WindowOf(h2.views, k, pos, |src|)), src);
    }
  }

  /** Live node `q` of track `j` reads `v`. */
  ghost predicate ReadsAt(h: Heap, j: nat, q: nat, v: int16)
  {
    h.Valid() && j < |h.views| && q < |h.views[j].live| && h.Samples(j)[q] == v
  }

  /**
   * Writing `v` at one live node of track `k` makes every live node sharing
   * its root read `v`; with InsertedSharesRoot, a write over an inserted
   * node is read back through its source node.
   */
  lemma WriteOneAliases(h: Heap, k: nat, pos: nat, v: int16, j: nat, q: nat)
    requires SharesRoot(h, k, pos, j, q)
    ensures ReadsAt(WriteHeap(h, k, pos, [v]), j, q, v)
  {
    var h' := WriteHeap(h, k, pos, [v]);
    WriteHeapAliases(h, k, pos, [v]);
    WriteHeapKeeps(h, k, pos, [v]);
    WriteHeapRoots(h, k, pos, [v], k, pos);
    var d := h.views[k].live[pos];
    assert WindowOf(h'.views, k, pos, 1) == [d];
    assert Roots(h'.cells, [d]) == [Root(h.cells, d)];
  }

  /**
   * After tr_insert from track `s` into another track `k`, a tr_delete_range
   * of `s` reaching a source node that is a parent is refused.
   */
  lemma InsertProtectsSource(h: Heap, k: nat, s: nat, destpos: nat, srcpos: nat, len: nat, i: nat, pos: nat, n: nat)
    requires h.Valid() && k < |h.views| && s < |h.views| && k != s
    requires destpos <= |h.views[k].live| && srcpos + len <= |h.views[s].live| && i < len
    requires h.views[s].live[srcpos + i] < |h.cells| && h.cells[h.views[s].live[srcpos + i]].Parent?
    requires pos <= srcpos + i < pos + n
    ensures !DeleteAllowed(InsertHeap(h, k, s, destpos, srcpos, len), s, pos, n)
  {
    var h' := InsertHeap(h, k, s, destpos, srcpos, len);
    var p := h.views[s].live[srcpos + i];
    var rs := SourceRoots(h, s, srcpos, len);
    InsertHeapLinks(h, k, s, destpos, srcpos, len);
    SourceRootsAre(h, s, srcpos, len);
    OccurrencesPositive(rs, p, i);
    assert Counted(h.cells, h.views, p);
    assert h'.views[s].live[srcpos + i] == p;
    assert h'.cells[p].Parent? && h'.cells[p].refCount > 0;
  }
}
