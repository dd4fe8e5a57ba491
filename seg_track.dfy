/**
 * The track operations of sound_seg.c.  A `Track` is `struct sound_seg`: an
 * array of nodes whose first `length` slots are live, the rest spare.  The
 * nodes themselves live in the `Arena`, the heap all tracks share; a track's
 * array holds their handles.  The arena keeps a ghost registry of the tracks
 * so that its invariant (SegNodes.WellFormed) can speak of all of them.
 */
module SegTrack {
  import opened Basics
  import opened SegNodes
  import opened SegOps
  import opened SegHeap
  import opened SegLoops

  /** The heap: every node cell, and (ghost) every track that is alive. */
  class Arena {
    var cells: seq<Node>
    ghost var tracks: seq<Track>
    ghost var views: seq<Slots>

    ghost function Arrays(): set<array<Handle>>
      reads this, tracks
    {
      set j | 0 <= j < |tracks| :: tracks[j].nodes
    }

    ghost predicate Valid()
      reads this, tracks, Arrays()
    {
      && |views| == |tracks|
      && (forall j :: 0 <= j < |tracks| ==>
            tracks[j].heap == this && tracks[j].length <= tracks[j].nodes.Length &&
            views[j] == tracks[j].View())
      && (forall j1, j2 :: 0 <= j1 < j2 < |tracks| ==>
            tracks[j1] != tracks[j2] && tracks[j1].nodes != tracks[j2].nodes)
      && WellFormed(cells, views)
    }

    /** The arena's state as a value. */
    ghost function State(): Heap
      reads this
    {
      Heap(cells, views)
    }

    constructor ()
      ensures Valid() && cells == [] && tracks == []
    {
      cells, tracks, views := [], [], [];
    }

    /**
     * tr_destroy's work on the arena: the children among `hs`, the live
     * slots of track `k`, give back their references, and the track leaves
     * the registry.
     */
    method Drop(ghost k: nat, hs: seq<Handle>)
      requires Valid() && k < |tracks| && hs == views[k].live
      modifies this`cells, this`tracks, this`views
      ensures Valid() && tracks == old(tracks[..k] + tracks[k + 1..])
      ensures State() == DestroyHeap(old(State()), k)
    {
      ghost var h0, ts := State(), tracks;
      ghost var hd := DestroyHeap(h0, k);
      var released := ReleaseAll(cells, hs);
      cells, tracks, views := released, ts[..k] + ts[k + 1..], h0.views[..k] + h0.views[k + 1..];
      assert State() == hd;
      forall j | 0 <= j < |tracks| ensures tracks[j] == ts[if j < k then j else j + 1] && views[j] == h0.views[if j < k then j else j + 1] {
      }
    }
  }

  class Track {
    const heap: Arena
    var nodes: array<Handle>
    var length: nat

    /** The track's array as the arena's invariant sees it; `nodes.Length` is `capacity`. */
    ghost function View(): Slots
      reads this, nodes
      requires length <= nodes.Length
    {
      Slots(nodes[..length], nodes[length..])
    }

    ghost predicate Valid()
      reads this, heap, heap.tracks, heap.Arrays()
    {
      heap.Valid() && this in heap.tracks
    }

    /** This track's place in the arena's registry. */
    ghost function Index(): (k: nat)
      reads this, heap, heap.tracks, heap.Arrays()
      requires Valid()
      ensures k < |heap.tracks| && heap.tracks[k] == this && heap.views[k] == View()
    {
      var k :| 0 <= k < |heap.tracks| && heap.tracks[k] == this; k
    }

    /** The samples the track reads, child nodes resolved to their parents. */
    ghost function Contents(): (s: seq<int16>)
      reads this, heap, heap.tracks, heap.Arrays()
      requires Valid()
      ensures |s| == length
    {
      heap.State().Samples(Index())
    }

    /** `tr_init`: an empty track with no array (`nodes == NULL`, `capacity == 0`). */
    constructor (heap: Arena)
      requires heap.Valid()
      modifies heap
      ensures Valid() && this.heap == heap && fresh(nodes)
      ensures length == 0 && nodes.Length == 0 && Contents() == []
      ensures heap.tracks == old(heap.tracks) + [this] && heap.cells == old(heap.cells)
      ensures heap.views == old(heap.views) + [Slots([], [])]
    {
      this.heap := heap;
      nodes := new Handle[0];
      length := 0;
      new;
      InitKeeps(heap.cells, heap.views);
      assert View() == Slots([], []);
      heap.tracks := heap.tracks + [this];
      heap.views := heap.views + [Slots([], [])];
      assert heap.tracks[|heap.tracks| - 1] == this;
    }

    /** `tr_length`. */
    function Length(): (r: nat)
      reads this, heap, heap.tracks, heap.Arrays()
      requires Valid()
      ensures r == |Contents()|
    {
      length
    }

    /**
     * After this track's fields and the arena's cells changed, and the arena
     * records this track's new view, the arena is valid again when every other
     * track kept its array and the new cells and views are well formed.
     */
    static twostate lemma OthersKept(t: Track)
      requires old(t.Valid()) && t.heap.tracks == old(t.heap.tracks)
      requires t.length <= t.nodes.Length && t.heap.views == old(t.heap.views)[old(t.Index()) := t.View()]
      requires t.nodes == old(t.nodes) || fresh(t.nodes)
      requires forall j :: 0 <= j < |t.heap.tracks| && t.heap.tracks[j] != t ==>
        unchanged(t.heap.tracks[j]) && unchanged(t.heap.tracks[j].nodes)
      requires WellFormed(t.heap.cells, t.heap.views)
      ensures t.Valid() && t.Index() == old(t.Index())
    {
      var ts, k := t.heap.tracks, old(t.Index());
      forall j | 0 <= j < |ts| && j != k ensures ts[j].View() == old(t.heap.views)[j] && ts[j].nodes != t.nodes {
        assert old(ts[j].View()) == old(t.heap.views)[j];
      }
    }

    /** The arena's cells and views are well formed when they are those of a valid heap value. */
    static lemma ValidAt(h: Heap, cells: seq<Node>, views: seq<Slots>)
      requires h.Valid() && cells == h.cells && views == h.views
      ensures WellFormed(cells, views)
    {
    }

    /**
     * `tr_resize`: a request that does not grow the array does nothing;
     * otherwise the array is reallocated to `newCapacity` slots and each new
     * slot gets a zeroed parent.  No track's contents change.
     */
    method Resize(newCapacity: nat)
      requires Valid()
      modifies this, heap
      ensures Valid() && heap.tracks == old(heap.tracks) && Index() == old(Index()) && length == old(length)
      ensures heap.State() == ResizeHeap(old(heap.State()), Index(), newCapacity)
      ensures nodes.Length == Max(old(nodes.Length), newCapacity)
      ensures nodes == old(nodes) || fresh(nodes)
    {
      if newCapacity <= nodes.Length {
        return;
      }
      ghost var k := Index();
      ghost var c0, views0 := heap.cells, heap.views;
      var cap := nodes.Length;
      assert length <= cap;
      var first := |heap.cells|;
      var cells := AddZeros(heap.cells, newCapacity - cap);
      var grown := Extend(nodes, newCapacity, first);
      ghost var spare' := views0[k].spare + Fresh(first, newCapacity - cap);
      assert grown[..length] == nodes[..length];
      assert grown[length..] == spare';
      nodes := grown;
      assert View() == Slots(views0[k].live, spare');
      heap.cells, heap.views := cells, views0[k := View()];
      ResizeKeeps(c0, views0, k, newCapacity - cap);
      OthersKept(this);
    }

    /** tr_write's `length = new_length`: the spare slots up to `newLength` become live. */
    method Grow(newLength: nat)
      requires Valid() && length < newLength <= nodes.Length
      modifies this`length, heap`views
      ensures Valid() && Index() == old(Index())
      ensures heap.State() == GrowHeap(old(heap.State()), Index(), newLength)
    {
      ghost var k := Index();
      ghost var views0 := heap.views;
      ghost var m := newLength - length;
      GrowKeeps(heap.cells, views0, k, m);
      assert nodes[..newLength] == nodes[..length] + nodes[length..][..m];
      assert nodes[newLength..] == nodes[length..][m..];
      length := newLength;
      heap.views := views0[k := View()];
      OthersKept(this);
    }

    /** tr_write's resize and `length = new_length`: room for, then a length of, at least `newLength` slots. */
    method Expand(newLength: nat)
      requires Valid()
      modifies this, heap
      ensures Valid() && heap.tracks == old(heap.tracks) && Index() == old(Index())
      ensures heap.State() == Extended(old(heap.State()), old(Index()), newLength)
    {
      ghost var h0, k := heap.State(), Index();
      Reserve(newLength);
      assert |heap.State().views[k].live| == length;
      if newLength > length {
        Grow(newLength);
      }
    }

    /** tr_write's loop over the window `[pos, pos + |src|)`. */
    method Store(src: seq<int16>, pos: nat)
      requires Valid() && pos + |src| <= length
      modifies heap`cells
      ensures Valid() && Index() == old(Index())
      ensures heap.State() == StoreHeap(old(heap.State()), Index(), pos, src)
    {
      ghost var k := Index();
      StoreKeeps(heap.cells, heap.views, k, pos, src);
      assert nodes[pos..pos + |src|] == WindowOf(heap.views, k, pos, |src|);
      heap.cells := WriteThrough(heap.cells, nodes[pos..pos + |src|], src);
    }

    /**
     * `tr_write`: stores `src[..len]` at `pos`, first resizing the array to
     * twice `pos + len` when that exceeds the capacity and raising the length
     * to `pos + len` when that exceeds it.
     */
    method Write(src: seq<int16>, pos: nat, len: nat)
      requires Valid() && len <= |src|
      modifies this, heap
      ensures Valid() && heap.tracks == old(heap.tracks) && Index() == old(Index())
      ensures heap.State() == WriteHeap(old(heap.State()), Index(), pos, src[..len])
    {
      if len == 0 {
        return;
      }
      Expand(pos + len);
      Store(src[..len], pos);
    }

    /**
     * `tr_read`: nothing when `pos` is at or past the length or `len` is 0;
     * otherwise the first min(len, length - pos) cells of `dest` get the
     * samples from `pos` on, each child read through its parent.
     */
    method Read(dest: array<int16>, pos: nat, len: nat)
      requires Valid()
      requires pos < length && len > 0 ==> Min(len, length - pos) <= dest.Length
      modifies dest
      ensures var c := Copied(old(Contents()), pos, len);
        |c| <= dest.Length && dest[..|c|] == c && dest[|c|..] == old(dest[..])[|c|..]
    {
      if pos >= length || len == 0 {
        return;
      }
      var available := length - pos;
      var toCopy := if len < available then len else available;
      ghost var k := Index();
      ghost var live := heap.views[k].live;
      ResolveSlice(heap.cells, live, pos, pos + toCopy);
      assert live[pos..pos + toCopy] == nodes[pos..pos + toCopy];
      CopySamples(dest, heap.cells, nodes, pos, toCopy);
    }

    /**
     * tr_delete_range once its checks passed: the children among the live
     * slots `[pos, end)` give back their references, the later nodes move
     * down, the vacated tail gets fresh zeroed parents, and the length drops
     * by `end - pos`.
     */
    method Cut(pos: nat, end: nat)
      requires Valid() && pos < end <= length
      modifies this`length, nodes, heap`cells, heap`views
      ensures Valid() && heap.tracks == old(heap.tracks) && Index() == old(Index())
      ensures heap.State() == DeleteHeap(old(heap.State()), old(Index()), pos, end - pos)
    {
      ghost var h0, k := heap.State(), Index();
      ghost var hd := DeleteHeap(h0, k, pos, end - pos);
      assert end == DeleteEnd(h0.views[k], pos, end - pos);
      assert h0.views[k].live == nodes[..length];
      PrefixSlice(nodes[..], length, pos, end);
      var removed := nodes[pos..end];
      var first := |heap.cells|;
      var cells := Prune(heap.cells, removed);
      ghost var a0 := nodes[..];
      assert h0.views[k] == Slots(a0[..length], a0[length..]);
      var oldLength := length;
      length, heap.cells, heap.views := length - (end - pos), cells, hd.views;
      ShiftDown(nodes, pos, end, oldLength, first);
      DeletedView(nodes[..], a0, oldLength, pos, end, first);
      ValidAt(hd, heap.cells, heap.views);
      OthersKept(this);
    }

    /**
     * `tr_delete_range`: fails, changing nothing, when `pos` is at or past the
     * length, `len` is 0, or a parent among the slots `[pos, end)` is referred
     * to; otherwise cuts those slots out.
     */
    method Delete(pos: nat, len: nat) returns (ok: bool)
      requires Valid()
      modifies this`length, nodes, heap`cells, heap`views
      ensures Valid() && heap.tracks == old(heap.tracks) && Index() == old(Index())
      ensures ok == DeleteAllowed(old(heap.State()), old(Index()), pos, len)
      ensures !ok ==> heap.State() == old(heap.State())
      ensures ok ==> heap.State() == DeleteHeap(old(heap.State()), old(Index()), pos, len)
    {
      ghost var h0, k := heap.State(), Index();
      if pos >= length || len == 0 {
        return false;
      }
      var end := if pos + len > length then length else pos + len;
      assert end == DeleteEnd(h0.views[k], pos, len);
      assert h0.views[k].live == nodes[..length];
      PrefixSlice(nodes[..], length, pos, end);
      DeleteAllowedSlice(h0, k, pos, len);
      ok := Unreferenced(heap.cells, nodes[pos..end]);
      if !ok {
        return;
      }
      assert DeleteHeap(h0, k, pos, len) == DeleteHeap(h0, k, pos, end - pos);
      Cut(pos, end);
    }

    /**
     * tr_insert once the array has room: the nodes from `destpos` move up by
     * `|rs|`, and slot `destpos + i` gets a fresh child of the parent `rs[i]`.
     */
    method Splice(rs: seq<Handle>, destpos: nat)
      requires Valid() && destpos <= length && length + |rs| <= nodes.Length
      requires ParentsAt(heap.cells, rs) && forall i :: 0 <= i < |rs| ==> NotSpare(heap.views, rs[i])
      modifies this`length, nodes, heap`cells, heap`views
      ensures Valid() && heap.tracks == old(heap.tracks) && Index() == old(Index())
      ensures heap.State() == InsertOnto(old(heap.State()), old(Index()), destpos, rs)
    {
      ghost var h1, k := heap.State(), Index();
      assert |h1.views[k].spare| == nodes.Length - length;
      InsertKeeps(h1.cells, h1.views, k, destpos, rs);
      heap.cells := Open(nodes, heap.cells, length, rs, destpos);
      var n := |rs|;
      length, heap.views := length + n, h1.views[k := Slots(nodes[..length + n], nodes[length + n..])];
      ghost var hn := InsertOnto(h1, k, destpos, rs);
      ValidAt(hn, heap.cells, heap.views);
      OthersKept(this);
    }

    /** The resize of tr_write and tr_insert: to twice `newLength` slots when that exceeds the capacity. */
    method Reserve(newLength: nat)
      requires Valid()
      modifies this, heap
      ensures Valid() && heap.tracks == old(heap.tracks) && Index() == old(Index()) && length == old(length)
      ensures heap.State() == Reserved(old(heap.State()), old(Index()), newLength)
      ensures newLength <= nodes.Length && (nodes == old(nodes) || fresh(nodes))
    {
      assert Capacity(heap.views[Index()]) == nodes.Length;
      if newLength > nodes.Length {
        Resize(newLength * 2);
      }
    }

    /**
     * tr_insert once the parents `rs` are found: the array is resized to
     * twice the new length when that exceeds the capacity, then the children
     * of `rs` are spliced in at `destpos`.
     */
    method Place(rs: seq<Handle>, destpos: nat, ghost s: nat, ghost srcpos: nat, ghost len: nat)
      requires Valid() && destpos <= length
      requires s < |heap.views| && srcpos + len <= |heap.views[s].live| && rs == SourceRoots(heap.State(), s, srcpos, len)
      modifies this, nodes, heap
      ensures Valid() && heap.tracks == old(heap.tracks) && Index() == old(Index())
      ensures heap.State() == InsertHeap(old(heap.State()), old(Index()), s, destpos, srcpos, len)
    {
      ghost var h, k := heap.State(), Index();
      var newLength := length + |rs|;
      assert newLength == |h.views[k].live| + len;
      ReservedRoots(h, k, newLength, rs);
      Reserve(newLength);
      ghost var h1 := heap.State();
      Splice(rs, destpos);
      InsertHeapPlaced(h, k, s, destpos, srcpos, len, rs, newLength, h1);
    }

    /**
     * `tr_insert` of the nodes `[srcpos, srcpos + len)` of `src` into `dest` at
     * `destpos`: nothing when `len` is 0 or the range runs past the end of
     * `src`.  Otherwise the parents the source nodes read from are found
     * first, `dest` is resized to twice its new length when that exceeds its
     * capacity, its nodes from `destpos` move up by `len`, and each gap slot
     * gets a fresh child of the matching parent, which gains a reference.
     */
    static method Insert(src: Track, dest: Track, destpos: nat, srcpos: nat, len: nat)
      requires src.Valid() && dest.Valid() && src.heap == dest.heap
      requires srcpos + len <= src.length && len > 0 ==> destpos <= dest.length
      modifies dest, dest.nodes, dest.heap
      ensures dest.Valid() && src.Valid() && dest.heap.tracks == old(dest.heap.tracks)
      ensures dest.Index() == old(dest.Index()) && src.Index() == old(src.Index())
      ensures srcpos + len > old(src.length) || len == 0 ==> dest.heap.State() == old(dest.heap.State())
      ensures srcpos + len <= old(src.length) && len > 0 ==> (dest.heap.State() ==
        InsertHeap(old(dest.heap.State()), old(dest.Index()), old(src.Index()), destpos, srcpos, len))
    {
      if srcpos + len > src.length || len == 0 {
        return;
      }
      ghost var h0, k, s := dest.heap.State(), dest.Index(), src.Index();
      var rs := src.RootsAt(srcpos, len);
      assert dest.heap.State() == h0 && dest.Index() == k;
      dest.Place(rs, destpos, s, srcpos, len);
      Registered(src);
    }

    /** tr_insert's first loop: the parents the nodes `[srcpos, srcpos + len)` read from. */
    method RootsAt(srcpos: nat, len: nat) returns (rs: seq<Handle>)
      requires Valid() && srcpos + len <= length
      ensures rs == SourceRoots(heap.State(), Index(), srcpos, len)
    {
      ghost var h0, s := heap.State(), Index();
      ghost var live := h0.views[s].live;
      assert live == nodes[..length];
      PrefixSlice(nodes[..], length, srcpos, srcpos + len);
      assert InCells(h0.cells, live);
      assert InCells(h0.cells, live[srcpos..srcpos + len]) by {
        ResolveSlice(h0.cells, live, srcpos, srcpos + len);
      }
      rs := RootsOf(heap.cells, nodes[srcpos..srcpos + len]);
    }

    /** A track stays valid, at its place, while the arena stays valid and keeps its registry. */
    static twostate lemma Registered(t: Track)
      requires old(t.Valid()) && t.heap.Valid() && t.heap.tracks == old(t.heap.tracks)
      ensures t.Valid() && t.Index() == old(t.Index())
    {
      assert t.heap.tracks[old(t.Index())] == t;
    }

    /**
     * `tr_destroy`: each child of the track gives back its reference to its
     * parent, and the track leaves the arena.
     */
    method Destroy()
      requires Valid()
      modifies heap
      ensures heap.Valid() && heap.tracks == old(heap.tracks[..Index()] + heap.tracks[Index() + 1..])
      ensures heap.State() == DestroyHeap(old(heap.State()), old(Index()))
    {
      ghost var k := Index();
      assert nodes[..length] == heap.views[k].live;
      heap.Drop(k, nodes[..length]);
    }
  }
}
