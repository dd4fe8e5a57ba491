/**
 * Two behaviours of sound_seg.c as its code is written, each on a small
 * model of the node array as the samples its nodes read, with the input that
 * shows it departing from what the code evidently means.  The rest of the
 * model (SegHeap, SegTrack) follows the evidently intended behaviour.
 */
module AsWritten {
  import opened Basics
  import opened SegHeap

  // ---------------------------------------------------------------------------
  // tr_insert of a track into itself

  /**
   * The array after tr_insert's memmove, seen as samples: the nodes from
   * `destpos` on move up by `len`; the `len` slots from `destpos` still hold
   * what they held (a spare slot past the old end reads 0).
   */
  function Shifted(s: seq<int16>, destpos: nat, len: nat): (b: seq<int16>)
    requires destpos <= |s|
    ensures |b| == |s| + len
  {
    seq(|s| + len, q requires 0 <= q < |s| + len =>
      if q >= destpos + len then s[q - len] else if q < |s| then s[q] else 0)
  }

  /**
   * tr_insert's loop from step `i` on, when the source track is the
   * destination: slot `destpos + i` gets a child of the node now at
   * `srcpos + i`, which it reads through.  This is the loop's effect only
   * when no step links to a gap slot a later step (or the same step)
   * overwrites, that is when `srcpos` lies outside `[destpos, destpos + len)`:
   * otherwise a child is left pointing at a node whose bytes become another
   * child's links.
   */
  function CopyIn(b: seq<int16>, destpos: nat, srcpos: nat, len: nat, i: nat): (r: seq<int16>)
    requires destpos + len <= |b| && srcpos + len <= |b|
    requires srcpos < destpos || destpos + len <= srcpos
    ensures |r| == |b|
    decreases len - i
  {
    if i >= len then b else CopyIn(b[destpos + i := b[srcpos + i]], destpos, srcpos, len, i + 1)
  }

  /**
   * tr_insert(T, T, destpos, srcpos, len) as written, on the samples of T,
   * when `srcpos` lies outside `[destpos, destpos + len)`.
   */
  function SelfInsertAsWritten(s: seq<int16>, destpos: nat, srcpos: nat, len: nat): (r: seq<int16>)
    requires destpos <= |s|
    requires srcpos < destpos || destpos + len <= srcpos
  {
    if srcpos + len > |s| || len == 0 then s else CopyIn(Shifted(s, destpos, len), destpos, srcpos, len, 0)
  }

  /** What inserting `s[srcpos..srcpos + len]` at `destpos` means. */
  function Spliced(s: seq<int16>, destpos: nat, srcpos: nat, len: nat): seq<int16>
    requires destpos <= |s| && srcpos + len <= |s|
  {
    s[..destpos] + s[srcpos..srcpos + len] + s[destpos..]
  }

  /**
   * On `[10, 11, 12, 13, 14]`, inserting the track's own slots 3 and 4 at 1
   * reads back the shifted slots 1 and 2 instead.
   */
  lemma SelfInsertReadsShifted()
    ensures SelfInsertAsWritten([10, 11, 12, 13, 14], 1, 3, 2) == [10, 11, 12, 11, 12, 13, 14]
    ensures Spliced([10, 11, 12, 13, 14], 1, 3, 2) == [10, 13, 14, 11, 12, 13, 14]
  {
    var s: seq<int16> := [10, 11, 12, 13, 14];
    var b := Shifted(s, 1, 2);
    assert b == [10, 11, 12, 11, 12, 13, 14];
    assert CopyIn(b, 1, 3, 2, 0) == CopyIn(b[1 := b[3]], 1, 3, 2, 1);
    var b1 := b[1 := b[3]];
    assert b1 == [10, 11, 12, 11, 12, 13, 14];
    assert CopyIn(b1, 1, 3, 2, 1) == CopyIn(b1[2 := b1[4]], 1, 3, 2, 2);
    assert b1[2 := b1[4]] == b1;
  }

  /**
   * With the source parents taken before the shift, inserting a track into
   * itself reads back the spliced samples.
   */
  lemma SelfInsertSpliced(h: Heap, k: nat, destpos: nat, srcpos: nat, len: nat)
    requires h.Valid() && k < |h.views| && destpos <= |h.views[k].live| && srcpos + len <= |h.views[k].live|
    ensures InsertHeap(h, k, k, destpos, srcpos, len).Samples(k) == Spliced(h.Samples(k), destpos, srcpos, len)
  {
    InsertHeapContents(h, k, k, destpos, srcpos, len);
  }

  // ---------------------------------------------------------------------------
  // tr_delete_range's vacated slots

  /**
   * A track whose nodes are all parents (as tr_write alone makes them), as
   * the samples of its array's slots, and its length.  With no children
   * nothing is referenced, so tr_delete_range never refuses.
   */
  datatype Raw = Raw(slots: seq<int16>, length: nat)

  function Zeros(n: nat): (z: seq<int16>)
    ensures |z| == n && forall i :: 0 <= i < n ==> z[i] == 0
  {
    seq(n, _ => 0)
  }

  /** tr_resize: the new slots are zeroed parents. */
  function RawResize(t: Raw, capacity: nat): (r: Raw)
    ensures |r.slots| == Max(|t.slots|, capacity) && r.length == t.length
  {
    if capacity <= |t.slots| then t else Raw(t.slots + Zeros(capacity - |t.slots|), t.length)
  }

  /** tr_write as written. */
  function RawWrite(t: Raw, src: seq<int16>, pos: nat): (r: Raw)
  {
    if src == [] then t
    else
      var n := pos + |src|;
      var t1 := if n > |t.slots| then RawResize(t, 2 * n) else t;
      Raw(t1.slots[..pos] + src + t1.slots[n..], Max(t1.length, n))
  }

  /**
   * tr_delete_range as written: the memmove copies the later slots down,
   * and the slots it vacates keep what they held.
   */
  function RawDelete(t: Raw, pos: nat, len: nat): (r: Raw)
    requires t.length <= |t.slots|
  {
    if pos >= t.length || len == 0 then t
    else
      var end := if pos + len > t.length then t.length else pos + len;
      Raw(t.slots[..pos] + t.slots[end..t.length] + t.slots[t.length - (end - pos)..], t.length - (end - pos))
  }

  /** tr_read as written. */
  function RawRead(t: Raw, pos: nat, len: nat): seq<int16>
    requires t.length <= |t.slots|
  {
    Copied(t.slots[..t.length], pos, len)
  }

  /**
   * Write `[7, 8]` at 0, delete slot 0, write `[5]` at 2: slot 1 lies in
   * the gap the second write opens, yet reads the stale 8 the memmove left
   * there, not 0.
   */
  lemma DeletedTailReappears()
    ensures var t1 := RawWrite(Raw([], 0), [7, 8], 0);
      var t2 := RawDelete(t1, 0, 1);
      var t3 := RawWrite(t2, [5], 2);
      t2.length == 1 && t3.length == 3 && RawRead(t3, 1, 1) == [8]
  {
    var t1 := RawWrite(Raw([], 0), [7, 8], 0);
    assert t1 == Raw([7, 8, 0, 0], 2);
    var t2 := RawDelete(t1, 0, 1);
    assert t2 == Raw([8, 8, 0, 0], 1);
    var t3 := RawWrite(t2, [5], 2);
    assert t3 == Raw([8, 8, 5, 0], 3);
  }
}
