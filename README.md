# Sound segments with shared samples, in Dafny

This project models the track store of `sound_seg.c` and proves what it promises.
A track is an array of 16-bit sample nodes. It has a length (the live nodes) and a capacity (the allocated nodes).
A node is either a **parent**, which owns a sample and counts the children that refer to it, or a **child**, which reads and writes through its parent.
The operations are:

- `tr_init`, `tr_destroy`, `tr_length` and `tr_resize`;
- `tr_read` and `tr_write`;
- `tr_delete_range`, which may refuse;
- `tr_insert`, an insert without copying: the inserted nodes become children of the source's parents;
- `tr_identify`, which scans a target track for the windows that match an advertisement track.

The project also models the id-based node table of `node_memory_management.c`: `alloc_node`, `free_node`, `get_node`, `get_sample` and `set_sample`.

Layout:

- `basics.dfy` (`Basics`): machine integer types, `Option`, `Min`/`Max`.
- `seg_nodes.dfy` (`SegNodes`): the node store as values.
  - Nodes live in cells of one arena, named by stable handles. A track's array holds handles.
  - `WellFormed` is the invariant over all tracks. Every child refers to a parent. Spare slots hold zeroed parents. No cell sits in two slots. Every parent's `refCount` is the number of live children that refer to it.
- `seg_ops.dfy` (`SegOps`): the cell-level effect of each loop, and the proofs that each step keeps `WellFormed`.
- `seg_heap.dfy` (`SegHeap`): each track operation as a function from the arena's state before to its state after, and the promised properties as lemmas about those functions.
- `seg_loops.dfy` (`SegLoops`): the loops of the operations (array shifts, the fill, the copy-out, the write-through), each as a method proved against a function.
- `seg_track.dfy` (`SegTrack`): the classes.
  - `Arena` is the shared heap of cells. It keeps a ghost registry of the live tracks.
  - `Track` is `struct sound_seg`. Its `nodes` array has `capacity` slots, of which the first `length` are live.
  - Every method is proved to leave the arena in exactly the `SegHeap` function of the state before.
- `seg_scenarios.dfy` (`SegScenarios`): properties that span operations. An inserted node aliases its source node, a write through either side is seen through both, and the source's parents can no longer be deleted.
- `identify.dfy` (`Identify`): `tr_identify`.
  - The scan loop is a method proved against a recursive match list.
  - The report format is proved to decode back to the windows found.
  - The correlation score is a parameter.
- `node_memory.dfy` (`NodeMemory`): the global node table as a class over an array of optional nodes, with the parent-id walk of `get_sample`/`set_sample`.
- `as_written.dfy` (`AsWritten`): two places where `sound_seg.c` as written departs from what it evidently means (see Findings).

Two choices deserve a note.

- **Handles instead of addresses.** `tr_resize` reallocates an array and `tr_insert`/`tr_delete_range` move nodes with `memmove`. In the C code a child holds the address of its parent's sample, so both can leave children pointing at stale memory. The model gives every node a stable handle, so a child keeps its parent across reallocation and shifts. This is the behaviour the code evidently intends.
- **Sample width.** Samples are `int16` (a Dafny `newtype` on −32768..32767). Lengths and positions are unbounded `nat`s.

## Model

| member | source | states |
|---|---|---|
| SegTrack.Track.constructor | sound_seg.c:33-40 | A new track has length 0, capacity 0 and reads `[]`; the arena gains its empty slots and no cell changes |
| SegTrack.Track.Length | sound_seg.c:54-56 | `tr_length` is the number of samples the track reads |
| SegTrack.Track.Resize | sound_seg.c:58-70 | The arena becomes `ResizeHeap` of its old state; the array has max(capacity, newCapacity) slots; the length is unchanged |
| SegHeap.ResizeHeapKeeps | sound_seg.c:58-70 | A resize keeps the invariant and reaches capacity max(old, new). No track's live slots, samples or roots change, and other tracks keep their slots |
| SegHeap.ResizeHeap | sound_seg.c:58-70 | `tr_resize` of one track: nothing unless the new capacity exceeds the old; otherwise fresh zeroed parent cells are appended to the arena and to the track's spare slots |
| SegLoops.Extend | sound_seg.c:60-68 | The reallocated array holds the old handles, then fresh handles for the new slots |
| SegLoops.AddZeros | sound_seg.c:64-68 | The new cells are zeroed parents appended to the arena |
| SegOps.ResizeKeeps | sound_seg.c:58-70 | Adding zeroed spare cells to a track keeps `WellFormed` |
| SegTrack.Track.Read | sound_seg.c:72-80 | `dest` gets exactly `Copied(contents, pos, len)` (min(len, length − pos) resolved samples, or nothing when pos ≥ length or len = 0) and is unchanged after that |
| SegHeap.Copied | sound_seg.c:73-75 | The number of samples copied is 0 when pos ≥ length or len = 0, otherwise min(len, length − pos), and element i is sample pos + i |
| SegLoops.CopySamples | sound_seg.c:76-79 | `dest[..n]` is what the nodes `a[pos..pos+n]` read, each child through its parent; the rest of `dest` is unchanged |
| SegTrack.Track.Write | sound_seg.c:82-99 | The arena becomes `WriteHeap(old, k, pos, src[..len])`: nothing for len = 0, otherwise the resize, the length raise and the write-through |
| SegTrack.Track.Expand | sound_seg.c:84-90 | After the resize and the length raise, the arena is `Extended(old, k, pos + len)` |
| SegTrack.Track.Grow | sound_seg.c:88-90 | Raising the length makes the spare slots up to the new length live (`GrowHeap`) |
| SegHeap.GrowHeap | sound_seg.c:88-90 | `length = new_length`: the first spare slots up to the new length become live, in order |
| SegHeap.StoreHeap | sound_seg.c:91-98 | The write loop on the arena: `src` stamped through the roots of the window; the result keeps the invariant and no track's slots change |
| SegHeap.WriteHeap | sound_seg.c:82-99 | `tr_write` on the arena: nothing for an empty `src`, otherwise the resize and length raise, then the write loop |
| SegTrack.Track.Store | sound_seg.c:91-98 | The write loop stamps `src` through the roots of the window (`StoreHeap`); no track's slots change |
| SegHeap.Extended | sound_seg.c:84-90 | The state before the write loop keeps the invariant and has at least `n` live slots |
| SegHeap.ExtendedFacts | sound_seg.c:84-90 | The length becomes max(length, n). Every old live node keeps its slot, sample and root. The new slots hold zeroed parents. Other tracks keep their live slots |
| SegHeap.WriteHeapKeeps | sound_seg.c:82-99 | A write keeps the invariant. The new length is max(length, pos + len), or unchanged for len = 0. Every old live slot stays. Other tracks keep their slots |
| SegHeap.WriteHeapReadBack | sound_seg.c:91-98 | After a write, each window node reads the last sample aimed at its root; when the window's roots are distinct it reads back exactly `src` |
| SegHeap.WriteHeapAliases | sound_seg.c:91-98 | After a write, every live node of every track reads the last sample written to its root, or its old sample when none was. A write through a child is seen through every alias |
| SegHeap.WriteHeapGap | sound_seg.c:84-90 | After a write past the end, the slots between the old length and `pos` read 0 |
| SegOps.Stamp | sound_seg.c:91-98 | Each parent among the roots gets the last sample aimed at it; every other cell is unchanged |
| SegOps.StampReadBack | sound_seg.c:91-98 | Stamping through the roots of nodes whose roots are distinct makes those nodes read back `src` |
| SegOps.StampResolve | sound_seg.c:91-98 | After a stamp, node by node, a run reads `Overwritten` of what it read, and its roots are unchanged |
| SegOps.WriteReadBack | sound_seg.c:91-98 | A window with distinct roots reads back `src` after the stamp |
| SegLoops.WriteThrough | sound_seg.c:91-98 | The write loop leaves the cells at `Stamp(cells, Roots(window), src)` |
| SegOps.StampKeeps | sound_seg.c:91-98 | Stamping samples into parents keeps `WellFormed` |
| SegOps.GrowKeeps | sound_seg.c:88-90 | Making spare slots live keeps `WellFormed` |
| SegTrack.Track.Delete | sound_seg.c:101-125 | `ok` holds exactly when pos < length, len > 0 and no parent in [pos, end) is referred to. On failure the arena is unchanged; on success it is `DeleteHeap` |
| SegTrack.Track.Cut | sound_seg.c:112-123 | The release, the shift and the length drop leave the arena at `DeleteHeap(old, k, pos, end − pos)` |
| SegHeap.DeleteAllowedSlice | sound_seg.c:102-110 | Once pos is live and len positive, the delete check is `NoneReferenced` on the slice [pos, end) |
| SegHeap.DeleteAllowed | sound_seg.c:102-110 | `tr_delete_range` goes ahead exactly when pos is live, len is positive and no parent in [pos, min(pos + len, length)) has a positive `refCount` |
| SegHeap.DeleteHeap | sound_seg.c:112-123 | A successful delete keeps the invariant. Each parent's count drops by its children among the removed slots |
| SegHeap.DeleteHeapContents | sound_seg.c:119-123 | After a delete the length drops by end − pos, the track reads `samples[..pos] + samples[end..]`, and every other track reads what it read |
| SegHeap.DeleteHeapOwn | sound_seg.c:119-123 | The deleted track reads `samples[..pos] + samples[end..]` |
| SegHeap.DeleteHeapNoOrphans | sound_seg.c:105-110 | After an allowed delete, no live node of any track reads through a removed parent |
| SegLoops.Unreferenced | sound_seg.c:106-110 | The check loop answers exactly `NoneReferenced` |
| SegLoops.Prune | sound_seg.c:113-117 | The cells become `DeleteCells`: each removed child gives back its reference, and zeroed parents are appended for the vacated slots |
| SegLoops.ShiftDown | sound_seg.c:120-122 | The array becomes the slots before pos, the slots [end, length) moved down, fresh handles for the vacated slots, then the old spare slots |
| SegLoops.DeletedView | sound_seg.c:120-123 | After the shift and the length drop, the track's live and spare slots are `DeleteSlots` |
| SegOps.DeleteSlots | sound_seg.c:119-123 | The track's slots after a delete: the live slots before pos, then those from end on moved down; the vacated slots become fresh spare slots |
| SegOps.DeleteCells | sound_seg.c:113-117 | The cells after a delete: each removed child gives back its reference, and zeroed parents are added for the vacated slots |
| SegOps.Release | sound_seg.c:45-49 | Each parent's count drops by the number of its children among `hs`; links are unchanged |
| SegOps.DeleteKeeps | sound_seg.c:112-123 | A delete whose slots pass the check keeps `WellFormed` |
| SegTrack.Track.Insert | sound_seg.c:127-154 | Nothing changes when len = 0 or srcpos + len > src.length. Otherwise the arena becomes `InsertHeap(old, dest, src, destpos, srcpos, len)` |
| SegTrack.Track.RootsAt | sound_seg.c:141-146 | The parents the source nodes [srcpos, srcpos+len) read through |
| SegTrack.Track.Reserve | sound_seg.c:129-132 | The array is resized to twice `newLength` when that exceeds the capacity (`Reserved`); the length is unchanged |
| SegTrack.Track.Place | sound_seg.c:129-153 | With the parents found, the resize, shift and fill leave the arena at `InsertHeap` |
| SegTrack.Track.Splice | sound_seg.c:134-153 | The shift and fill leave the arena at `InsertOnto` |
| SegHeap.InsertHeap | sound_seg.c:127-154 | After an insert the invariant holds. Each parent's count rises by its number of occurrences among the source roots |
| SegHeap.InsertHeapContents | sound_seg.c:127-154 | After an insert the destination has len more slots and reads `dest[..destpos] + src[srcpos..srcpos+len] + dest[destpos..]`. Every other track reads what it read. This holds also when source and destination are the same track |
| SegHeap.InsertHeapLinks | sound_seg.c:134-152 | The old nodes keep their order around the gap. Inserted node i is `Child(root of source node srcpos + i)`. Other tracks keep their slots |
| SegHeap.SourceRoots | sound_seg.c:142-146 | The source roots are `len` parents, none in a spare slot |
| SegHeap.SourceRootsAre | sound_seg.c:142-146 | Source root i is the root of source node srcpos + i |
| SegHeap.Reserved | sound_seg.c:129-132 | The resize only appends cells |
| SegHeap.ReservedRoots | sound_seg.c:129-132 | The resize keeps the invariant and the live slots, and makes room for `n` slots. Parents in no spare slot stay in none |
| SegHeap.ReservedFacts | sound_seg.c:129-132 | The resize keeps every track's live slots and samples and the source roots; the roots hold the source samples |
| SegHeap.InsertOntoLinks | sound_seg.c:134-152 | The shift and fill put the old nodes around the gap and a child of `rs[i]` at destpos + i |
| SegHeap.InsertOnto | sound_seg.c:134-152 | The shift and fill on the arena: a fresh child per root, spliced into the destination at destpos |
| SegOps.InsertSlots | sound_seg.c:134-138 | The destination's slots after an insert: the live slots before destpos, the new children, then the old live slots from destpos on |
| SegOps.InsertCells | sound_seg.c:141-152 | The cells after an insert: one new child per root, each root retained once per child |
| SegHeap.InsertOntoFacts | sound_seg.c:134-152 | The shift and fill keep the invariant and the other tracks. The destination reads the old samples around the samples of `rs` |
| SegHeap.InsertHeapIsOnto | sound_seg.c:127-154 | An insert is the shift and fill applied after the resize |
| SegHeap.InsertHeapPlaced | sound_seg.c:127-154 | The same, with the parents and the resized state named by the caller |
| SegLoops.RootsOf | sound_seg.c:142-146 | The walk from each node finds exactly its root |
| SegLoops.ShiftUp | sound_seg.c:135-138 | The memmove moves [destpos, length) up by len |
| SegLoops.Fill | sound_seg.c:141-152 | The fill loop leaves the cells at `InsertCells` and puts fresh child handles at [destpos, destpos + len) |
| SegLoops.Open | sound_seg.c:134-152 | Shift plus fill: the live slots are old prefix, fresh children, old suffix; the cells are `InsertCells` |
| SegLoops.InsertedView | sound_seg.c:134-153 | After shift and fill the live and spare slots are `InsertSlots` |
| SegOps.Retain | sound_seg.c:151 | Each parent's count rises by its number of occurrences in `rs`; links are unchanged |
| SegOps.WithChild | sound_seg.c:147-151 | One fill step appends `Child(p)`, raises p's count by one and changes no other cell |
| SegOps.InsertKeeps | sound_seg.c:127-154 | An insert of children of live parents keeps `WellFormed` |
| SegScenarios.InsertedSharesRoot | sound_seg.c:141-152 | After an insert into another track, each inserted node has the same root as its source node |
| SegScenarios.WriteOneAliases | sound_seg.c:91-98 | Writing v at one node makes every live node sharing its root read v |
| SegScenarios.InsertProtectsSource | sound_seg.c:105-110 | After an insert into another track, a delete of the source over a source parent is refused |
| SegScenarios.InsertHeapSameLinks | sound_seg.c:141-152 | An insert keeps each old cell's kind and each old child's parent |
| SegScenarios.WriteHeapRoots | sound_seg.c:82-99 | A write keeps the root of every node that was live before it |
| SegTrack.Track.Destroy | sound_seg.c:42-52 | The arena becomes `DestroyHeap`: the track leaves the registry and its children give back their references |
| SegTrack.Arena.Drop | sound_seg.c:44-51 | The same, as the arena's own step |
| SegHeap.DestroyHeap | sound_seg.c:42-52 | After a destroy the invariant holds with one track fewer. Each parent's count drops by its children in the destroyed track |
| SegHeap.DestroyHeapContents | sound_seg.c:42-52 | After a destroy every other track keeps its slots and reads what it read |
| SegLoops.ReleaseAll | sound_seg.c:45-49 | The release loop leaves the cells at `Release` |
| SegOps.DestroyKeeps | sound_seg.c:42-52 | Releasing a track's children and dropping its slots keeps `WellFormed` |
| Identify.IdentifyTracks | sound_seg.c:166-221 | The result is `Identified(target contents, ad contents, accept)` |
| Identify.ReadAll | sound_seg.c:177-178 | Reading a whole track gives its contents |
| Identify.Scan | sound_seg.c:167-221 | On sample sequences the result is `Identified`: "" when the ad is longer or empty, otherwise the newline-joined report |
| Identify.Collect | sound_seg.c:190-211 | The loop's buffer is one "i,i+len−1\n" line per greedy match, each scan resuming past the match |
| Identify.ReportStep | sound_seg.c:192-209 | A match at i followed by the scan from i + len is the scan from i (the skip of line 209) |
| Identify.MatchesSound | sound_seg.c:190-211 | Every reported start satisfies `accept` on its window and fits in the target. Reported windows are in increasing order and do not overlap |
| Identify.MatchesComplete | sound_seg.c:190-211 | Every window that satisfies `accept` overlaps some reported window |
| Identify.MatchesNone | sound_seg.c:190-211 | No window is reported exactly when no window satisfies `accept` |
| Identify.Matches | sound_seg.c:190-211 | The scan from i: a scoring window is reported and the scan resumes at its end; otherwise the scan moves on by one |
| Identify.MatchesGreedy | sound_seg.c:190-211 | The first report is the first scoring window from i. Each later report is the first scoring window at or after the end of the one before. No window scores at or after the end of the last report, or from i when there is none |
| Identify.WindowsGreedy | sound_seg.c:190-211 | The windows of greedy reports start at the greedy positions and end len − 1 later |
| Identify.IdentifiedGreedy | sound_seg.c:166-221 | Read back, the result lists exactly the windows the greedy scan picks: the first scoring window, then each first scoring window past the end of the one before, and none past the last |
| Identify.IdentifiedEmpty | sound_seg.c:167-219 | The result is "" exactly when the ad is longer than the target, the ad is empty, or no window scores. A non-empty result ends in a digit, so it has no trailing newline |
| Identify.Identified | sound_seg.c:166-221 | `tr_identify` on sample sequences: "" when the ad is longer than the target or empty, otherwise the scan's reports joined by newlines |
| Identify.IdentifiedReports | sound_seg.c:190-219 | The result decodes to ordered, non-overlapping windows (start, start+len−1). Each satisfies `accept`, and every scoring window touches one of them |
| Identify.WindowsDescribe | sound_seg.c:194 | A sound and complete match list gives windows that describe the matches |
| Identify.JoinedDecodes | sound_seg.c:194-219 | The newline-joined lines decode back to the windows |
| Identify.JoinedSplit | sound_seg.c:194-219 | Splitting the joined report at '\n' gives back the lines |
| Identify.LinesDecode | sound_seg.c:194 | Every line decodes to its window |
| Identify.LineDecodes | sound_seg.c:194 | "m,n" decodes to (m, m + len − 1) |
| Identify.LineOneLine | sound_seg.c:194 | A line holds no newline |
| Identify.Line | sound_seg.c:194 | The `"%zu,%zu"` line of a match at m: m, a comma, then m + len − 1 |
| Identify.Terminated | sound_seg.c:207-208 | The result buffer after the reports: each line followed by a newline |
| Identify.Joined | sound_seg.c:215-219 | The reports joined by newlines, with no newline after the last |
| Identify.JoinedShape | sound_seg.c:215-219 | The joined report is "" exactly when no window matched; otherwise it ends in a digit (no trailing newline) |
| Identify.TerminatedJoined | sound_seg.c:219 | The buffer is the joined report plus one final '\n' |
| Identify.TerminatedAppend | sound_seg.c:207-208 | Appending one line extends the buffer by that line and '\n' |
| Identify.Decimal | sound_seg.c:194 | `%zu`: at least one digit, all digits, no leading zero |
| Identify.DecimalValue | sound_seg.c:194 | The printed decimal reads back as the number |
| Identify.Split | sound_seg.c:219 | A split gives at least one part |
| Identify.SplitFirst | sound_seg.c:219 | Splitting `a + sep + b`, where `a` has no sep, gives `[a]` followed by the split of `b` |
| Identify.SplitNone | sound_seg.c:219 | A string without the separator splits into itself alone |
| Identify.Windows | sound_seg.c:194 | One window per match |
| Identify.Lines | sound_seg.c:194 | The lines are `Line(m, len)` for each match, in order |
| Identify.DotZero | sound_seg.c:156-164 | An all-zero ad has zero correlation numerator with every window |
| Identify.Correlates | sound_seg.c:156-164 | `compute_cross_correlation(w, ad) >= 0.95` (line 192) on exact numbers: Σw·ad / Σad² reaches 19/20, and an all-zero ad (0/0) never does |
| Identify.ZeroAdMatchesNothing | sound_seg.c:156-192 | With the exact correlation score, an all-zero ad (0/0, never ≥ 0.95) finds nothing |
| Identify.Digit | sound_seg.c:194 | A digit character |
| NodeMemory.NodeTable.constructor | node_memory_management.c:4-5 | Every slot starts NULL and the counter at 0 |
| NodeMemory.NodeTable.AllocNode | node_memory_management.c:7-16 | When malloc fails, 65535 is returned and nothing changes. Otherwise the id is the old counter, the slot gets the node and the counter rises by one |
| NodeMemory.NodeTable.FreeNode | node_memory_management.c:18-24 | Slot `id` becomes empty and no other slot changes; an empty slot stays empty |
| NodeMemory.NodeTable.GetNode | node_memory_management.c:26-32 | The slot's node, or None exactly when the slot is NULL |
| NodeMemory.NodeTable.GetSample | node_memory_management.c:34-45 | 0 for an empty slot, otherwise the sample of the ancestor the parent chain reaches |
| NodeMemory.NodeTable.SetSample | node_memory_management.c:47-56 | Nothing for an empty slot, otherwise only the ancestor's sample becomes v |
| NodeMemory.Chase | node_memory_management.c:40-42 | A successful walk ends at an occupied ancestor slot |
| NodeMemory.AncestorOf | node_memory_management.c:40-43 | A grounded chain ends at an occupied ancestor |
| NodeMemory.Grounded | node_memory_management.c:40-43 | The `parent_id` chain from a node is finite, stays on occupied slots and ends at an ancestor |
| NodeMemory.ChaseMoreFuel | node_memory_management.c:40-42 | A walk that succeeds with some fuel gives the same result with more |
| NodeMemory.ChaseUnique | node_memory_management.c:40-42 | The ancestor reached does not depend on the fuel |
| NodeMemory.ChaseIsAncestor | node_memory_management.c:40-43 | Any successful walk ends at `AncestorOf` |
| NodeMemory.WithSample | node_memory_management.c:55 | Only the ancestor's payload becomes `Sample(v)` |
| NodeMemory.ChaseAfterSet | node_memory_management.c:52-55 | Setting an ancestor's sample leaves every parent chain as it was |
| NodeMemory.SetThenGet | node_memory_management.c:40-55 | After `set_sample` the chains are unchanged, and a node whose chain reaches the set ancestor reads v |
| AsWritten.SelfInsertReadsShifted | sound_seg.c:135-152 | As written, inserting `[10..14]`'s slots 3-4 at 1 yields `[10,11,12,11,12,13,14]`, not the intended `[10,13,14,11,12,13,14]` |
| AsWritten.SelfInsertAsWritten | sound_seg.c:127-154 | `tr_insert(T, T, …)` as written, on T's samples: the memmove, then each gap slot reads the node now at srcpos + i (for srcpos outside [destpos, destpos + len)) |
| AsWritten.SelfInsertSpliced | sound_seg.c:127-154 | With the source parents taken before the shift, a self-insert reads back the spliced samples |
| AsWritten.DeletedTailReappears | sound_seg.c:82-123 | As written, write [7,8] at 0, delete slot 0, write [5] at 2, and slot 1 reads the stale 8 instead of 0 |
| AsWritten.RawWrite | sound_seg.c:82-99 | `tr_write` as written on a track of parents: resize to 2·(pos + len) when needed, overwrite [pos, pos + len), length max(length, pos + len) |
| AsWritten.RawDelete | sound_seg.c:101-124 | `tr_delete_range` as written on a track of parents: the memmove moves [end, length) down and the vacated slots keep their old nodes |
| AsWritten.RawRead | sound_seg.c:72-80 | `tr_read` as written: the samples copied from the live slots |
| AsWritten.Shifted | sound_seg.c:135-138 | The memmove seen on samples grows the track by len |
| AsWritten.CopyIn | sound_seg.c:141-152 | The as-written fill keeps the length |
| AsWritten.RawResize | sound_seg.c:58-70 | The capacity becomes max(capacity, new); the length is unchanged |

## Left out

- NULL checks on the track, `src` and `dest` pointers (lines 43, 55, 59, 73, 83, 102, 128, 167): a Dafny reference is never null.
- Allocation failure in `tr_init`, `tr_resize` (realloc returning NULL) and `tr_identify` (malloc, realloc and strdup): the model's allocation always succeeds. `alloc_node` takes the success as a parameter instead.
- Pointer invalidation. After `realloc`, `memmove` or the `free` of `tr_destroy` the C code's children may hold addresses into freed or moved memory. The model's handles are stable, so it does not capture use-after-free or reads through dangling pointers.
- SegTrack.Track.Destroy: `tr_destroy` frees the whole node array (sound_seg.c:50) even when a parent in it still has `refCount > 0`, leaving children in other tracks pointing at freed memory. The model keeps those cells in the arena, so the other tracks keep reading their samples; it does not capture that use-after-free, nor refuse the destroy as an alias conflict.
- SegHeap.DestroyHeapContents: "every other track reads what it read" is the C behaviour only when no child outside the destroyed track refers to one of its parents; otherwise those children read freed memory (sound_seg.c:50).
- `size_t` wrap-around in `pos + len`, `new_length * 2` and `target_len - ad_len`: positions and lengths are unbounded naturals.
- The floating-point correlation of `compute_cross_correlation` and its comparison against 0.95. `tr_identify` is modelled with the score as a parameter `accept`. `Identify.Correlates` is an exact, rational reading of it (20·Σw·a ≥ 19·Σa²), with no rounding.
- `tr_identify` on an empty ad: in C every window scores 0.0/0.0 = NaN, which never reaches 0.95, so the result is "". The model returns "" for an empty ad directly.
- The growth of `tr_identify`'s result buffer: the model builds the string directly.
- SegTrack.Track.Insert: requires destpos <= dest.length when the insert goes ahead (len > 0 and srcpos + len <= src.length); on the no-op paths any destpos is accepted, as in the C code. The C code does not check it; with destpos past the end it writes children beyond the new length, which the model does not cover.
- SegTrack.Track.Read: requires that `dest` has room for the samples copied. This is the C caller's obligation, which the code cannot check.
- WAV loading and saving (`wav_load`, `wav_save`) and all of `sound_seg_io.c`: file input/output.
- The `refCount`, `next_id` and `isParent` fields of the id-based node: `node_memory_management.c` never reads them, so the model carries them unchanged.
- NodeMemory.NodeTable.AllocNode: requires the counter to be below 30000 when malloc succeeds. The C code writes past `node_pool` otherwise.
- NodeMemory.NodeTable.FreeNode: require `id < 30000`. The C code indexes `node_pool[id]` without a bound check, so an id from 30000 to 65535 reads or writes past the array.
- NodeMemory.NodeTable.GetNode: require `id < 30000`. The C code indexes `node_pool[id]` without a bound check, so an id from 30000 to 65535 reads or writes past the array.
- NodeMemory.NodeTable.GetSample: require `id < 30000`. The C code indexes `node_pool[id]` without a bound check, so an id from 30000 to 65535 reads or writes past the array.
- NodeMemory.NodeTable.SetSample: require `id < 30000`. The C code indexes `node_pool[id]` without a bound check, so an id from 30000 to 65535 reads or writes past the array.
- AsWritten.CopyIn: requires srcpos outside [destpos, destpos + len). Otherwise some step links a gap slot to a node that the same or a later step overwrites with a child, and the C code then reads a child's pointer bytes as a sample; the sample-level model does not capture that.
- AsWritten.SelfInsertAsWritten: requires the same, for the same reason.
- NodeMemory.NodeTable.GetSample and NodeMemory.NodeTable.SetSample: require the parent chain to end at an ancestor. The C loop runs forever or dereferences NULL otherwise.

## Findings

| source | as written | input that shows it | evidently intended | confidence | as-written member | corrected member |
|---|---|---|---|---|---|---|
| sound_seg.c:135-152 | When source and destination are the same track, the fill walks `src_track->nodes[srcpos + i]` after the memmove has shifted them, so it links to the wrong nodes | track [10,11,12,13,14], destpos 1, srcpos 3, len 2: reads back [10,11,12,11,12,13,14] | [10,13,14,11,12,13,14]: the source nodes are taken before the shift | high, not executed | AsWritten.SelfInsertReadsShifted | SegHeap.InsertHeapContents |
| sound_seg.c:120-123 | The memmove of `tr_delete_range` leaves copies of old nodes in the vacated slots past the new length. A later `tr_write` past the end makes them live again without zeroing them. Stale child copies are not counted in any `refCount` | write [7,8] at 0, delete (0,1), write [5] at 2, read (1,1): gives [8] | the gap [length, pos) reads 0, as the zeroed slots `tr_resize` adds do | high, not executed | AsWritten.DeletedTailReappears | SegHeap.WriteHeapGap |

In the corrected model, a delete refills the vacated slots with fresh zeroed parents (`SegLoops.ShiftDown` gives the slots fresh handles, and `SegLoops.Prune` appends the zeroed cells). An insert takes its source parents before any node moves (`SegTrack.Track.RootsAt`, then `SegTrack.Track.Place`).
