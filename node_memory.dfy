/**
 * The id-based node layout of node_memory_management.c: a global table of
 * MaxNodes node slots addressed by 16-bit ids, filled from the front by
 * `alloc_node`, emptied by `free_node`.  A node either is an ancestor, whose
 * payload is a sample, or names the id of its parent; `get_sample` and
 * `set_sample` follow parent ids until they reach an ancestor.
 */
module NodeMemory {
  import opened Basics

  /** Number of slots in the pool (MAX_NODES). */
  const MaxNodes: nat := 30000

  /** The id `alloc_node` returns when no node could be allocated (LARGEST_ID). */
  const LargestId: uint16 := 65535

  /** The node's two-byte union: `isAncestor` selects which arm is meant. */
  datatype Payload = Sample(sample: int16) | Link(parentId: uint16)

  /** One pool node; `refCount`, `nextId` and `isParent` are carried but no pool operation reads them. */
  datatype PoolNode = PoolNode(payload: Payload, refCount: uint8, nextId: uint16, isParent: bool)
  {
    predicate IsAncestor() { payload.Sample? }
  }

  /** A snapshot of the table: an empty slot is a NULL pointer. */
  type Pool = seq<Option<PoolNode>>

  /**
   * The walk `get_sample` and `set_sample` make: from slot `id`, follow parent
   * ids for at most `fuel` steps.  The result is the slot of the first ancestor
   * reached, or None when the walk meets an empty slot, an id outside the table,
   * or runs out of steps.
   */
  function Chase(pool: Pool, id: nat, fuel: nat): (r: Option<nat>)
    ensures r.Some? ==> r.value < |pool| && pool[r.value].Some? && pool[r.value].value.IsAncestor()
    decreases fuel
  {
    if id >= |pool| || pool[id].None? then None
    else if pool[id].value.IsAncestor() then Some(id)
    else if fuel == 0 then None
    else Chase(pool, pool[id].value.payload.parentId as nat, fuel - 1)
  }

  /** The parent chain from `id` is finite, stays on occupied slots and ends at an ancestor. */
  ghost predicate Grounded(pool: Pool, id: nat)
  {
    exists fuel :: Chase(pool, id, fuel).Some?
  }

  /** The ancestor a grounded chain ends at. */
  ghost function AncestorOf(pool: Pool, id: nat): (a: nat)
    requires Grounded(pool, id)
    ensures a < |pool| && pool[a].Some? && pool[a].value.IsAncestor()
  {
    var f: nat :| Chase(pool, id, f).Some?; Chase(pool, id, f).value
  }

  /** A walk that succeeds with some fuel gives the same ancestor with more. */
  lemma {:induction false} ChaseMoreFuel(pool: Pool, id: nat, f: nat, g: nat)
    requires f <= g && Chase(pool, id, f).Some?
    ensures Chase(pool, id, g) == Chase(pool, id, f)
    decreases f
  {
    if !pool[id].value.IsAncestor() {
      ChaseMoreFuel(pool, pool[id].value.payload.parentId as nat, f - 1, g - 1);
    }
  }

  /** The ancestor a chain reaches does not depend on the fuel it was given. */
  lemma ChaseUnique(pool: Pool, id: nat, f: nat, g: nat)
    requires Chase(pool, id, f).Some? && Chase(pool, id, g).Some?
    ensures Chase(pool, id, f) == Chase(pool, id, g)
  {
    if f <= g { ChaseMoreFuel(pool, id, f, g); } else { ChaseMoreFuel(pool, id, g, f); }
  }

  /** Whatever fuel a walk succeeds with, it ends at AncestorOf. */
  lemma ChaseIsAncestor(pool: Pool, id: nat, f: nat)
    requires Chase(pool, id, f).Some?
    ensures Chase(pool, id, f) == Some(AncestorOf(pool, id))
  {
    var g: nat :| Chase(pool, id, g).Some? && AncestorOf(pool, id) == Chase(pool, id, g).value;
    ChaseUnique(pool, id, f, g);
  }

  /** The table after the sample of ancestor slot `a` is replaced by `v`. */
  function WithSample(pool: Pool, a: nat, v: int16): (r: Pool)
    requires a < |pool| && pool[a].Some? && pool[a].value.IsAncestor()
    ensures |r| == |pool| && r[a].Some? && r[a].value.payload == Sample(v)
    ensures forall i :: 0 <= i < |pool| && i != a ==> r[i] == pool[i]
  {
    pool[a := Some(pool[a].value.(payload := Sample(v)))]
  }

  /** Replacing an ancestor's sample leaves every parent chain as it was. */
  lemma {:induction false} ChaseAfterSet(pool: Pool, a: nat, v: int16, id: nat, fuel: nat)
    requires a < |pool| && pool[a].Some? && pool[a].value.IsAncestor()
    ensures Chase(WithSample(pool, a, v), id, fuel) == Chase(pool, id, fuel)
    decreases fuel
  {
    var p' := WithSample(pool, a, v);
    if id < |pool| && pool[id].Some? && !pool[id].value.IsAncestor() && fuel > 0 {
      assert p'[id] == pool[id];
      ChaseAfterSet(pool, a, v, pool[id].value.payload.parentId as nat, fuel - 1);
    }
  }

  /**
   * After `set_sample` has written `v` into ancestor `a`, every node whose
   * chain reaches `a` reads `v`, and every node whose chain reaches another
   * ancestor `b` reads what it read before.
   */
  lemma SetThenGet(pool: Pool, a: nat, v: int16, id: nat, fuel: nat)
    requires a < |pool| && pool[a].Some? && pool[a].value.IsAncestor()
    requires Chase(pool, id, fuel).Some?
    ensures Chase(WithSample(pool, a, v), id, fuel) == Chase(pool, id, fuel)
    ensures var b := Chase(pool, id, fuel).value;
      WithSample(pool, a, v)[b].value.payload.sample == if b == a then v else pool[b].value.payload.sample
  {
    ChaseAfterSet(pool, a, v, id, fuel);
  }

  /** The global `node_pool` table and its `node_count` counter. */
  class NodeTable {
    var slots: array<Option<PoolNode>>
    var count: uint16

    /** Every slot at or past `count` is empty: allocation fills the table from the front. */
    ghost predicate Valid()
      reads this, slots
    {
      slots.Length == MaxNodes && count as nat <= MaxNodes &&
      forall i :: count as nat <= i < MaxNodes ==> slots[i].None?
    }

    /** The zero-initialised globals: every slot NULL, `node_count == 0`. */
    constructor ()
      ensures Valid() && fresh(slots) && count == 0
      ensures forall i :: 0 <= i < slots.Length ==> slots[i].None?
    {
      slots := new Option<PoolNode>[MaxNodes](_ => None);
      count := 0;
    }

    /**
     * `alloc_node`.  Whether `malloc` succeeds is the parameter `mallocSucceeds`;
     * `contents` stands for what the caller stores in the fresh node, which
     * `malloc` hands back uninitialised.
     */
    method AllocNode(mallocSucceeds: bool, contents: PoolNode) returns (id: uint16)
      requires Valid()
      requires mallocSucceeds ==> (count as nat) < MaxNodes
      modifies this, slots
      ensures Valid() && slots == old(slots)
      ensures !mallocSucceeds ==> id == LargestId && count == old(count) && slots[..] == old(slots[..])
      ensures mallocSucceeds ==> id == old(count) && id != LargestId
      ensures mallocSucceeds ==> count as nat == old(count) as nat + 1
      ensures mallocSucceeds ==> slots[..] == old(slots[..])[id as nat := Some(contents)]
    {
      if !mallocSucceeds {
        return LargestId;
      }
      slots[count] := Some(contents);
      id := count;
      count := count + 1;
    }

    /** `free_node`: empties slot `id`, and no other; an empty slot stays empty. */
    method FreeNode(id: uint16)
      requires Valid() && (id as nat) < MaxNodes
      modifies slots
      ensures Valid()
      ensures slots[..] == old(slots[..])[id as nat := None]
      ensures old(slots[id]).None? ==> slots[..] == old(slots[..])
    {
      var node := slots[id];
      if node.Some? {
        slots[id] := None;
      }
    }

    /** `get_node`: the node in slot `id`, or None for a NULL slot. */
    function GetNode(id: uint16): (r: Option<PoolNode>)
      reads this, slots
      requires Valid() && (id as nat) < MaxNodes
      ensures r.Some? <==> slots[id].Some?
      ensures r.Some? ==> r.value == slots[id].value
    {
      var node := slots[id];
      if node.Some? then node else None
    }

    /**
     * `get_sample`: 0 for an empty slot; otherwise the sample of the ancestor
     * the parent chain from `id` reaches.
     */
    method GetSample(id: uint16) returns (r: int16)
      requires Valid() && (id as nat) < MaxNodes
      requires slots[id].Some? ==> Grounded(slots[..], id as nat)
      ensures slots[id].None? ==> r == 0
      ensures slots[id].Some? ==> r == slots[AncestorOf(slots[..], id as nat)].value.payload.sample
    {
      var node := GetNode(id);
      if node.None? {
        return 0;
      }
      ghost var pool := slots[..];
      ghost var a := AncestorOf(pool, id as nat);
      ghost var fuel: nat :| Chase(pool, id as nat, fuel).Some?;
      ChaseIsAncestor(pool, id as nat, fuel);
      ghost var cur: nat := id as nat;
      var n := node.value;
      while !n.IsAncestor()
        invariant cur < MaxNodes && slots[cur] == Some(n)
        invariant Chase(pool, cur, fuel) == Some(a)
        decreases fuel
      {
        node := GetNode(n.payload.parentId);
        cur, fuel := n.payload.parentId as nat, fuel - 1;
        n := node.value;
      }
      r := n.payload.sample;
    }

    /**
     * `set_sample`: writes `v` into the ancestor the parent chain from `id`
     * reaches and into no other slot; does nothing for an empty slot.
     */
    method SetSample(id: uint16, v: int16)
      requires Valid() && (id as nat) < MaxNodes
      requires slots[id].Some? ==> Grounded(slots[..], id as nat)
      modifies slots
      ensures Valid()
      ensures old(slots[id]).None? ==> slots[..] == old(slots[..])
      ensures old(slots[id]).Some? ==>
        slots[..] == WithSample(old(slots[..]), AncestorOf(old(slots[..]), id as nat), v)
    {
      var node := GetNode(id);
      if node.None? {
        return;
      }
      ghost var pool := slots[..];
      ghost var a := AncestorOf(pool, id as nat);
      ghost var fuel: nat :| Chase(pool, id as nat, fuel).Some?;
      ChaseIsAncestor(pool, id as nat, fuel);
      var cur := id;
      var n := node.value;
      while !n.IsAncestor()
        invariant (cur as nat) < MaxNodes && slots[cur] == Some(n)
        invariant Chase(pool, cur as nat, fuel) == Some(a)
        decreases fuel
      {
        cur, fuel := n.payload.parentId, fuel - 1;
        node := GetNode(cur);
        n := node.value;
      }
      slots[cur] := Some(n.(payload := Sample(v)));
      assert slots[..] == WithSample(pool, a, v);
    }
  }
}
