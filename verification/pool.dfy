/** The engine's node pool (monte_alloc_node, monte_free_node): a free list of released nodes,
    used last-in first-out, in front of the user allocator. A node is named by its id; the user
    allocator hands out ids it has never handed out before. */
module NodePool {

  type NodeId = nat

  /** `freeList` is the free list, head first; `nextId` is the first id the user allocator has not
      yet handed out. */
  datatype Pool = Pool(freeList: seq<NodeId>, nextId: NodeId)

  datatype Allocation = Allocation(id: NodeId, pool: Pool)

  predicate Distinct<T(==)>(s: seq<T>) {
    forall i, j | 0 <= i < j < |s| :: s[i] != s[j]
  }

  /** Every id on the free list was handed out once and is listed once. */
  predicate Valid(p: Pool) {
    Distinct(p.freeList) && forall i | 0 <= i < |p.freeList| :: p.freeList[i] < p.nextId
  }

  /** monte_alloc_node: the head of the free list if there is one, otherwise a node from the
      user allocator. The id returned is never one that stays on the free list. */
  function Alloc(p: Pool): (a: Allocation)
    requires Valid(p)
    ensures Valid(a.pool)
    ensures a.id !in a.pool.freeList && a.id < a.pool.nextId
    ensures multiset(p.freeList) == multiset(a.pool.freeList) + (if p.freeList == [] then multiset{} else multiset{a.id})
    ensures p.freeList == [] ==> a.id == p.nextId && a.pool.nextId == p.nextId + 1 && a.pool.freeList == []
    ensures p.freeList != [] ==> a.id in p.freeList && a.pool.nextId == p.nextId
    ensures p.freeList != [] ==> a.id == p.freeList[0] && a.pool.freeList == p.freeList[1..]
  {
    if p.freeList != [] then
      assert p.freeList == [p.freeList[0]] + p.freeList[1..];
      Allocation(p.freeList[0], Pool(p.freeList[1..], p.nextId))
    else
      Allocation(p.nextId, Pool([], p.nextId + 1))
  }

  /** monte_free_node: a released node becomes the head of the free list. */
  function Free(p: Pool, id: NodeId): (r: Pool)
    ensures r.nextId == p.nextId
    ensures r.freeList == [id] + p.freeList
    ensures multiset(r.freeList) == multiset(p.freeList) + multiset{id}
    ensures Valid(p) && id < p.nextId && id !in p.freeList ==> Valid(r)
  {
    Pool([id] + p.freeList, p.nextId)
  }

  /** The free list is a stack: the node released last is the next one handed out, and the
      pool is then as it was before the release. */
  lemma AllocAfterFree(p: Pool, id: NodeId)
    requires Valid(p) && id < p.nextId && id !in p.freeList
    ensures Alloc(Free(p, id)) == Allocation(id, p)
  {
    assert Free(p, id).freeList[1..] == p.freeList;
  }

  /** Releasing the node just taken from a non-empty free list restores the pool. */
  lemma FreeAfterAlloc(p: Pool)
    requires Valid(p) && p.freeList != []
    ensures Free(Alloc(p).pool, Alloc(p).id) == p
  {
    assert [p.freeList[0]] + p.freeList[1..] == p.freeList;
  }
}
