/** Clients of the memory managers. Each builds its own heap and pools and
    states, from the managers' contracts alone, one behaviour the managers
    promise their callers. */
module Scenarios {
  import opened Vectors
  import opened PoolEntries
  import opened MemoryErrors
  import opened PrimitiveMemory
  import opened GrowingMemory
  import opened VectorMemory

  /** A vector given back to the pool is the one the next `alloc` hands out
      when it is the pool's only free vector. */
  method ReuseAfterFree() returns (first: VectorId, second: VectorId, constructed: nat)
    ensures first == second
    ensures constructed == 1
  {
    var heap := new Heap();
    var pool := new Pool(heap);
    var mem := new GrowingVectorMemory(pool);
    first := mem.Alloc();
    assert pool.entries == [Entry(true, first)];
    var r := mem.Free(first);
    assert pool.entries == [Entry(false, first)];
    second := mem.Alloc();
    constructed := |heap.live|;
  }

  /** Vectors handed out and not given back are distinct, and each of them
      took one entry of the pool. */
  method DistinctWhileHandedOut() returns (a: VectorId, b: VectorId, c: VectorId, size: nat)
    ensures a != b && b != c && a != c
    ensures size == 3
  {
    var heap := new Heap();
    var pool := new Pool(heap);
    var mem := new GrowingVectorMemory(pool);
    a := mem.Alloc();
    b := mem.Alloc();
    c := mem.Alloc();
    size := |pool.entries|;
  }

  /** `n` calls of `alloc` without `free` hand out `n` distinct vectors, all
      in use, each counted by the manager, and the pool then holds at least
      `n` entries. */
  method AllocMany(mem: GrowingVectorMemory, n: nat) returns (vs: seq<VectorId>)
    requires mem.Valid()
    modifies mem, mem.pool, mem.pool.heap
    ensures mem.Valid()
    ensures |vs| == n
    ensures forall i, j :: 0 <= i < j < n ==> vs[i] != vs[j]
    ensures forall i :: 0 <= i < n ==> vs[i] in InUse(mem.pool.entries) && vs[i] !in old(InUse(mem.pool.entries))
    ensures mem.currentAlloc == old(mem.currentAlloc) + n
    ensures mem.totalAlloc == old(mem.totalAlloc) + n
    ensures |mem.pool.entries| >= n
  {
    vs := [];
    while |vs| < n
      invariant mem.Valid()
      invariant |vs| <= n
      invariant forall i, j :: 0 <= i < j < |vs| ==> vs[i] != vs[j]
      invariant old(InUse(mem.pool.entries)) <= InUse(mem.pool.entries)
      invariant forall i :: 0 <= i < |vs| ==> vs[i] in InUse(mem.pool.entries) && vs[i] !in old(InUse(mem.pool.entries))
      invariant mem.currentAlloc == old(mem.currentAlloc) + |vs|
      invariant mem.totalAlloc == old(mem.totalAlloc) + |vs|
    {
      var v := mem.Alloc();
      vs := vs + [v];
    }
    HandedOutBound(vs, mem.pool.entries);
  }

  /** Two managers of one vector type share one pool: a vector given back
      through one is handed out again by the other, and each keeps its own
      counts. */
  method SharedPool() returns (v: VectorId, w: VectorId, countA: nat, countB: nat)
    ensures v == w
    ensures countA == 0 && countB == 1
  {
    var heap := new Heap();
    var pool := new Pool(heap);
    var a := new GrowingVectorMemory(pool);
    var b := new GrowingVectorMemory(pool);
    v := a.Alloc();
    var r := a.Free(v);
    assert pool.entries == [Entry(false, v)];
    w := b.Alloc();
    countA, countB := a.currentAlloc, b.currentAlloc;
  }

  /** After every vector is given back, `release_unused_memory` empties the
      pool and destroys its vectors, so the next `alloc` constructs a vector. */
  method TrimThenAlloc() returns (sizeAfterTrim: nat, firstAlive: bool, secondConstructed: bool)
    ensures sizeAfterTrim == 0
    ensures !firstAlive
    ensures secondConstructed
  {
    var heap := new Heap();
    var pool := new Pool(heap);
    var mem := new GrowingVectorMemory(pool);
    var v := mem.Alloc();
    var r := mem.Free(v);
    assert pool.entries == [Entry(false, v)];
    assert KeepInUse(pool.entries) == [];
    GrowingVectorMemory.ReleaseUnusedMemory(pool);
    sizeAfterTrim := |pool.entries|;
    firstAlive := v in heap.live;
    var liveBefore := heap.live;
    var w := mem.Alloc();
    secondConstructed := w !in liveBefore && w in heap.live;
  }

  /** `release_unused_memory` leaves a vector that is handed out where it is. */
  method TrimKeepsHandedOut() returns (kept: VectorId, freed: VectorId, entries: seq<Entry>)
    ensures kept != freed
    ensures entries == [Entry(true, kept)]
  {
    var heap := new Heap();
    var pool := new Pool(heap);
    var mem := new GrowingVectorMemory(pool);
    kept := mem.Alloc();
    freed := mem.Alloc();
    var r := mem.Free(freed);
    var k, f := Entry(true, kept), Entry(false, freed);
    assert pool.entries == [k] + [f];
    KeepInUseAppend([k], [f]);
    assert KeepInUse([k]) == [k] && KeepInUse([f]) == [];
    GrowingVectorMemory.ReleaseUnusedMemory(pool);
    entries := pool.entries;
  }

  /** A manager constructed with an initial size of three constructs three
      vectors up front and none for its next three `alloc` calls. */
  method PreallocatedPool() returns (constructed: nat, size: nat)
    ensures constructed == 3 && size == 3
  {
    var heap := new Heap();
    var pool := new Pool(heap);
    var mem := new GrowingVectorMemory(pool, 3);
    DistinctSize(pool.entries);
    assert |Unused(pool.entries)| == 3;
    var a := mem.Alloc();
    var b := mem.Alloc();
    var c := mem.Alloc();
    constructed, size := |heap.live|, |pool.entries|;
  }

  /** Only the first manager of a pool creates its table: the initial size of
      a later one is ignored. */
  method InitializeOnce() returns (size: nat)
    ensures size == 2
  {
    var heap := new Heap();
    var pool := new Pool(heap);
    var a := new GrowingVectorMemory(pool, 2);
    var b := new GrowingVectorMemory(pool, 5);
    size := |pool.entries|;
  }

  /** Destroying a manager with a vector still handed out reports a leak and
      leaves the vector in the pool, flagged in use and alive. */
  method LeakReported() returns (leak: bool, stillInUse: bool, stillAlive: bool)
    ensures leak && stillInUse && stillAlive
  {
    var heap := new Heap();
    var pool := new Pool(heap);
    var mem := new GrowingVectorMemory(pool);
    var v := mem.Alloc();
    leak := mem.Destroy();
    assert pool.entries == [Entry(true, v)];
    stillInUse := pool.entries[0].inUse;
    stillAlive := v in heap.live;
  }

  /** A manager whose vectors were all given back reports no leak. */
  method NoLeakAfterFree() returns (leak: bool)
    ensures !leak
  {
    var heap := new Heap();
    var pool := new Pool(heap);
    var mem := new GrowingVectorMemory(pool);
    var v := mem.Alloc();
    var r := mem.Free(v);
    leak := mem.Destroy();
  }

  /** Giving the pool a vector it never handed out is refused. */
  method ForeignFree() returns (r: Outcome, count: nat)
    ensures r == Fail(ExcNotAllocatedHere)
    ensures count == 1
  {
    var heap := new Heap();
    var pool := new Pool(heap);
    var mem := new GrowingVectorMemory(pool);
    var v := mem.Alloc();
    var other := new PrimitiveVectorMemory(heap);
    var w := other.Alloc();
    assert pool.entries == [Entry(true, v)];
    r := mem.Free(w);
    count := mem.currentAlloc;
  }

  /** Pools of two vector types never exchange vectors: a vector free in one
      pool is not handed out by the other. */
  method SeparatePools() returns (v: VectorId, w: VectorId)
    ensures v != w
  {
    var heap := new Heap();
    var poolA := new Pool(heap);
    var poolB := new Pool(heap);
    var a := new GrowingVectorMemory(poolA);
    var b := new GrowingVectorMemory(poolB);
    v := a.Alloc();
    var r := a.Free(v);
    assert v in heap.live;
    w := b.Alloc();
  }

  /** The simple strategy constructs on every `alloc` and keeps nothing after
      `free`. */
  method PrimitiveRoundTrip() returns (v: VectorId, w: VectorId, liveAfter: set<VectorId>)
    ensures v != w
    ensures liveAfter == {}
  {
    var heap := new Heap();
    var mem := new PrimitiveVectorMemory(heap);
    v := mem.Alloc();
    w := mem.Alloc();
    mem.Free(v);
    mem.Free(w);
    liveAfter := heap.live;
  }

  /** A Pointer's lifetime is one `alloc` and one `free` on the memory it was
      given: the counts of outstanding vectors and the set of vectors handed
      out are as before, and one more allocation is on record. */
  method ScopedUse(mem: Allocator)
    requires mem.Valid()
    modifies mem.Repr()
    ensures mem.Valid()
    ensures mem.HandedOut() == old(mem.HandedOut())
    ensures mem.Growing? ==>
      mem.growing.currentAlloc == old(mem.growing.currentAlloc)
      && mem.growing.totalAlloc == old(mem.growing.totalAlloc) + 1
  {
    var p := new Pointer(mem);
    p.Release();
  }

  /** The same lifetime on a fresh growing manager. */
  method ScopedPointerBalances() returns (before: nat, after: nat, total: nat)
    ensures before == after == 0
    ensures total == 1
  {
    var heap := new Heap();
    var pool := new Pool(heap);
    var mem := new GrowingVectorMemory(pool);
    before := mem.currentAlloc;
    ScopedUse(Growing(mem));
    after, total := mem.currentAlloc, mem.totalAlloc;
  }
}
