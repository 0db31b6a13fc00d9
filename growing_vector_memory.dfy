/** The pool based memory manager: every GrowingVectorMemory of one vector type
    draws from one shared Pool. `alloc` hands out a vector the pool keeps free,
    or constructs a new one and appends it; `free` flags the vector free again
    and keeps it; `release_unused_memory` destroys every free vector. The
    static pool of the vector type becomes one Pool object that every
    GrowingVectorMemory of that type is given when it is constructed. */
module GrowingMemory {
  import opened Vectors
  import opened PoolEntries
  import opened MemoryErrors

  /** The storage of the pool: `initialized` says whether the table `data` has
      been created, `entries` is that table. The pool owns every vector in it,
      so each of them is live on the heap. */
  class Pool {
    const heap: Heap
    var initialized: bool
    var entries: seq<Entry>

    ghost predicate Valid()
      reads this, heap
    {
      heap.Valid() && Distinct(entries)
      && (forall i :: 0 <= i < |entries| ==> entries[i].vector in heap.live)
      && (!initialized ==> entries == [])
    }

    /** A pool whose table has not been created yet. */
    constructor (heap: Heap)
      requires heap.Valid()
      ensures Valid() && this.heap == heap
      ensures !initialized && entries == []
    {
      this.heap := heap;
      initialized, entries := false, [];
    }

    /** Create the table with `size` newly constructed free vectors; does
        nothing once the table exists. */
    method Initialize(size: nat)
      requires Valid()
      modifies this, heap
      ensures Valid() && initialized
      ensures old(initialized) ==> entries == old(entries) && heap.live == old(heap.live)
      ensures !old(initialized) ==>
        |entries| == size && InUse(entries) == {} && Unused(entries) == Pooled(entries)
        && Pooled(entries) !! old(heap.live) && heap.live == old(heap.live) + Pooled(entries)
    {
      if !initialized {
        var data: seq<Entry> := [];
        while |data| < size
          invariant |data| <= size
          invariant heap.Valid() && Distinct(data)
          invariant forall k :: 0 <= k < |data| ==> !data[k].inUse && data[k].vector in heap.live
          invariant InUse(data) == {} && Unused(data) == Pooled(data)
          invariant Pooled(data) !! old(heap.live)
          invariant heap.live == old(heap.live) + Pooled(data)
        {
          var v := heap.New();
          Snoc(data, Entry(false, v));
          data := data + [Entry(false, v)];
        }
        entries, initialized := data, true;
      }
    }

    /** The destructor of the pool: destroys every vector of the table, handed
        out or not, deletes the table, and reports a leak when a vector was
        still handed out. */
    method Teardown() returns (leakReported: bool)
      requires Valid()
      modifies this, heap
      ensures Valid() && !initialized && entries == []
      ensures leakReported == (old(InUse(entries)) != {})
      ensures heap.live == old(heap.live) - old(Pooled(entries))
    {
      var s := entries;
      leakReported := InUse(s) != {};
      var i := 0;
      while i < |s|
        invariant 0 <= i <= |s|
        invariant heap.Valid()
        invariant heap.live == old(heap.live) - Pooled(s[..i])
      {
        ScanStep(s, i);
        heap.Delete(s[i].vector);
        i := i + 1;
      }
      assert s[..|s|] == s;
      entries, initialized := [], false;
    }
  }

  /** One memory manager: the shared pool it draws from and its own counts,
      all `alloc` calls (`totalAlloc`) and the vectors it handed out and has
      not been given back (`currentAlloc`). */
  class GrowingVectorMemory {
    const pool: Pool
    var totalAlloc: nat
    var currentAlloc: nat
    const logStatistics: bool

    ghost predicate Valid()
      reads this, pool, pool.heap
    {
      pool.Valid() && pool.initialized
    }

    /** A manager with zero counts; the first one to be constructed for the
        pool creates its table with `initialSize` free vectors. */
    constructor (pool: Pool, initialSize: nat := 0, logStatistics: bool := false)
      requires pool.Valid()
      modifies pool, pool.heap
      ensures Valid() && this.pool == pool && this.logStatistics == logStatistics
      ensures totalAlloc == 0 && currentAlloc == 0
      ensures old(pool.initialized) ==>
        pool.entries == old(pool.entries) && pool.heap.live == old(pool.heap.live)
      ensures !old(pool.initialized) ==>
        |pool.entries| == initialSize && InUse(pool.entries) == {}
        && Unused(pool.entries) == Pooled(pool.entries)
        && Pooled(pool.entries) !! old(pool.heap.live)
        && pool.heap.live == old(pool.heap.live) + Pooled(pool.entries)
    {
      this.pool := pool;
      totalAlloc, currentAlloc := 0, 0;
      this.logStatistics := logStatistics;
      new;
      pool.Initialize(initialSize);
    }

    /** Hand out a vector: some free vector of the pool when there is one,
        otherwise a newly constructed vector appended to the table. Either way
        the vector was not handed out before and is afterwards. */
    method Alloc() returns (v: VectorId)
      requires Valid()
      modifies this, pool, pool.heap
      ensures Valid()
      ensures totalAlloc == old(totalAlloc) + 1 && currentAlloc == old(currentAlloc) + 1
      ensures v !in old(InUse(pool.entries))
      ensures InUse(pool.entries) == old(InUse(pool.entries)) + {v}
      ensures Unused(pool.entries) == old(Unused(pool.entries)) - {v}
      ensures old(Unused(pool.entries)) != {} ==>
        v in old(Unused(pool.entries))
        && (exists i :: 0 <= i < |old(pool.entries)| && old(pool.entries)[i] == Entry(false, v)
                        && pool.entries == Mark(old(pool.entries), i, true))
        && pool.heap.live == old(pool.heap.live)
      ensures old(Unused(pool.entries)) == {} ==>
        v !in old(pool.heap.live)
        && pool.entries == old(pool.entries) + [Entry(true, v)]
        && pool.heap.live == old(pool.heap.live) + {v}
    {
      totalAlloc, currentAlloc := totalAlloc + 1, currentAlloc + 1;
      UseDisjoint(pool.entries);
      var i := 0;
      while i < |pool.entries|
        invariant 0 <= i <= |pool.entries|
        invariant pool.entries == old(pool.entries) && pool.heap.live == old(pool.heap.live)
        invariant forall k :: 0 <= k < i ==> pool.entries[k].inUse
      {
        if !pool.entries[i].inUse {
          v := pool.entries[i].vector;
          assert pool.entries[i] in pool.entries;
          MarkMoves(pool.entries, i, true);
          pool.entries := Mark(pool.entries, i, true);
          return;
        }
        i := i + 1;
      }
      assert Unused(pool.entries) == {};
      v := pool.heap.New();
      Snoc(pool.entries, Entry(true, v));
      pool.entries := pool.entries + [Entry(true, v)];
    }

    /** Take a vector back: its entry is flagged free and the vector is kept
        for reuse, not destroyed. A vector the pool does not own is refused
        with `ExcNotAllocatedHere` and nothing changes. */
    method Free(v: VectorId) returns (r: Outcome)
      requires Valid()
      requires v in Pooled(pool.entries) ==> currentAlloc > 0
      modifies this, pool
      ensures Valid()
      ensures totalAlloc == old(totalAlloc)
      ensures r == Pass <==> v in old(Pooled(pool.entries))
      ensures r == Pass ==>
        currentAlloc == old(currentAlloc) - 1
        && (exists i :: 0 <= i < |old(pool.entries)| && old(pool.entries)[i].vector == v
                        && pool.entries == Mark(old(pool.entries), i, false))
        && Pooled(pool.entries) == old(Pooled(pool.entries))
        && InUse(pool.entries) == old(InUse(pool.entries)) - {v}
        && Unused(pool.entries) == old(Unused(pool.entries)) + {v}
        && v in pool.heap.live
      ensures r != Pass ==>
        r == Fail(ExcNotAllocatedHere)
        && currentAlloc == old(currentAlloc) && pool.entries == old(pool.entries)
    {
      var i := 0;
      while i < |pool.entries|
        invariant 0 <= i <= |pool.entries|
        invariant pool.entries == old(pool.entries) && currentAlloc == old(currentAlloc)
        invariant forall k :: 0 <= k < i ==> pool.entries[k].vector != v
      {
        if pool.entries[i].vector == v {
          assert pool.entries[i] in pool.entries;
          MarkMoves(pool.entries, i, false);
          pool.entries := Mark(pool.entries, i, false);
          currentAlloc := currentAlloc - 1;
          return Pass;
        }
        i := i + 1;
      }
      return Fail(ExcNotAllocatedHere);
    }

    /** Destroy every free vector of the pool and drop its entries; the
        vectors handed out keep their entries, flags and order. No manager's
        counts change. */
    static method ReleaseUnusedMemory(pool: Pool)
      requires pool.Valid()
      modifies pool, pool.heap
      ensures pool.Valid()
      ensures pool.initialized == old(pool.initialized)
      ensures pool.entries == KeepInUse(old(pool.entries))
      ensures InUse(pool.entries) == old(InUse(pool.entries)) && Unused(pool.entries) == {}
      ensures pool.heap.live == old(pool.heap.live) - old(Unused(pool.entries))
    {
      var s := pool.entries;
      var kept: seq<Entry> := [];
      var i := 0;
      while i < |s|
        invariant 0 <= i <= |s|
        invariant pool.entries == s && pool.initialized == old(pool.initialized)
        invariant pool.heap.Valid()
        invariant kept == KeepInUse(s[..i])
        invariant pool.heap.live == old(pool.heap.live) - Unused(s[..i])
      {
        ScanStep(s, i);
        if s[i].inUse {
          kept := kept + [s[i]];
        } else {
          pool.heap.Delete(s[i].vector);
        }
        i := i + 1;
      }
      assert s[..|s|] == s;
      KeepInUseDistinct(s);
      KeepInUseViews(s);
      KeepInUseSurvives(s, old(pool.heap.live));
      pool.entries := kept;
    }

    /** The destructor: reports a leak exactly when vectors handed out by this
        manager were not given back. It destroys nothing; those vectors stay
        in the pool, flagged in use. */
    method Destroy() returns (leakReported: bool)
      ensures leakReported <==> currentAlloc != 0
    {
      leakReported := currentAlloc != 0;
    }
  }
}
