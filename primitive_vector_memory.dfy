/** The simple memory manager: every `alloc` constructs a new vector on the
    global heap and every `free` destroys it at once. Nothing is kept. */
module PrimitiveMemory {
  import opened Vectors

  class PrimitiveVectorMemory {
    const heap: Heap

    constructor (heap: Heap)
      ensures this.heap == heap
    {
      this.heap := heap;
    }

    /** A newly constructed vector, distinct from every live one. */
    method Alloc() returns (v: VectorId)
      requires heap.Valid()
      modifies heap
      ensures heap.Valid()
      ensures v !in old(heap.live)
      ensures heap.live == old(heap.live) + {v}
    {
      v := heap.New();
    }

    /** Destroy the vector: it is no longer live and nothing else changes. */
    method Free(v: VectorId)
      requires heap.Valid() && v in heap.live
      modifies heap
      ensures heap.Valid()
      ensures v !in heap.live
      ensures heap.live == old(heap.live) - {v}
    {
      heap.Delete(v);
    }
  }
}
