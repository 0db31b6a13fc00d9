/** The vector memory interface, `alloc` and `free`, over its two strategies,
    and the scoped `Pointer` that takes a vector from a memory when it is
    constructed and gives it back to the same memory when it is destroyed. */
module VectorMemory {
  import opened Vectors
  import opened PoolEntries
  import opened MemoryErrors
  import opened PrimitiveMemory
  import opened GrowingMemory

  /** A VectorMemory object: one of the two strategies that implement it. */
  datatype Allocator =
    | Primitive(primitive: PrimitiveVectorMemory)
    | Growing(growing: GrowingVectorMemory)
  {
    /** The objects whose state this memory reads and changes. */
    ghost function Repr(): set<object>
    {
      match this
      case Primitive(p) => {p.heap}
      case Growing(g) => {g, g.pool, g.pool.heap}
    }

    ghost predicate Valid()
      reads Repr()
    {
      match this
      case Primitive(p) => p.heap.Valid()
      case Growing(g) => g.Valid()
    }

    /** The vectors handed out and not given back: for the simple strategy the
        live vectors of the heap, for the pool its entries flagged in use. */
    ghost function HandedOut(): set<VectorId>
      reads Repr()
    {
      match this
      case Primitive(p) => p.heap.live
      case Growing(g) => InUse(g.pool.entries)
    }
  }

  /** `alloc`: a vector that was not handed out, and is now. */
  method Alloc(mem: Allocator) returns (v: VectorId)
    requires mem.Valid()
    modifies mem.Repr()
    ensures mem.Valid()
    ensures v !in old(mem.HandedOut())
    ensures mem.HandedOut() == old(mem.HandedOut()) + {v}
    ensures mem.Growing? ==>
      mem.growing.totalAlloc == old(mem.growing.totalAlloc) + 1
      && mem.growing.currentAlloc == old(mem.growing.currentAlloc) + 1
  {
    match mem
    case Primitive(p) =>
      v := p.Alloc();
    case Growing(g) =>
      v := g.Alloc();
  }

  /** `free`: the vector is no longer handed out. The simple strategy cannot
      check where the vector came from and destroys it; the pool refuses a
      vector it does not own with `ExcNotAllocatedHere`. */
  method Free(mem: Allocator, v: VectorId) returns (r: Outcome)
    requires mem.Valid()
    requires mem.Primitive? ==> v in mem.primitive.heap.live
    requires mem.Growing? ==> v in Pooled(mem.growing.pool.entries) ==> mem.growing.currentAlloc > 0
    modifies mem.Repr()
    ensures mem.Valid()
    ensures mem.HandedOut() == old(mem.HandedOut()) - {v}
    ensures mem.Primitive? ==> r == Pass
    ensures mem.Growing? ==>
      (r == Pass <==> v in old(Pooled(mem.growing.pool.entries)))
      && mem.growing.totalAlloc == old(mem.growing.totalAlloc)
      && mem.growing.currentAlloc == (if r == Pass then old(mem.growing.currentAlloc) - 1
                                      else old(mem.growing.currentAlloc))
  {
    match mem
    case Primitive(p) =>
      p.Free(v);
      r := Pass;
    case Growing(g) =>
      UseDisjoint(g.pool.entries);
      r := g.Free(v);
  }

  /** The scoped handle: while `owns` holds it is the one owner of `vector`,
      which it took from `mem` when it was constructed. */
  class Pointer {
    const mem: Allocator
    const vector: VectorId
    var owns: bool

    /** Takes one vector from `mem`: a single `alloc` call. */
    constructor (mem: Allocator)
      requires mem.Valid()
      modifies mem.Repr()
      ensures this.mem == mem && owns
      ensures mem.Valid()
      ensures vector !in old(mem.HandedOut())
      ensures mem.HandedOut() == old(mem.HandedOut()) + {vector}
      ensures mem.Growing? ==>
        mem.growing.totalAlloc == old(mem.growing.totalAlloc) + 1
        && mem.growing.currentAlloc == old(mem.growing.currentAlloc) + 1
    {
      var v := Alloc(mem);
      this.mem := mem;
      vector := v;
      owns := true;
    }

    /** The destructor: gives the vector back to the same memory with a single
        `free` call, after which the handle owns nothing. */
    method Release()
      requires owns && mem.Valid()
      requires vector in mem.HandedOut()
      requires mem.Growing? ==> mem.growing.currentAlloc > 0
      modifies this, mem.Repr()
      ensures !owns && mem.Valid()
      ensures mem.HandedOut() == old(mem.HandedOut()) - {vector}
      ensures mem.Growing? ==>
        mem.growing.totalAlloc == old(mem.growing.totalAlloc)
        && mem.growing.currentAlloc == old(mem.growing.currentAlloc) - 1
    {
      var r := Free(mem, vector);
      owns := false;
    }
  }
}
