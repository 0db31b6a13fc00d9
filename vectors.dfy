/** Vectors as opaque identities, and the global heap that constructs and
    destroys them. The contents and sizes of vectors are unspecified by the
    allocators, so a vector is only its identity here. */
module Vectors {

  /** The identity (address) of one constructed vector object. */
  type VectorId = nat

  /** The global heap: `new VectorType()` and `delete v`. `live` is the set of
      vectors that are constructed and not yet destroyed. */
  class Heap {
    var live: set<VectorId>
    var next: nat

    ghost predicate Valid()
      reads this
    {
      forall v :: v in live ==> v < next
    }

    constructor ()
      ensures Valid() && live == {}
    {
      live, next := {}, 0;
    }

    /** Construct a vector: its identity is distinct from every live one. */
    method New() returns (v: VectorId)
      requires Valid()
      modifies this
      ensures Valid()
      ensures v !in old(live)
      ensures live == old(live) + {v}
    {
      v := next;
      live, next := live + {v}, next + 1;
    }

    /** Destroy a live vector. */
    method Delete(v: VectorId)
      requires Valid() && v in live
      modifies this
      ensures Valid()
      ensures live == old(live) - {v}
    {
      live := live - {v};
    }
  }
}
