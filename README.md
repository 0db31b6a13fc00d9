# Vector memory pools of deal.II, modelled in Dafny

`include/deal.II/lac/vector_memory.h` gives iterative solvers a way to borrow
temporary vectors and give them back. `VectorMemory` is the interface:
`alloc()` hands out a vector and `free()` takes it back. It has two
implementations:

- `PrimitiveVectorMemory` constructs a vector on the heap for every `alloc` and
  destroys it on `free`.
- `GrowingVectorMemory` keeps vectors for reuse. All managers of one vector
  type share one static `Pool`, a table of `(in use, vector)` entries.
  - `alloc` hands out a free entry, or constructs a vector and appends it.
  - `free` flags the entry free and keeps the vector.
  - `release_unused_memory` destroys every free vector.
  - Each manager counts its allocations (`total_alloc`) and the vectors it has
    handed out and not had back (`current_alloc`). The count of outstanding
    vectors is used to report leaks when the manager is destroyed.

`VectorMemory::Pointer` is a scoped handle. It allocates from a memory when it
is constructed and frees the same vector to the same memory when it is
destroyed.

The model, file by file:

- `vectors.dfy` (`Vectors`): a vector is an opaque identity (`VectorId`). The
  global heap is a `Heap` object whose set `live` holds the vectors that are
  constructed and not destroyed. `New` and `Delete` model `new` and `delete`.
- `memory_errors.dfy` (`MemoryErrors`): the error `ExcNotAllocatedHere` and
  the `Outcome` of `free`.
- `pool_entries.dfy` (`PoolEntries`): the pool's table as a value
  (`seq<Entry>`). It has three views of the table: `Pooled` (the vectors the
  table owns), `InUse` (those handed out) and `Unused` (those kept for reuse).
  `KeepInUse` is the reference definition of the sweep done by
  `release_unused_memory`. The lemmas here state what scanning, flagging and
  sweeping the table do to the three views.
- `growing_vector_memory.dfy` (`GrowingMemory`): class `Pool` (the shared
  table) and class `GrowingVectorMemory` (one manager: its pool and its two
  counts). The methods scan the table with loops, following the doc comment
  at lines 189-190 ("checks if it has one available").
- `primitive_vector_memory.dfy` (`PrimitiveMemory`): class
  `PrimitiveVectorMemory`.
- `vector_memory.dfy` (`VectorMemory`): the virtual `alloc`/`free` become the
  datatype `Allocator` (one case per implementation) with the methods `Alloc`
  and `Free` that dispatch on it. `HandedOut()` is, for the pool, the set of
  its vectors flagged in use; for the simple strategy, which keeps no record,
  it is every live vector of the heap. Class `Pointer` is the scoped handle.
- `scenarios.dfy` (`Scenarios`): clients that state, from the contracts alone,
  what callers can rely on. These cover reuse after `free`, distinct vectors
  while handed out, two managers sharing one pool, trimming, preallocation,
  leak reports, refusal of a foreign vector, separate pools per vector type,
  and a `Pointer` lifetime that leaves the counts as they were.

The header has only the declarations and doc comments of `GrowingVectorMemory`
and its `Pool`. Their method bodies are in `vector_memory.templates.h`, which is
not part of this model. So their behaviour comes from the doc comments
(lines 185-329) and from the entry type (line 268):
- `alloc` promises only *some* free entry. The model's loop takes the first one,
  but the contract does not say so.
- `free` of a vector the pool does not own returns `Fail(ExcNotAllocatedHere)`
  and changes nothing. The exception's own comment states this condition
  (lines 102-107).
- The pool's destructor destroys the whole table and reports a leak when a
  vector is still in use (line 205).

The static pool becomes an explicit `Pool` object. Every `GrowingVectorMemory`
of one vector type is constructed with the same `Pool`. Two vector types have
two pools.

## Model

| member | source | states |
|---|---|---|
| `PoolEntries.Snoc` | include/deal.II/lac/vector_memory.h:189-192 | appending an entry adds its vector to the owned set and to exactly one of the in-use / free views |
| `PoolEntries.ScanStep` | include/deal.II/lac/vector_memory.h:251-254 | what one more entry of a front-to-back scan adds to the owned vectors, the free vectors and the sweep of the prefix |
| `PoolEntries.KeepInUseSurvives` | include/deal.II/lac/vector_memory.h:251-254 | every vector the sweep keeps is live and is not one of the free vectors it destroys |
| `PoolEntries.UseDisjoint` | include/deal.II/lac/vector_memory.h:262-268 | in a table without duplicates a vector is handed out or free, never both, and every owned vector is one of the two |
| `PoolEntries.MarkMoves` | include/deal.II/lac/vector_memory.h:189-194 | flagging entry i in use (or free) moves exactly its vector from the free view to the in-use view (or back), and keeps the owned vectors, the length and uniqueness |
| `PoolEntries.KeepInUseMembers` | include/deal.II/lac/vector_memory.h:251-254 | an entry is in the swept table if and only if it was in the table and in use |
| `PoolEntries.KeepInUseAppend` | include/deal.II/lac/vector_memory.h:251-254 | the sweep distributes over concatenation, so the kept entries keep their relative order |
| `PoolEntries.KeepInUseViews` | include/deal.II/lac/vector_memory.h:251-254 | after the sweep the vectors handed out are exactly those before, the table owns only them, and no free vector is left |
| `PoolEntries.KeepInUseDistinct` | include/deal.II/lac/vector_memory.h:251-254 | the sweep keeps vectors unique in the table |
| `PoolEntries.DistinctSize` | include/deal.II/lac/vector_memory.h:299 | a table without duplicates owns as many vectors as it has entries |
| `PoolEntries.HandedOutBound` | include/deal.II/lac/vector_memory.h:189-192 | a table without duplicates has at least as many entries as any duplicate-free sequence of vectors it has flagged in use |
| `PoolEntries.KeepInUseSize` | include/deal.II/lac/vector_memory.h:251-254 | after the sweep the table has exactly one entry per vector handed out |
| `GrowingMemory.Pool.constructor` | include/deal.II/lac/vector_memory.h:281-284 | a new pool has no table yet and owns nothing |
| `GrowingMemory.Pool.Initialize` | include/deal.II/lac/vector_memory.h:291-294 | the first call creates a table of `size` newly constructed free vectors; every later call changes nothing |
| `GrowingMemory.Pool.Teardown` | include/deal.II/lac/vector_memory.h:286-289 | the pool's destructor destroys every vector of the table, in use or not, drops the table, and reports a leak exactly when some vector was still in use |
| `GrowingMemory.GrowingVectorMemory.constructor` | include/deal.II/lac/vector_memory.h:218-223 | both counts start at zero; if the pool has no table yet, it gets `initialSize` new free vectors (default none), otherwise the pool is unchanged |
| `GrowingMemory.GrowingVectorMemory.Alloc` | include/deal.II/lac/vector_memory.h:234-240 | the vector was not in use before and is in use afterwards; if the pool had a free vector, it is some free entry, flipped in place, and nothing is constructed; otherwise a vector distinct from every live one is constructed and appended; both counts grow by one |
| `GrowingMemory.GrowingVectorMemory.Free` | include/deal.II/lac/vector_memory.h:242-249 | succeeds exactly when the pool owns the vector; then its entry is flagged free, the vector stays owned and live, the table keeps its length, and `currentAlloc` drops by one; otherwise the outcome is `ExcNotAllocatedHere` and nothing changes; `totalAlloc` never changes |
| `GrowingMemory.GrowingVectorMemory.ReleaseUnusedMemory` | include/deal.II/lac/vector_memory.h:251-254 | the table becomes `KeepInUse` of the old table; exactly the free vectors are destroyed; the in-use entries, their vectors and flags are untouched; no manager's counts change |
| `GrowingMemory.GrowingVectorMemory.Destroy` | include/deal.II/lac/vector_memory.h:225-231 | the destructor reports a leak exactly when `currentAlloc` is not zero, and destroys nothing |
| `PrimitiveMemory.PrimitiveVectorMemory.Alloc` | include/deal.II/lac/vector_memory.h:360-365 | the vector is newly constructed, distinct from every live one |
| `PrimitiveMemory.PrimitiveVectorMemory.Free` | include/deal.II/lac/vector_memory.h:369-374 | the vector is destroyed and nothing else changes |
| `VectorMemory.Alloc` | include/deal.II/lac/vector_memory.h:83-89 | either strategy hands out a vector not handed out before (for the simple strategy: not live before), and adds only that vector to the handed-out set |
| `VectorMemory.Free` | include/deal.II/lac/vector_memory.h:91-107 | the vector is no longer handed out; the simple strategy always succeeds, and the pool succeeds exactly when it owns the vector (otherwise `ExcNotAllocatedHere`) |
| `VectorMemory.Pointer.constructor` | include/deal.II/lac/vector_memory.h:347-356 | construction takes one new vector from `mem` with a single `alloc`, so the counts grow by one |
| `VectorMemory.Pointer.Release` | include/deal.II/lac/vector_memory.h:141-144 | destruction gives that same vector back to the same `mem` with a single `free`, after which the handle owns nothing |
| `Scenarios.ReuseAfterFree` | include/deal.II/lac/vector_memory.h:189-194 | after `alloc`, `free` and `alloc` on a fresh pool, the second `alloc` returns the first vector and only one vector was ever constructed |
| `Scenarios.DistinctWhileHandedOut` | include/deal.II/lac/vector_memory.h:189-192 | three vectors handed out without `free` are distinct and the pool grew to three entries |
| `Scenarios.AllocMany` | include/deal.II/lac/vector_memory.h:189-192 | n `alloc` calls without `free` hand out n distinct vectors that were not in use before and are now; both counts grow by n; the pool then holds at least n entries |
| `Scenarios.SharedPool` | include/deal.II/lac/vector_memory.h:200-205 | a vector freed through one manager is handed out by another manager of the same pool; each keeps its own count |
| `Scenarios.TrimThenAlloc` | include/deal.II/lac/vector_memory.h:251-254 | after everything is freed and released, the pool is empty, the old vector is destroyed, and the next `alloc` constructs a vector |
| `Scenarios.TrimKeepsHandedOut` | include/deal.II/lac/vector_memory.h:251-254 | releasing unused memory leaves exactly the in-use entry, unchanged |
| `Scenarios.PreallocatedPool` | include/deal.II/lac/vector_memory.h:218-223 | an initial size of three constructs three vectors, and three `alloc` calls construct no more |
| `Scenarios.InitializeOnce` | include/deal.II/lac/vector_memory.h:291-294 | a second manager's initial size is ignored once the pool has its table |
| `Scenarios.LeakReported` | include/deal.II/lac/vector_memory.h:225-231 | destroying a manager with a vector outstanding reports a leak, and the vector stays in the pool, in use and live |
| `Scenarios.NoLeakAfterFree` | include/deal.II/lac/vector_memory.h:313-317 | a manager whose vectors were all freed reports no leak |
| `Scenarios.ForeignFree` | include/deal.II/lac/vector_memory.h:102-107 | freeing a vector the pool never owned yields `ExcNotAllocatedHere`, and the count is unchanged |
| `Scenarios.SeparatePools` | include/deal.II/lac/vector_memory.h:270-276 | a vector free in one type's pool is never handed out by another type's pool |
| `Scenarios.PrimitiveRoundTrip` | include/deal.II/lac/vector_memory.h:154-155 | the simple strategy constructs distinct vectors and retains nothing after `free` |
| `Scenarios.ScopedUse` | include/deal.II/lac/vector_memory.h:111-122 | a `Pointer` lifetime leaves the handed-out vectors and `currentAlloc` as they were, and adds one to `totalAlloc` |
| `Scenarios.ScopedPointerBalances` | include/deal.II/lac/vector_memory.h:347-356 | on a fresh manager, `currentAlloc` is zero before and after a `Pointer` lifetime, and `totalAlloc` is one |

## Left out

- `GrowingMemory.GrowingVectorMemory.Free` requires `currentAlloc > 0` when the pool owns the vector. The source's counter is an unsigned `size_type`, and an unmatched `free` would wrap it; the model does not represent that wrap.
- `VectorMemory.Pointer.Release` requires that its vector is still handed out. The source enforces unique ownership with a move-only `std::unique_ptr`; the model makes it a precondition.
- `VectorMemory.Free`: for the simple strategy it requires a live vector, since `delete` on anything else is undefined behaviour. The source never raises `ExcNotAllocatedHere` there. The model does not exclude deleting a live vector that a pool owns: in the source that is also undefined behaviour (a double delete once the pool's `unique_ptr` runs), and after it the pool's `Valid()` no longer holds.
- `GrowingMemory.GrowingVectorMemory.Destroy` destroys nothing. It does not follow lines 193 ("until the object is destroyed") and 226 ("Release all vectors"), because lines 200-205 say all managers of a vector type share one pool, that vectors are released only at the end of the program, and that the Pool's destructor is the one that warns about leaks. Destroying the pool's vectors with one manager would leave dangling vectors for the other managers. `GrowingMemory.Pool.Teardown` is where the vectors are destroyed.
- The counts are unbounded naturals. The width of `types::global_dof_index` is not modelled.
- The `Threads::Mutex` and all locking (lines 324-328). Each operation is one atomic step.
- `memory_consumption()` (lines 256-259). It is a byte estimate that depends on `sizeof` and vector storage.
- The text that `log_statistics` and the destructors write to the log. `logStatistics` is kept as a field; the leak report is a boolean result.
- The `Subscriptor` base, the `std::function` deleter, moving a `Pointer`, and its use as a pointer (dereference). Destruction during exception unwinding is the same `Release` call.
- `internal::GrowingVectorMemory::release_all_unused_memory` (lines 333-339). It is only declared, with no stated behaviour.
- Vector contents and sizes, which the interface leaves unspecified (lines 84-88).
- Static lifetime: the model never runs the pool's destructor at program end by itself. `Pool.Teardown` is the destructor, called explicitly.
- A construction failure while allocating is not modelled. `Heap.New` always succeeds.
- The per-type registry of pools: C++ templates give each vector type its own static pool. In the model, the caller passes each type's `Pool`.
