/** The error of the vector memory interface and the outcome of giving a
    vector back. */
module MemoryErrors {

  /** `ExcNotAllocatedHere`: a vector is being given back to a memory pool that
      did not hand it out. */
  datatype Error = ExcNotAllocatedHere

  /** The outcome of `free`: the vector was taken back, or the error. */
  datatype Outcome = Pass | Fail(error: Error)
}
