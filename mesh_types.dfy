/** Shared value types of the 1-D mesh resampler: directed line elements and
    the fatal conditions the resampler can stop with. */
module MeshTypes {

  /** A 2-node line element, written in the mesh as `parent child`. */
  datatype Edge = Edge(parent: int, child: int)

  /** The fatal assertion failures (and the division by a zero target) that
      abort a whole resampling run. */
  datatype Error =
    | TooManyChildren(node: int)   // 'More than 4 children detected'
    | TooManyParents(node: int)    // 'More than 4 parents detected'
    | TrappedInLoop                // branch walk reached 10000 steps
    | ZeroTarget                   // division by a zero target length

  datatype Outcome = Pass | Fail(error: Error)

  datatype Result<T> = Ok(value: T) | Err(error: Error)
}
