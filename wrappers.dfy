/** Failure-compatible results for the graph operations that throw
    IllegalArgumentException (or fail an index check) in the Java code. */
module Wrappers {

  datatype Option<T> = None | Some(value: T)

  /** The distinct reasons a graph operation or a path query fails. */
  datatype Error =
    | EdgeAlreadyExists        // add(u, v) on a record already in the list
    | VerticesDoNotExist       // add(u, v) when neither endpoint is a vertex
    | VertexNotFromGraph       // checkMyVertex on a non-vertex
    | NoPathTo(target: int)    // pathTo(v) when the predecessor chain fails

  datatype Result<T> = Ok(value: T) | Err(error: Error)

  datatype Outcome = Pass | Fail(error: Error)
}
