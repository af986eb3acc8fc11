/**
 * Errors thrown by the graph library, and the result types that model Swift's
 * `throws`: a call either returns normally or throws one `GraphError`.
 */
module GraphErrors {

  /** The cases of the library's error enumeration, in declaration order. */
  datatype GraphError =
    | NotFound
    | Duplicate
    | NotATree
    | NotADAG
    | NotACompound
    | InvalidEditingOperation
    | NotOrdered
    | InvalidIndex

  /** The outcome of a throwing call that returns a value. */
  datatype Result<T> = Ok(value: T) | Err(error: GraphError)

  /** The outcome of a throwing call that returns nothing. */
  datatype Outcome = Pass | Fail(error: GraphError)

  /** The optional value of a Swift `T?`. */
  datatype Option<T> = None | Some(value: T)
}

/**
 * Node and edge identifiers. The library only asks them to be comparable and
 * hashable; integers with their usual order stand for any such type.
 */
module ElementIDs {
  type NodeID = int
  type EdgeID = int
}
