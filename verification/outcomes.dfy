/** What a call on the graph can end in: a returned value, or one of the
    exceptions the Java implementation can raise. */
module Outcomes {

  /** The exceptions a graph operation can throw. */
  datatype Error =
    | IllegalArgument     // a negative edge weight
    | IndexOutOfBounds    // a vertex index outside the adjacency matrix
    | EmptyStack          // popping the index stack when it holds nothing
    | NegativeArraySize   // a matrix requested with a negative dimension

  /** Either the value a call returned or the exception it threw. */
  datatype Result<+T> = Ok(value: T) | Err(error: Error)
}
