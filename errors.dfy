/** The exceptions the routing engine throws, and the result types that carry them. */
module Errors {

  /** Which endpoint of an operation a missing vertex or planet was given as. */
  datatype Role = Source | Destination | Vertex

  /** One variant per thrown exception, distinguished by its message. */
  datatype Error =
    | IndexOutOfRange                        // std::out_of_range "Index out of range"
    | EmptyArray                             // std::out_of_range "Array is empty"
    | EmptyQueue                             // std::out_of_range "Priority queue is empty"
    | DuplicateName(name: string)            // std::invalid_argument on AddVertex
    | VertexNotFound(role: Role, id: int)    // std::invalid_argument for an unknown id
    | PlanetNotFound(role: Role, name: string) // std::invalid_argument for an unknown name
    | InvalidNumber(token: string)           // std::stod rejecting a token

  datatype Option<T> = None | Some(value: T)

  datatype Result<T> = Ok(value: T) | Err(error: Error)

  /** The outcome of an operation that returns nothing but may throw. */
  datatype Outcome = Pass | Fail(error: Error)
}
