/** Failure-carrying results for the Huffman construction pipeline.
    The Python code signals misuse by raising `ValueError` with a message and
    returns `None` where a tree may be absent; both are modelled as values. */
module Outcomes {

  /** An optional value: `None` stands for Python's `None` tree. */
  datatype Option<+T> = None | Some(value: T)

  /** The error raised by the Python code, with its message text. */
  datatype Error = ValueError(message: string)

  /** A value or the error the Python code would raise instead. */
  datatype Result<+T> = Ok(value: T) | Err(error: Error)

  /** Raised by `list_ref` when the index runs past the end of the list. */
  const IndexOutOfBounds: Error := ValueError("index out of bounds")

  /** Raised by `coalesce_once` on a list with fewer than two trees. */
  const TooFewElements: Error := ValueError("List must have at least 2 elements")
}
