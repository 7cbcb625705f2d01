/** Optional values, and results that either carry a value or name the Python
    exception the modelled code would raise. */
module Outcome {

  datatype Option<+T> = None | Some(value: T)

  /** The Python exceptions that the modelled code can raise. */
  datatype Fault =
    | ValueError     // int() of a non-number, unpacking the wrong number of parts, list.index miss
    | IndexError     // indexing past the end of a list
    | KeyError       // reading an attribute a tag does not carry
    | StopIteration  // next() on an exhausted reader

  datatype Result<+T> = Ok(value: T) | Err(fault: Fault)
}
