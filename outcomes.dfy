/** Optional values and the one failure the splitter can raise. */
module Outcomes {

  datatype Option<T> = None | Some(value: T)

  /** The exception the source can raise: indexing the first element of an empty list. */
  datatype Error = IndexError

  datatype Result<T> = Ok(value: T) | Err(error: Error)
}
