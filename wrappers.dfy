/** The success/failure wrapper used for the splitter's raised exceptions. */
module Wrappers {

  datatype Result<+T, +E> = Ok(value: T) | Err(error: E)

}
