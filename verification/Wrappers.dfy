/** Optional values, and results that stand for a C++ return or a thrown exception. */
module Wrappers {

  datatype Option<+T> = None | Some(value: T)

  /** `Throw` carries a short name of the exception the C++ code raises. */
  datatype Result<+T> = Ok(value: T) | Throw(reason: string)
}
