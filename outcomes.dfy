/** The exceptions both containers throw, as values. */
module Outcomes {

  /** The failure conditions of TreeMap.h and HashMap.h, named after their messages. */
  datatype Error =
    | CollectionEmpty  // std::out_of_range("Collection is empty")
    | KeyNotFound      // std::out_of_range("Key doesn't exist") and its variants
    | OutOfRange       // std::out_of_range("out of range"): an iterator stepped or read past its range
    | NotImplemented   // std::runtime_error("TODO")
    | NullDereference  // the C++ code would dereference a null pointer here (undefined behaviour)

  datatype Result<T> = Ok(value: T) | Err(error: Error)

  /** The outcome of an operation that returns nothing. */
  datatype Status = Done | Failed(error: Error)
}
