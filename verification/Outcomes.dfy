/** Results and the exceptions the code raises. */
module Outcomes {

  datatype Option<+T> = None | Some(value: T)

  /** `EventAttr::InvalidEvent`, the two exceptions of the `std::sto*` family, and `std::system_error`. */
  datatype Fault = InvalidEvent | InvalidArgument | OutOfRange | SystemError

  datatype Result<+T> = Ok(value: T) | Threw(fault: Fault)
}
