/** Failure-carrying datatypes shared by every module of the model.
    `Option` stands for `std::experimental::optional`, `boost::optional` and NULL pointers;
    `Result` stands for a value or a thrown exception (`std::runtime_error`, `Rcpp::stop`). */
module Wrappers {

  datatype Option<+T> = None | Some(value: T) {
    function GetOr(default: T): T {
      match this
      case Some(v) => v
      case None => default
    }
  }

  /** `Err` carries the message of the exception the source throws. */
  datatype Result<+T> = Ok(value: T) | Err(message: string)
}
