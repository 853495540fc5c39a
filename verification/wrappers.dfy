/** Failure-carrying results shared by every module of the model.
    Go's `(value, error)` pairs become `Result`; a nil-able value becomes `Option`. */
module Wrappers {

  datatype Option<+T> = None | Some(value: T)

  /** `Err` carries the text the Go code passes to `errors.New` / `fmt.Errorf`. */
  datatype Result<+T> = Ok(value: T) | Err(error: string)
}
