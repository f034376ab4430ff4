/** Error and result types of the hypervisor crate (`crate::RvmResult`), and the
    optional values of Rust's `core::option`, as the page-table engine uses them. */
module Rvm {

  /** The error kinds the page-table engine can report. `InvalidParam` is the
      engine's own; `NoMemory` is what the frame allocator reports when it has
      no frame left, propagated unchanged by `?`. */
  datatype RvmError = InvalidParam | NoMemory

  /** `RvmResult<T>`: either a value or an error. */
  datatype RvmResult<T> = Ok(value: T) | Err(error: RvmError)

  /** `Option<T>`, with `unwrap_or_else` (given an already computed default) as `GetOr`. */
  datatype Option<T> = None | Some(value: T) {
    function GetOr(default: T): (r: T)
      ensures Some? ==> r == value
      ensures None? ==> r == default
    {
      match this
      case Some(v) => v
      case None => default
    }
  }
}
