/** Failure-carrying values shared by the kernel modules: Rust's `Option` and `Result`. */
module Common {

  datatype Option<T> = None | Some(value: T)

  datatype Result<T, E> = Ok(value: T) | Err(error: E)
}
