/** Result shapes shared by every module of the model. */
module Outcomes {

  datatype Option<+T> = None | Some(value: T)

  /** A Rust `Result<T, E>` together with the third way a call can end in the
      source: a panic (`expect`, `unwrap`, `unimplemented!`), which carries
      the panic message. */
  datatype Outcome<+T, +E> = Ok(value: T) | Err(error: E) | Panic(message: string)
}
