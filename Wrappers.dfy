/** Option and outcome types shared by every module of the model. */
module Wrappers {
  datatype Option<T> = None | Some(value: T)
  {
    predicate IsSome() { this.Some? }
  }

  /**
   * The result of an operation that may `panic!` in the Rust source.
   * A panic aborts the whole system, so the model only records that it happened
   * and why.
   */
  datatype Outcome<T> = Done(value: T) | Panic(reason: string)
}
