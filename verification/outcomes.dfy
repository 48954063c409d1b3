/** Result types shared by the codec and the store.

An `Outcome` is what a Rust function returning `Result<T, E>` can do: return
`Ok`, return `Err`, or panic (a slice or drain out of range, an arithmetic
overflow). The panic is kept as a value so that contracts can say exactly when
it happens instead of forbidding those inputs.
 */
module Outcomes {

  datatype Option<+T> = None | Some(value: T)

  datatype Outcome<+T, +E> = Ok(value: T) | Err(error: E) | Panic
}
