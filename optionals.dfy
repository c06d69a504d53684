/** An optional value: a cell of a bucket (std::optional<int>) and the
    outcome of a bounded hash-function search. */
module Optionals {
  datatype Option<+T> = None | Some(value: T)
}
