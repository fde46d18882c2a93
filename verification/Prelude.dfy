/** Small shared datatypes. */
module Prelude {
  /** A nullable column or an optional argument. */
  datatype Option<+T> = None | Some(value: T)
}
