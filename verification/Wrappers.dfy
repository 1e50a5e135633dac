/** The two-way result types that stand for the source's std::optional returns. */
module Wrappers {
  datatype Option<+T> = None | Some(value: T)
}
