/** Types that several modules use for missing values. */
module Wrappers {
  datatype Option<T> = None | Some(value: T)
}
