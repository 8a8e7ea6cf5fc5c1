/** Types that several modules use. */
module Basics {

  datatype Option<T> = None | Some(value: T)

  type Bytes = seq<bv8>
}
