/** Optional values: Python's None versus a present value. */
module Wrappers {

  datatype Option<+T> = None | Some(value: T)
}
