/** Optional values: Python's `None` versus a present value. */
module Wrappers {
  datatype Option<+T> = None | Some(value: T)
  {
    /** The value as a sequence: empty for None, one element otherwise. */
    function ToSeq(): seq<T>
    {
      if Some? then [value] else []
    }
  }
}
