/** Optional values, standing for Python's `None` or a given argument. */
module Wrappers {

  datatype Option<+T> = None | Some(value: T)

  /** Python's truth test on an optional list: `None` and `[]` are both falsy. */
  predicate Falsy<T>(x: Option<seq<T>>)
  {
    x.None? || x.value == []
  }
}
