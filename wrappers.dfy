/** A value that may be absent; `None` stands where the C# code returns `null`. */
module Wrappers {
  datatype Option<T> = None | Some(value: T)
}
