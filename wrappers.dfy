/** An optional value: `None` stands for the C# `null` where the library
    leaves a reference unset. */
module Wrappers {

  datatype Option<+T> = None | Some(value: T)
}
