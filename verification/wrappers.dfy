/** The null-or-value results of the shader helpers, which return `null` on failure. */
module Wrappers {

  datatype Option<+T> = None | Some(value: T)
}
