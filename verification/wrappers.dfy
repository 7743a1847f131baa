/** The optional-value type used wherever the site's JavaScript may yield `undefined`. */
module Wrappers {

  datatype Option<+T> = None | Some(value: T)
}
