/** The optional values of the portal: a JavaScript field or argument that may be
    `null` or `undefined` is `None`, one that is present is `Some`. */
module Wrappers {

  datatype Option<+T> = None | Some(value: T)
}
