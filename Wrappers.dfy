/** The optional value the handler's helpers return where JavaScript
    would hand back `null` (a missing query parameter) or `NaN` (a number
    that did not parse). */
module Wrappers {

  datatype Option<+T> = None | Some(value: T)
}
