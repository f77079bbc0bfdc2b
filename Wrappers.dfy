/** Option, the value-or-nothing shape used for C#'s nullable results
    (`FirstOrDefault`, `int?` route values, null arrays). */
module Wrappers {

  datatype Option<+T> = None | Some(value: T)
}
