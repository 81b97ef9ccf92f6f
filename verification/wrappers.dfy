/** The usual optional-value datatype, used for PHP's `null` and for
    "no record found". */
module Wrappers {

  datatype Option<+T> = None | Some(value: T)

}
