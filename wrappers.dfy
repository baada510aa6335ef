/** The optional value used for nullable C++ inputs (a `char*` from `getenv`,
    a `const char*` that may stay `nullptr`). */
module Wrappers {

  datatype Option<+T> = None | Some(value: T)
}
