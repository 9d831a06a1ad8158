/** The optional result that every non-blocking take operation of the toolkit
    returns (`std::optional` in the C++ code). */
module Wrappers {

  datatype Option<+T> = None | Some(value: T)
}
