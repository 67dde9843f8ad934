/** The optional-value wrapper the rest of the model uses for "may be absent". */
module Wrappers {

  datatype Option<+T> = None | Some(value: T)
}
