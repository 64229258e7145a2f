/** The optional-value wrapper the picker model uses for an absent index path. */
module Wrappers {
  datatype Option<+T> = None | Some(value: T)
}
