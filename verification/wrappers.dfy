/** The optional-value datatype the model uses wherever the page reads
    something that may be missing: a date that does not parse, a stored
    preference that was never written, a text that does not parse back. */
module Wrappers {

  datatype Option<+T> = None | Some(value: T)
}
