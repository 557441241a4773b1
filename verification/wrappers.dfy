/** The optional value used for the scanner's per-kind pending slots. */
module Wrappers {

  datatype Option<+T> = None | Some(value: T)
}
