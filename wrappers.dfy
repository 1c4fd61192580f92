/** The optional value used for an OCR outcome and for the download payload. */
module Wrappers {

  datatype Option<+T> = None | Some(value: T)
}
