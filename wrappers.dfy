/** The optional value used for the fields that the JSON payloads may omit
    (`undefined` / `null` in the original program). */
module Wrappers {

  datatype Option<+T> = None | Some(value: T)
}
