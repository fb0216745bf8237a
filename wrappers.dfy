/** The optional value used throughout the model: a missing cookie, a date
    string that does not parse, a profile field that is NULL. */
module Wrappers {

  datatype Option<+T> = None | Some(value: T)
}
