/** The conventional optional value, used for map lookups and for a request
    body that did not parse as JSON. */
module Wrappers {

  datatype Option<+T> = None | Some(value: T)

}
