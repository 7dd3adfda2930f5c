/** The conventional optional value, used for a row's image (which may be absent),
    the debouncer's pending deadline and a snapshot that threw. */
module Wrappers {
  datatype Option<+T> = None | Some(value: T)
}
