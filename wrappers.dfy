/** The optional value used for `latest_online_time`, which is either a timestamp or `None`. */
module Wrappers {
  datatype Option<+T> = None | Some(value: T)
}
