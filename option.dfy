/** An optional value, used where the source reports "nothing received" or "nothing sent". */
module Opt {
  datatype Option<T> = None | Some(value: T)
}
