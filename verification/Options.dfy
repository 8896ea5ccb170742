/** The conventional optional value, used for C's NULL pointers and for absent arguments. */
module Options {
  datatype Option<+T> = None | Some(value: T)
}
