/** Small shared vocabulary: the optional value that stands for a C pointer
    that may be NULL. */
module Base {

  /** `None` plays the part of a NULL pointer, `Some(v)` of a pointer to `v`. */
  datatype Option<+T> = None | Some(value: T)

}
