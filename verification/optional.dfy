/** A value that may be absent: a NULL pointer, a missing backend state. */
module Optional {

  datatype Option<T> = None | Some(value: T)

  /** The result of a step that may have undefined behaviour in C (a write
      through a NULL pointer, a copy past the end of a block): `Fault`, or
      the defined result. */
  datatype Outcome<T> = Fault | Done(value: T)
}
