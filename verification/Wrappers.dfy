/** Result types shared by the model. */
module Wrappers {

  /** A pointer that may be NULL. */
  datatype Option<+T> = None | Some(value: T)

  /** The result of a C function on an arbitrary input. `Fault` stands for every
      way the code leaves its defined behaviour: a copy of negative length, a
      read outside a buffer, a NULL dereference, or a loop that never ends. */
  datatype Outcome<+T> = Fault | Ok(value: T)
}
