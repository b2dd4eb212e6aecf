/** Plain optional and outcome values, shared by the other modules. */
module Wrappers {

  /** A value that may be missing: a JavaScript `undefined`, or "no match". */
  datatype Option<+T> = None | Some(value: T)

  /** An outcome that is refused, or accepted with a value. */
  datatype Result<+T> = Rejected | Ok(value: T)
}
