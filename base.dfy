/** Shared vocabulary: optional values and document identifiers. */
module Base {

  /** A value that may be absent (a JavaScript `null`/`undefined`, a missing document). */
  datatype Option<T> = None | Some(value: T)

  /** Document identifiers (MongoDB ObjectIds) are modelled as natural numbers. */
  type Id = nat
}
