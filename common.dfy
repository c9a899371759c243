/** Small shared types: unsigned 8-bit samples and an optional result. */
module Common {

  /** An unsigned 8-bit sample (the C `uint8_t`). */
  newtype byte = x: int | 0 <= x < 256

  /** `None` stands for an operation the program aborts with a fatal error. */
  datatype Option<+T> = None | Some(value: T)
}
