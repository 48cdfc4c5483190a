/** Option: the model's replacement for Java's null and for the re-prompt
    and error paths of the interactive flows. */
module Wrappers {

  /** A value that may be absent: `None` stands for Java's `null` or for an
      input line that a validator rejects. */
  datatype Option<+T> = None | Some(value: T)
}
