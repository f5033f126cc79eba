/**
 An optional value, for the partial readers of the model (`ParseInt`,
 `ParseShare`, the prefix and suffix strippers) and for the override table,
 whose lookup may find no rule. It supports `:-`, so a reader can stop at the
 first piece that is missing.
 */
module Options {

  /** A value that may be missing; usable with `:-`. */
  datatype Option<+T> = None | Some(value: T) {
    predicate IsFailure() {
      None?
    }

    function PropagateFailure<U>(): Option<U>
      requires None?
    {
      None
    }

    function Extract(): T
      requires Some?
    {
      value
    }
  }
}
