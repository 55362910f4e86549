/** The optional-value type used throughout the model: `None` stands for
    a missing value or for a step that raised, `Some` for a value. It is
    failure-compatible, so a method can write `var x :- F();`. */
module Wrappers {

  datatype Option<+T> = None | Some(value: T) {

    predicate IsFailure() {
      None?
    }

    function PropagateFailure<U>(): Option<U>
      requires None?
    {
      None
    }

    function Extract(): T
      requires Some?
    {
      value
    }
  }
}
