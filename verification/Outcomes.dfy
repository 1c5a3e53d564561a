/** Results shared by every component of the model. */
module Outcomes {

  /** The result of a step that may end the run: the source's ASSERT and Panic do not return. */
  datatype Outcome<+T> = Stopped | Returned(value: T) {

    predicate IsFailure() {
      Stopped?
    }

    function PropagateFailure<U>(): Outcome<U>
      requires Stopped?
    {
      Stopped
    }

    function Extract(): T
      requires Returned?
    {
      value
    }
  }

  /** An optional value: a lookup that can miss, a parse that can fail. */
  datatype Option<+T> = None | Some(value: T) {

    predicate IsFailure() {
      None?
    }

    function PropagateFailure<U>(): Option<U>
      requires None?
    {
      None
    }

    function Extract(): T
      requires Some?
    {
      value
    }
  }
}
