/** The result of a Kira computation: a value, or the hard trap of the runtime. */
module Outcomes {

  datatype Outcome<+T> = Trap | Ok(value: T) {

    predicate IsFailure() {
      Trap?
    }

    function PropagateFailure<U>(): Outcome<U>
      requires Trap?
    {
      Trap
    }

    function Extract(): T
      requires Ok?
    {
      value
    }
  }
}
