/** How a kernel operation can end. */
module Outcomes {
  /** `Panic`: the kernel called `panic`, which halts the machine for good.
      `Fault`: the kernel dereferenced a null pointer.
      `Done`: the operation returned. */
  datatype Outcome<+T> = Panic | Fault | Done(value: T) {
    predicate IsFailure() {
      !Done?
    }

    function PropagateFailure<U>(): Outcome<U>
      requires IsFailure()
    {
      if Panic? then Panic else Fault
    }

    function Extract(): T
      requires Done?
    {
      value
    }
  }
}
