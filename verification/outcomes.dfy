/** Optional values and the exceptions of the dice roller, as values.

    Every `throw` of the source becomes an `Err` carrying the situation that
    raised it; `Result` is failure-compatible, so `:-` propagates it. */
module Outcomes {

  datatype Option<+T> = None | Some(value: T)

  /** What went wrong, by the situation the source throws in. */
  datatype Failure =
    | Locked       // a setter called on a group that has been rolled
    | RolledTwice  // `roll()` called on a group that has been rolled
    | DropAll      // a drop count that would leave no die in the total
    | Unrolled     // an unrolled roll handed to the history
    | OddDice      // a die of another type handed to a drop controller
    | Undefined    // a property read through `undefined` (a TypeError)

  datatype Result<+T> = Ok(value: T) | Err(failure: Failure) {

    predicate IsFailure() {
      Err?
    }

    function PropagateFailure<U>(): Result<U>
      requires Err?
    {
      Err(failure)
    }

    function Extract(): T
      requires Ok?
    {
      value
    }
  }
}
