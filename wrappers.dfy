/** Python's `Optional[T]`: a value that may be `None`, and the truthiness test on an optional int. */
module Wrappers {

  datatype Option<+T> = None | Some(value: T)

  /** `if video_duration`: a duration is known and is not 0. */
  predicate Truthy(duration: Option<int>) {
    duration.Some? && duration.value != 0
  }

}
