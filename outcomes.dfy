/** What a collection operation reports, and what a test case of the fixture ends with. */
module Outcomes {

  /** The result of one ICollection<T> call: Ok, or the exception the .NET
      collection contract would throw, as a value. */
  datatype Status =
    | Ok
    | NotSupported        // NotSupportedException: the collection refuses mutation
    | ArgumentNull        // ArgumentNullException
    | ArgumentOutOfRange  // ArgumentOutOfRangeException
    | ArgumentError       // ArgumentException
    | InvalidOperation    // InvalidOperationException: stale enumerator

  datatype Option<+T> = None | Some(value: T)

  /** How one test case ends: every assertion held, it skipped itself
      (Assert.Pass with a "Skip" message), an assertion failed, or an exception
      escaped from the collection under test. */
  datatype Verdict = Passed | Skipped | Failed | Raised(error: Status)
}
