/** Values that JavaScript code may leave out. */
module Wrappers {

  /** An optional value: `None` stands for a missing property or `undefined`, and for
      `null` wherever the code tests only truthiness, which treats the two alike. */
  datatype Option<+T> = None | Some(value: T) {

    /** The value, or `default` when it is missing (a JavaScript default parameter). */
    function GetOr(default: T): T {
      match this
      case Some(v) => v
      case None => default
    }
  }
}

/** The calendar reading of a JavaScript `Date`, as far as the core looks at one. */
module JsDate {

  /** `getFullYear()`, `getMonth()` (0 for January) and `getDate()` of a local date.
      The time of day is never read by the core and is not represented. */
  datatype Time = Time(year: int, monthIndex: int, day: int)

  /** The ranges a real `Date` keeps its month index and day of month in. */
  predicate CalendarDate(t: Time) {
    0 <= t.monthIndex < 12 && 1 <= t.day <= 31
  }
}
