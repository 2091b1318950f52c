/** Missing values and exceptions of the scraper, as values. */
module Wrappers {

  /** A value that may be absent: pandas' NaN for a number that did not parse. */
  datatype Option<+T> = None | Some(value: T)

  /** The outcome of a step that raises an exception on some inputs
      (an IndexError from a split, a TypeError from slicing NaN, ...). */
  datatype Result<+T> = Ok(value: T) | Crash(reason: string)
}
