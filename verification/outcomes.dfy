/**
  Failure-carrying values shared by every part of the dashboard model.
  Each `Error` constructor stands for an exception the dashboard can raise.
 */
module Outcomes {

  /** A value that may be absent: a blank pivot cell, a missing lookup. */
  datatype Option<+T> = None | Some(value: T)

  /** The exceptions the modelled code can raise. */
  datatype Error =
    | EmptyDataset              // `max`/`min` of an empty year column at startup
    | DuplicateEntries          // the pivot meets one (year, country) pair twice
    | UnknownCountry(name: string)  // `country_codes[name]` has no entry

  /** Either a computed value or the exception that ended the computation. */
  datatype Result<+T> = Ok(value: T) | Err(error: Error)
}
