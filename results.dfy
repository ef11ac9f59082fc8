/** Failure-compatible wrappers for the lookups that may come back empty and for the
    operations that throw. */
module Results {

  datatype Option<+T> = None | Some(value: T)

  datatype Result<+T, +E> = Ok(value: T) | Err(error: E)
}

/** What makes a stage of the extraction throw. */
module Failures {

  datatype Error =
    | NoBody                          // `Element("body")` found no body, so the next call hits null
    | NoDataTable                     // `Single` found no data table
    | AmbiguousDataTable              // `Single` found more than one data table
    | NoSegments(fragment: string)    // a slash fragment with no piece, so `segments[Count - 1]` is out of range
    | NoTokens(word: string)          // a word with no token, so `segments[0]` is out of range
}
