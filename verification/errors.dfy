/** The error values the hiscores client hands back to its callers. */
module Errors {

  datatype Error =
      /** The remote read (HTTP request or body read) failed. */
    | Transport(reason: string)
      /** A payload row did not split into exactly three comma-separated fields. */
    | MalformedRow
      /** The payload has fewer rows than the catalog has skills. The Go code
          indexes past the end of its row slice and panics here; the model
          turns that into an explicit error. */
    | RowOutOfRange
      /** The requested skill name is not accepted; carries the names that
          would have been accepted, in the order they are listed. */
    | InvalidSkill(valid: seq<string>)

  datatype Result<+T> = Ok(value: T) | Err(error: Error)
}
