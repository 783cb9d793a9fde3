/**
 * The values the remote genealogy gateway hands back to a callback
 * `(error, response)`. The gateway itself is not modelled: its replies are
 * inputs of the handlers.
 */
module Gateway {
  import opened Wrappers

  /** The display metadata of a person; `ascendancyNumber` may be absent. */
  datatype Display = Display(name: string, ascendancyNumber: Option<string>)

  /** A person record of the ancestry response. */
  datatype Person = Person(id: string, display: Display)

  /** The parsed JSON body of an ancestry response (`data`). */
  datatype AncestryData = AncestryData(persons: seq<Person>)

  /**
   * A response: status code, status text, raw body and parsed data.
   * `statusText` and `body` may be absent.
   */
  datatype Response = Response(
    statusCode: int,
    statusText: Option<string>,
    body: Option<string>,
    data: AncestryData)

  /** A failure of the call itself (no usable response). */
  datatype TransportError = TransportError(message: string)

  /** What the gateway passes to its callback. */
  datatype Reply = Reply(error: Option<TransportError>, response: Response)
}
