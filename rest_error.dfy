/**
 * Conversion of an API response into an error value (lib/rest-error.js).
 * The error is a fresh record; the response is a value and is never changed.
 */
module RestError {
  import opened Wrappers
  import opened Gateway

  /** The error object: `message`, `status` and `body`. */
  datatype RestError = RestError(message: string, status: int, body: Option<string>)

  /**
   * `new Error(statusText)` takes the status text as message; an absent
   * status text leaves the message empty. Status and body are copied as they
   * are, so an absent body stays absent. Total: no response is refused.
   */
  function ToRestError(response: Response): (e: RestError)
    ensures e.status == response.statusCode
    ensures response.statusText.Some? ==> e.message == response.statusText.value
    ensures response.statusText.None? ==> e.message == ""
    ensures e.body == response.body
  {
    RestError(response.statusText.GetOr(""), response.statusCode, response.body)
  }

  /**
   * The error depends on the status code, status text and body and on
   * nothing else: two responses give the same error exactly when they agree
   * on those (reading an absent status text as the empty one).
   */
  lemma ToRestErrorDeterminedBy(r1: Response, r2: Response)
    ensures ToRestError(r1) == ToRestError(r2) <==>
              && r1.statusCode == r2.statusCode
              && r1.statusText.GetOr("") == r2.statusText.GetOr("")
              && r1.body == r2.body
  {
  }
}
