/** `JPNetworkError`: the ways a request can fail, and the status code an HTTP error carries. */
module NetworkError {
  import opened Wrappers
  import Decimal
  import opened Response

  datatype NetworkError =
    | DuplicateRequest
    | InvalidUrl
    | InvalidResponse
    | ClientError(response: NetworkResponse)
    | ServerError(response: NetworkResponse)
      /** `.error(Error)`: an underlying failure, kept only by its description. */
    | Error(cause: string)
    | Unknown
  {
    /** `errorCode`: the status code of the response behind a client or server error, and nil for every other case. */
    function ErrorCode(): (r: Option<int>)
      ensures r.Some? <==> ClientError? || ServerError?
      ensures r.Some? ==> r.value == response.statusCode
    {
      match this
      case ClientError(networkResponse) => Some(networkResponse.statusCode)
      case ServerError(networkResponse) => Some(networkResponse.statusCode)
      case _ => None
    }
  }

  /** The code an HTTP error reports is the one its response's description starts with and reads back as. */
  lemma ErrorCodeInDescription(e: NetworkError)
    requires e.ClientError? || e.ServerError?
    ensures e.ErrorCode().Some?
    ensures ReadDescription(e.response.Description()) == Some((e.ErrorCode().value, e.response.DataText()))
    ensures e.response.Description()[..|Decimal.IntText(e.ErrorCode().value)|] == Decimal.IntText(e.ErrorCode().value)
  {
    DescriptionReadsBack(e.response);
  }
}
