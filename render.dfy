/**
 * The exchange with the remote renderer in renderView (serve.go:149-179):
 * the payload sent, the three ways the reply can come back, and the status
 * and body written to the client for each.
 *
 * The renderer itself (request(), serve.go:182-208) is not modelled: it is a
 * function from payload to outcome supplied by the caller. JSON encoding and
 * decoding are replaced by the records below and the `Undecodable` outcome.
 */
module Render {

  /** requestPayload: the file name, the request path and the resolved template code. */
  datatype Payload = Payload(filename: string, url: string, code: string)

  /** resultResponse, without its render time. */
  datatype RenderResult = RenderResult(status: string, message: string, html: string)

  /** What came back from the renderer. */
  datatype Outcome =
    | TransportFailure          // request() returned nil
    | Undecodable               // the body did not decode as a result
    | Decoded(result: RenderResult)

  datatype Response = Response(status: int, body: string)

  /** Section 15.3.1 of RFC 9110. */
  const StatusOK: int := 200
  /** Section 15.3.5 of RFC 9110. */
  const StatusNoContent: int := 204
  /** Section 15.5.1 of RFC 9110. */
  const StatusBadRequest: int := 400

  const StatusOkText: string := "ok"
  const ServerErrorBody: string := "server error"
  const UnknownErrorBody: string := "unknown error"

  /**
   * The status and body renderView writes for an outcome: 200 and the html
   * verbatim only when the reply decoded and reported success, the
   * renderer's message on a reported failure, and a fixed text otherwise.
   */
  function ResponseFor(o: Outcome): (r: Response)
    ensures r.status == StatusOK <==> o.Decoded? && o.result.status == StatusOkText
    ensures r.status == StatusOK || r.status == StatusBadRequest
    ensures o.TransportFailure? ==> r.body == ServerErrorBody
    ensures o.Undecodable? ==> r.body == UnknownErrorBody
    ensures o.Decoded? ==> r.body == if o.result.status == StatusOkText then o.result.html else o.result.message
  {
    match o
    case TransportFailure => Response(StatusBadRequest, ServerErrorBody)
    case Undecodable => Response(StatusBadRequest, UnknownErrorBody)
    case Decoded(res) =>
      if res.status == StatusOkText then Response(StatusOK, res.html)
      else Response(StatusBadRequest, res.message)
  }

  /**
   * The http.ResponseWriter as this program uses it: the statuses passed to
   * WriteHeader, in order, and the bytes written. A Write before any
   * WriteHeader sends status 200 first, as net/http does.
   */
  class ResponseWriter {
    var headers: seq<int>
    var body: string

    constructor ()
      ensures headers == [] && body == ""
    {
      headers := [];
      body := "";
    }

    method WriteHeader(code: int)
      modifies this
      ensures headers == old(headers) + [code] && body == old(body)
    {
      headers := headers + [code];
    }

    method Write(b: string)
      modifies this
      ensures headers == (if old(headers) == [] then [StatusOK] else old(headers))
      ensures body == old(body) + b
    {
      if headers == [] {
        headers := [StatusOK];
      }
      body := body + b;
    }
  }
}
