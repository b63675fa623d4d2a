/**
  The part of an HTTP response that the handlers decide: the status code,
  the headers they set, and the body (a JSON error body or a byte stream).
 */
module Http {
  import opened Utf8
  import opened Dto

  type StatusCode = int

  const OK: StatusCode := 200
  const BAD_REQUEST: StatusCode := 400
  const INTERNAL_SERVER_ERROR: StatusCode := 500

  const CONTENT_TYPE := "content-type"
  const CONTENT_DISPOSITION := "content-disposition"

  datatype Header = Header(name: string, value: string)

  datatype Body =
    | Json(dto: ErrorBody)
    | Stream(bytes: seq<Byte>)

  datatype Response = Response(status: StatusCode, headers: seq<Header>, body: Body)

  /** axum's `QueryRejection`, seen through its `body_text()`. */
  datatype QueryRejection = QueryRejection(bodyText: string)

  /** `(status, Json(dto)).into_response()`. */
  function JsonResponse(status: StatusCode, dto: ErrorBody): (r: Response)
    ensures r.status == status && r.headers == []
    ensures r.body.Json? && r.body.dto == dto
  {
    Response(status, [], Json(dto))
  }

  /** `(headers, body).into_response()`: the status is left at its default, 200. */
  function StreamResponse(headers: seq<Header>, bytes: seq<Byte>): (r: Response)
    ensures r.status == OK && r.headers == headers
    ensures r.body.Stream? && r.body.bytes == bytes
  {
    Response(OK, headers, Stream(bytes))
  }
}
