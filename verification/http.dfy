/**
  The slice of HTTP the mirror uses: header maps, a request, the response
  fields the fetch step looks at, and the two status codes it tells apart.
  The transport itself is not modelled; a reply is an input.
 */
module Http {

  /** A header map keyed by canonical header name, holding the first value.
      Go's Header.Get canonicalises the name it is asked for, so "ETag" is
      looked up as "Etag"; the constants below are the canonical forms. */
  type Headers = map<string, string>

  const IfModifiedSince: string := "If-Modified-Since"
  const IfNoneMatch: string := "If-None-Match"
  const LastModified: string := "Last-Modified"
  const ETag: string := "Etag"

  /** 200 OK. */
  const StatusOK: int := 200
  /** 304 Not Modified (section 4.1 of RFC 7232). */
  const StatusNotModified: int := 304

  /** Header.Get: the value stored under `name`, or "" when there is none. */
  function Get(h: Headers, name: string): string
  {
    if name in h then h[name] else ""
  }

  datatype Request = Request(verb: string, url: string, header: Headers)

  datatype Response = Response(status: int, header: Headers, body: seq<bv8>)

  /** What the client call returns: a transport-level error or a response. */
  datatype Reply = TransportFailure | Answered(response: Response)
}
