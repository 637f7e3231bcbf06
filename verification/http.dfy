/** The request and response records of the server and the wire constants they are framed with. */
module Http {
  import opened Bytes

  /** Header names to values; names are case-sensitive and a later insertion replaces an earlier one. */
  type HeaderMap = map<Bytes, Bytes>

  /** A parsed request: the three request-line tokens, the header map and the body bytes. */
  datatype Request = Request(verb: Bytes, path: Bytes, version: Bytes, headers: HeaderMap, body: Bytes)

  /** A response as the handlers fill it in before it is written out. */
  datatype Response = Response(version: Bytes, status: Bytes, headers: HeaderMap, body: Bytes)

  const CRLF: Bytes := "\r\n"

  /** The blank line that ends the header block. */
  const HeaderEnd: Bytes := "\r\n\r\n"

  /** What separates a header name from its value. */
  const FieldSeparator: Bytes := ": "

  /** Capacity of the single read a connection gets. */
  const BufferSize: nat := 1024
}
