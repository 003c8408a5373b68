/**
 * The shapes shared by the parser, the router and the serializer: a request
 * as it comes off the wire, and a response as a handler produces it.
 */
module Wire {

  /** An HTTP method token; open-ended, GET and POST are the named ones. */
  type Verb = string

  const GET: Verb := "GET"
  const POST: Verb := "POST"

  /** Tokens 0, 1 and 2 of the request line. */
  datatype RequestLine = RequestLine(verb: Verb, path: string, version: string)

  /** A parsed request: header names are lower-cased and trimmed, values trimmed. */
  datatype Request = Request(line: RequestLine, headers: map<string, string>, body: string)

  /** A status code and the text that follows it on the status line. */
  datatype Status = Status(code: int, text: string)

  /** A response as a handler builds it; header names keep the handler's case. */
  datatype Response = Response(status: Status, headers: map<string, string>, body: string)
}
