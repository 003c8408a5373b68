# A minimal HTTP/1.1 server: parsing, routing and serialisation

This project models the core of a small HTTP/1.1 server written in Go
(`app/server.go`). The core has three stages:

- **Parsing.** The received buffer becomes a request. The buffer is cut on
  CRLF. Line 0 is the request line, which is split on single spaces into a
  verb, a path and a version. The following non-empty lines are headers: each
  is cut at its first colon, the name is trimmed and lower-cased, the value is
  trimmed, lines without a colon are skipped, and a later line for the same
  name wins. Everything from the first empty line on is joined back with CRLF
  and becomes the body.
- **Routing.** A router maps the key `path + verb` (plain concatenation) to a
  handler. `Register` stores or replaces a handler. `Handle` calls the handler
  registered for the request's key, or answers with the fixed 404 response.
- **Serialisation.** A response is written as:
  - the status line `HTTP/1.1 <code> <text>`;
  - one `name: value` line per header, in Go's map iteration order;
  - an empty line;
  - the body, verbatim.

Modules:

- `Wrappers` holds the `Option` type.
- `Text` models the Go library calls the core relies on:
  - `strings.Split`, `strings.Join` and `strings.SplitN(_, ":", 2)`;
  - `strings.TrimSpace` and `strings.ToLower`;
  - fmt's `%d`.
- `Wire` holds the data types.
- `Parser` models `parseRequest` and `parseRequestLine`.
  - `RequestOf` is the specification of a parse.
  - `ParseRequest` is the header loop as the code writes it, proved equal to `RequestOf`.
- `Serializer` models `writeResponseToBytes`.
  - The method picks each next header key nondeterministically.
  - Its contract says that the output is `ResponseBytes` for *some* order of the keys, which is all that Go's randomised map iteration guarantees.
- `Routing` models the router as a class. Its map field is updated in place by `Register`.
- `Pipeline` connects the stages:
  - what the request parser makes of the serializer's output;
  - end-to-end scenarios for a missing route, a registered root route and a Host header.

Two behaviours of the code are modelled as written:

- **The body keeps the empty line.** The comment at `app/server.go:70` says
  the body starts after the headers and the empty line. The slice
  `lines[i:]` joined at `app/server.go:71-72` starts at the empty line
  itself. So a body that follows an empty line comes back
  with a CRLF in front (`Parser.RequestOfFramed`, `Parser.BodyKeepsBlankLine`).
  A request that ends with the empty line gets the body `"\r\n"`, not `""`
  (`Pipeline.HostRequestScenario`).
- **Short request lines.** A request line with fewer than three
  space-separated tokens makes Go index past the end of the split and panic.
  That panic is `None` here: `ParseRequestLine` and `RequestOf` return an
  `Option`.

## Model

| member | source | states |
|---|---|---|
| Text.Split | app/server.go:51 | strings.Split always yields at least one piece (an empty string gives `[""]`) |
| Text.JoinSplit | app/server.go:51-72 | joining with CRLF what Split cut on CRLF gives the original buffer back |
| Text.SplitJoinCrlf | app/server.go:51 | splitting CRLF-joined CRLF-free lines followed by CRLF and more text gives those lines, then the pieces of the rest |
| Text.SplitAt | app/server.go:51 | Split stops at the first occurrence of the separator and continues after it |
| Text.JoinAppend | app/server.go:72 | joining two non-empty lists puts exactly one separator between their joins |
| Text.CutFirst | app/server.go:61-62 | the two-piece SplitN on ':' is absent exactly when there is no colon; otherwise the first half has no colon and the halves with the colon rebuild the line |
| Text.CutFirstAt | app/server.go:61 | the cut is at the first colon; later colons stay in the value |
| Text.TrimSpace | app/server.go:63-64 | the result has no whitespace at either end |
| Text.TrimSpaceExact | app/server.go:63-64 | TrimSpace removes exactly the surrounding whitespace, nothing of the trimmed text |
| Text.TrimSpaceTrimmed | app/server.go:63-64 | TrimSpace is the identity on trimmed text (idempotence) |
| Text.ToLower | app/server.go:63 | same length, no upper-case letter left, upper-case letters mapped to their lower-case form, every other character unchanged |
| Text.NatToDecimal | app/server.go:94 | %d of a natural: non-empty, decimal digits only, no leading zero |
| Text.DecimalRoundTrip | app/server.go:94 | reading the digits back gives the number |
| Text.Join | app/server.go:72 | strings.Join; its contract is carried by Text.JoinSplit, Text.JoinAppend and Parser.BodyKeepsBlankLine |
| Text.IntToDecimal | app/server.go:94 | %d of an int: non-empty, a leading minus sign iff the number is negative, digits after it |
| Text.IntToDecimalRoundTrip | app/server.go:94 | the sign and digits %d writes denote the status code |
| Text.IntToDecimalChars | app/server.go:94 | the written code holds no space and no carriage return |
| Parser.SplitCharPieces | app/server.go:82 | splitting on a space gives one more token than there are spaces, and no token holds a space |
| Parser.ParseRequestLine | app/server.go:81-91 | a request line parses iff it holds at least two spaces (otherwise Go panics); the tokens hold no space |
| Parser.RequestLineOfTokens | app/server.go:81-91 | "verb path version", optionally followed by a space and anything, yields exactly those three tokens; extra tokens are ignored |
| Parser.RequestLineIsPrefix | app/server.go:81-91 | a parsed line starts with its three tokens joined by single spaces, followed by nothing or a space |
| Parser.HeaderField | app/server.go:61-65 | a header line yields an entry iff it holds a colon; the name is lower-case and trimmed, the value trimmed |
| Parser.HeaderFieldOf | app/server.go:61-64 | the entry of `name:value` is (lower(trim(name)), trim(value)) |
| Parser.HeaderFieldSpaced | app/server.go:61-64 | whitespace after the colon is dropped and the name is only lower-cased, so `Name: v` and `Name:v` agree |
| Parser.AddHeader | app/server.go:61-66 | one turn of the header loop; its contract is carried by Parser.HeadersOfSkipsColonless, Parser.HeadersOfLastWins and Parser.HeadersOfKeyPresent |
| Parser.HeadersOf | app/server.go:56-68 | every stored header name is lower-case and trimmed, every value trimmed |
| Parser.HeadersOfSkipsColonless | app/server.go:62 | a line without a colon adds nothing to the header map |
| Parser.HeadersOfKeySource | app/server.go:60-66 | every stored name comes from some header line that yields it |
| Parser.HeadersOfKeyPresent | app/server.go:60-66 | every name some header line yields is stored |
| Parser.HeadersOfLastWins | app/server.go:65 | a repeated header name keeps the value of its last line |
| Parser.ScanEnd | app/server.go:57-60 | the header scan stops at the first empty line after the request line, or at the end of the lines |
| Parser.RequestOf | app/server.go:46-79 | a buffer parses iff its first line holds two spaces; the headers of a parsed request are normalised |
| Parser.ParseRequest | app/server.go:46-79 | the header loop computes exactly the request `RequestOf` specifies |
| Parser.BodyKeepsBlankLine | app/server.go:70-72 | the body is CRLF plus the pieces after the empty line when there are any, and empty otherwise |
| Parser.RequestReconstructs | app/server.go:51-72 | the request line and header lines, the empty line's CRLF and the body rebuild the buffer |
| Parser.RequestOfFramed | app/server.go:46-79 | a request line, CRLF-free header lines, an empty line and any body parse to that line, those headers and CRLF + body |
| Parser.RequestOfUnframed | app/server.go:60-72 | without an empty line every following line is a header line and the body is empty |
| Serializer.StatusLine | app/server.go:94 | the status line; its contract is carried by Serializer.OkStatusLine, Pipeline.StatusTextHasTwoSpaces and Pipeline.StatusTextCrlfFree |
| Serializer.HeaderLine | app/server.go:98 | one `name: value` header line; its contract is carried by Serializer.HeaderBlockHasLine and Pipeline.HeaderTextsParseBack |
| Serializer.HeaderBlock | app/server.go:97-99 | the header lines in a given key order; its contract is carried by Serializer.KeyOrderSize and Serializer.HeaderBlockHasLine |
| Serializer.ResponseBytes | app/server.go:93-104 | the whole response for a given key order; its contract is carried by Serializer.ResponseBytesFrame, Serializer.WriteResponseToBytes and Pipeline.SerializedResponseParses |
| Serializer.WriteResponseToBytes | app/server.go:93-109 | the output is the status line, the header lines in some order that lists each key exactly once, the empty line and the body |
| Serializer.ResponseBytesFrame | app/server.go:94-104 | whatever the header order, the output starts with the status line and ends with CRLF and the body |
| Serializer.KeyOrderSize | app/server.go:97-99 | one header line is written per header |
| Serializer.HeaderBlockHasLine | app/server.go:97-99 | every header's `name: value` line occurs in the header block |
| Serializer.ResponseBytesNoHeaders | app/server.go:93-104 | with no headers the output is the status line, CRLF and the body |
| Serializer.ResponseBytesOneHeader | app/server.go:93-104 | with one header the output is the status line, that header's line, CRLF and the body, whatever the order |
| Serializer.OkStatusLine | app/server.go:94 | the status line of 200 OK is `HTTP/1.1 200 OK` and CRLF |
| Serializer.PlainTextOk | app/server.go:93-104 | 200 OK with `Content-Type: text/plain` and body "hi" serialises to exactly `HTTP/1.1 200 OK\r\n`, `Content-Type: text/plain\r\n`, `\r\n` and `hi` |
| Routing.Router.constructor | app/server.go:111-113 | a new router has no routes |
| Routing.Router.Register | app/server.go:116-119 | the key `path + verb` now maps to the handler, replacing any earlier one; requests with that path and verb get the handler's answer; every other key answers as before |
| Routing.RouteKey | app/server.go:117-123 | the routing key; its contract is carried by Routing.RouteKeySamePath, Routing.RouteKeySameVerb and Routing.RouteKeysCollide |
| Routing.NotFound | app/server.go:128-132 | the fixed 404 response; its contract is carried by Routing.HandleFallback and Pipeline.NotFoundBytes |
| Routing.Router.Handle | app/server.go:121-133 | the lookup; its contract is carried by Routing.HandleRegistered, Routing.HandleFallback and Routing.Router.Register |
| Routing.HandleRegistered | app/server.go:121-126 | a request whose key is registered gets its handler's response unchanged |
| Routing.HandleFallback | app/server.go:127-132 | a request whose key is not registered gets 404 "Not Found", `Content-Type: text/plain` and body "404 - Not Found" |
| Routing.RouteKeySamePath | app/server.go:117-123 | on one path, two verbs share a key iff they are equal |
| Routing.RouteKeySameVerb | app/server.go:117-123 | for one verb, two paths share a key iff they are equal |
| Routing.OtherVerbNotFound | app/server.go:121-132 | a registered path with another verb gets 404, not "method not allowed" |
| Routing.OtherPathNotFound | app/server.go:121-132 | a registered verb on another path gets 404 |
| Routing.RouteKeysCollide | app/server.go:116-125 | keys are bare concatenations: the handler for "/a" and GET also answers path "/aG" with verb "ET" |
| Pipeline.HeadIsJoin | app/server.go:94-102 | the status line and header block are the head lines joined with CRLF, plus one CRLF |
| Pipeline.StatusTextHasTwoSpaces | app/server.go:94 | a status line always holds at least two spaces |
| Pipeline.StatusTextCrlfFree | app/server.go:94 | the status line holds no CRLF of its own when its text holds none |
| Pipeline.HeaderTextsWellFormed | app/server.go:97-99 | header lines are non-empty, and CRLF-free when their names and values are |
| Pipeline.HeadLinesWellFormed | app/server.go:93-99 | the lines of a serialised head hold no CRLF, and no header line is empty |
| Pipeline.HeaderTextsParseBack | app/server.go:60-66 | header lines written from lower-case, trimmed, colon-free names and trimmed values parse back to the same entries |
| Pipeline.SerializedResponseParses | app/server.go:46-109 | the request parser reads a serialised response: the status line as a request line, the header lines as headers, and the body with the empty line's CRLF in front |
| Pipeline.SerializedHeadersParseBack | app/server.go:46-109 | with normalised headers, the parsed header map of a serialised response equals the response's header map |
| Pipeline.HostHeaderSpellings | app/server.go:61-64 | `Host:  example.com`, `host: example.com` and `HOST:example.com` give the same entry ("host", "example.com") |
| Pipeline.GetLine | app/server.go:81-91 | `GET <path> HTTP/1.1` parses back to its three tokens |
| Pipeline.MissingRouteScenario | app/server.go:121-132 | `GET <path> HTTP/1.1` and an empty line, with only "/" registered for GET, parse to no headers and body CRLF, and the router answers 404 |
| Pipeline.HostRequestScenario | app/server.go:46-79 | `GET <path> HTTP/1.1`, `Host: <h>` and an empty line parse to the single header host = h and the body CRLF |
| Pipeline.RootRouteScenario | app/server.go:121-126 | with "/" registered for GET, `GET / HTTP/1.1` with a Host header goes to that handler |
| Pipeline.NotFoundStatusLine | app/server.go:129 | the 404 status line is `HTTP/1.1 404 Not Found` and CRLF |
| Pipeline.NotFoundBytes | app/server.go:128-132 | the 404 response serialises to exactly the status line, `Content-Type: text/plain`, an empty line and "404 - Not Found" |

## Left out

- `main` and the connection handling are not part of this model. That covers listening on TCP port 4221, the accept loop that serves one connection after another (`app/server.go:161-180`), reading into a single 2048-byte buffer and writing the reply. These are network I/O. The model takes the received buffer as a string and returns the bytes to write as a string.
- `main` ignores the byte count of the read (`app/server.go:169`) and parses the whole zero-padded 2048-byte buffer (`app/server.go:175`). In the running server the last CRLF piece is therefore never `""`: `GET / HTTP/1.1\r\n\r\n` gets the body CRLF followed by the NUL padding. The model parses exactly the received text, without the padding.
- The example root handler registered in `main` is not part of this model. It reads `index.html` and answers 200 with `Content-Type: text/html` and `Content-Length`, or 500 when the read fails. That is file I/O; handlers are modelled as arbitrary total functions from request to response.
- The `fmt.Printf` logging of each request and response is left out. It is console output and has no effect on results.
- The `[]byte` and `string` conversions at lines 47 and 108 are left out. They are the identity on the bytes, so the model works on strings throughout.
- Text.TrimSpace: covers ASCII whitespace only (space, tab, LF, VT, FF, CR). Go's `strings.TrimSpace` also trims Unicode spaces such as U+0085 and U+00A0.
- Text.ToLower: lowers only `A`-`Z`. Go's `strings.ToLower` also maps other Unicode letters.
- Text.IntToDecimal: the status code is an unbounded integer rather than Go's 64-bit `int`. No code near the 64-bit limits is written by this server.
- Routing.Router.Handle: a handler may not panic or loop. Handlers are total functions here, so a handler that panics is not modelled.
- A Go panic in `parseRequestLine` is not recovered, so it ends the whole server process. It is represented only as the `None` result of `ParseRequestLine` and `RequestOf`; what happens after the panic is not modelled.
- Serializer.WriteResponseToBytes: the order of the headers is only constrained to list each key once. Go's iteration order is deliberately unspecified, so no fixed order is modelled.
