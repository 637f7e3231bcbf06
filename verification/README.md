# A minimal HTTP/1.1 server, modelled in Dafny

The server accepts a TCP connection and reads it once, into a 1024-byte buffer.
It parses the bytes into a request made of:

- the method, path and version from the request line;
- a header map;
- a body.

It then dispatches on the method and a path prefix to one of a few handlers:

- `/echo/<s>`, which echoes `<s>`;
- `/user-agent`, which reflects the `User-Agent` header;
- a read or a write under `/files/`;
- the root `/`.

Finally it writes back the status line, the header lines, a blank line and the body.

The model follows `app/server.go` function by function. Each module is one layer:

| module | what it models |
|---|---|
| `Bytes` | Go's `bytes.Split`/`strings.Split` and `strings.Fields` on byte strings, with the lemmas that make splitting and joining inverse. |
| `DecimalFormat` | The `%d` rendering of a length. It is canonical and reads back as the same number. |
| `Http` | The request and response records, and the framing constants. |
| `Parser` | `parseMyRequest` as a specification function, `ParsedRequest` (`app/server.go:163-198`), and as the loop it is, `ParseRequest`. `FieldOf` is the split of one header line (`app/server.go:192-193`), and `InsertFields` is the fold of the header loop (`app/server.go:187-194`). Index-out-of-range panics become a `ParseError`. |
| `Router` | `handleGetRequest`, `handlePostRequest` and the method switch of `handleConnection`. These are pure functions of the request, the storage root, a snapshot of the files and whether a write succeeds. |
| `Serializer` | `writeResponse` as one output buffer that is appended to, specified by `Wire` (`app/server.go:38-64`). The header iteration order is a parameter, because Go's map order is unspecified. |
| `Connection` | One whole connection (read, parse, route, write). It also covers the short-read behaviour and the round trip from writer to parser. |

Bytes are `seq<byte>`, where `byte` is the subset of `char` below 256, so Go string literals read as Dafny string literals.

Four behaviours of `app/server.go` are easy to misread; the model follows the code:

- **Body.** The body is the piece between the first and the second blank line (`data[1]` of a split on every `\r\n\r\n`). It is not everything after the first one.
- **Header values.** A header line is split on every `": "`, and the value is the second piece only. The line `A: b: c` gives `A` the value `b`.
- **Unset status.** `GET /user-agent…` without a `User-Agent` header returns a response with an empty status and no headers. It does not return a 404.
- **Read and write paths differ.** `GET /files/<name>` reads `root + name`, but `POST /files/<name>` writes `root + "/" + name`. In the model the files are a map keyed by these byte strings. So a stored body is served back by `GET /files//<name>`. For a root that does not end in `/` and a name that does not start with `/`, `GET /files/<name>` reads a different key of the file map and is unaffected by the POST (`Router.PostThenGet`).

## Model

| member | source | states |
|---|---|---|
| Bytes.Split | app/server.go:175 | `bytes.Split` on every leftmost non-overlapping separator; there is always at least one piece |
| Bytes.JoinSplit | app/server.go:175 | joining the pieces of a split with the separator gives back the input |
| Bytes.SplitPiecesFree | app/server.go:178 | no piece of a split contains the separator |
| Bytes.SplitCount | app/server.go:184 | a split has a second piece exactly when the separator occurs |
| Bytes.SplitFree | app/server.go:175 | a byte string without the separator splits into itself alone |
| Bytes.SplitFirst | app/server.go:175 | the piece before the first separator is the first piece; the rest splits on its own |
| Bytes.SplitJoin | app/server.go:178 | pieces that lack the separator's first byte are recovered by splitting their join |
| Bytes.Fields | app/server.go:179 | `strings.Fields`: each field is a non-empty run without white space |
| Bytes.FieldsAroundSpace | app/server.go:179 | a white-space byte separates the fields on its two sides |
| Bytes.FieldsOfToken | app/server.go:179 | a single token is its own only field |
| Bytes.FieldsOfJoin | app/server.go:179 | tokens joined by spaces come back as the same tokens |
| DecimalFormat.Decimal | app/server.go:77 | `%d` of a length is a canonical digit string: non-empty, digits only, no leading zero |
| DecimalFormat.DecimalValue | app/server.go:77 | the rendered digits read back as the number rendered |
| DecimalFormat.DecimalOfValue | app/server.go:94 | every canonical digit string is the rendering of its value |
| DecimalFormat.DecimalInjective | app/server.go:102 | different lengths render differently |
| Parser.ParseRequest | app/server.go:163-198 | the parsing loop computes exactly `ParsedRequest`: fail on a short request line, then on a missing blank line, then on a header line without `": "`, else tokens 0–2, the folded header map and piece 1 as the body |
| Parser.FieldOfPresent | app/server.go:192-193 | a header line gives a name and value exactly when it contains `": "` |
| Parser.FieldOfLine | app/server.go:192-193 | a line `name: value` with no `:` in the name gives that name, and as value only the text up to the next `": "` |
| Parser.InsertFieldsConcat | app/server.go:187-194 | inserting two runs of lines is inserting the first, then the second into the result |
| Parser.InsertFieldsFails | app/server.go:192-193 | insertion fails, with `MissingFieldSeparator`, exactly when some line lacks `": "` |
| Parser.LastWriteWins | app/server.go:187-194 | every line's name is a key; a name's value is the one on its last line; no other keys appear and keys already present that no line names keep their values |
| Parser.HeaderBlockEnd | app/server.go:175 | a header block with no CR inside its lines has no blank line before its end |
| Parser.ParsedFromBlock | app/server.go:175-194 | with a header block as piece 0 and `body` as piece 1, parsing succeeds exactly when the request line has three tokens and every header line has a field, and gives those tokens, those fields and `body` |
| Parser.ParseFramed | app/server.go:175-194 | a header block, the blank line and a body without a blank line parse into that request line, those fields and exactly that body |
| Parser.BodyStopsAtNextBlankLine | app/server.go:184 | whatever follows a second blank line is dropped from the body |
| Parser.ParseFailures | app/server.go:179-193 | each of the three errors happens exactly when its cause is the first the parser meets |
| Parser.HeaderLines | app/server.go:178 | the header block splits into at least one line |
| Router.PlainText | app/server.go:99-108 | the text response carries a `Content-Length` equal to the body's length |
| Router.OctetStream | app/server.go:91-95 | the byte-stream response carries a `Content-Length` equal to the body's length |
| Router.HandleGet | app/server.go:66-115 | echoes the version; the status is 200, 404 or unset; headers appear exactly on a 200; a 404 is bare; `Content-Length` matches the body |
| Router.HandlePost | app/server.go:117-141 | echoes the version; 404 exactly when a `/files/` write fails, else 201 with the request body; the files change exactly by the write to root + "/" + name |
| Router.Route | app/server.go:150-157 | GET and POST echo the version, any other method gets `HTTP/1.1`; only POST changes the files; a 404 is bare |
| Router.ContentLengthIsBodyLength | app/server.go:77 | a response has headers exactly when it has a `Content-Length`, and that header reads back as the body's length |
| Router.EchoRoute | app/server.go:98-103 | `GET /echo/<s>` answers 200 with body `<s>` as plain text |
| Router.UserAgentRoute | app/server.go:71-80 | a `/user-agent` path reflects the `User-Agent` value, or leaves the response unset when the header is missing |
| Router.FilesGetRoute | app/server.go:81-97 | `GET /files/<name>` serves the bytes at root + name, or a bare 404 |
| Router.RootRoute | app/server.go:104-109 | `GET /` answers the whole plain-text 200 response: empty body, `Content-Type: text/plain` and `Content-Length: 0`, files unchanged |
| Router.UnmatchedGetRoute | app/server.go:110-113 | a GET path no route claims answers a bare 404 |
| Router.FilesPostRoute | app/server.go:122-137 | `POST /files/<name>` stores the body at root + "/" + name and answers 201, or answers a bare 404 and stores nothing |
| Router.OtherPostRoute | app/server.go:133-137 | a POST elsewhere answers 201 with the body echoed and stores nothing |
| Router.OtherMethodRoute | app/server.go:155-156 | any other method answers a bare 404 with version `HTTP/1.1` |
| Router.PostThenGet | app/server.go:83-125 | after a stored POST, `GET /files//<name>` serves the stored body, and, for a root not ending in `/` and a name not starting with `/`, `GET /files/<name>` (a different key of the file map) answers as before the POST |
| Serializer.FieldLines | app/server.go:45-51 | one header line per key in the iteration order |
| Serializer.WriteResponse | app/server.go:38-64 | the appended output is exactly the status line, CRLF, one `name: value` CRLF line per key in iteration order, CRLF and the body |
| Serializer.HeaderBytesAreJoinedLines | app/server.go:39-53 | the status line and header lines, each followed by CRLF, are the lines joined by CRLF plus a final CRLF |
| Serializer.WireLayout | app/server.go:38-64 | the output is the status and header lines joined by CRLF, then the blank line, then the body |
| Serializer.HeaderBytesAppend | app/server.go:45-51 | the header bytes for two runs of keys are the bytes of each run, concatenated |
| Serializer.HeaderBytesLengthPermutation | app/server.go:45-51 | any two orders of the same keys give header bytes of the same length |
| Serializer.EnumerationMultiset | app/server.go:45 | an iteration order holds each key exactly once |
| Serializer.WireLengthIndependentOfOrder | app/server.go:45-51 | the output has the same length whatever order the map is iterated in |
| Connection.MapOrder | app/server.go:45 | chooses some iteration order that lists every header key exactly once |
| Connection.HandleConnection | app/server.go:143-161 | one read of at most 1024 bytes; a parse failure writes nothing and leaves the files; otherwise the files are the handler's and the output is the routed response written in some iteration order |
| Connection.ShortRead | app/server.go:164-184 | a read that stops before the blank line fails to parse; one that stops in the body gives the same request with the body cut where the read ended |
| Connection.InsertFieldLines | app/server.go:45-51 | header lines written from a map with plain names and values parse back into the same entries |
| Connection.ResponseReparses | app/server.go:38-64 | a written response, parsed as a request, gives the status line's tokens, the response's own header map and its body |
| Connection.HandlerFieldsPlain | app/server.go:66-141 | every header a handler sets has a name and value without CR, and without `:` or `": "` respectively |
| Connection.HandlerStatusLine | app/server.go:39 | a one-token version and any status a handler sets give a status line of three or more tokens, the first being the version |
| Connection.HandlerResponseReparses | app/server.go:38-64 | a response with a handler's status, plain headers and no blank line in its body reparses into its version, headers and body |
| Connection.ServedResponseReparses | app/server.go:143-198 | every response the server sends with a status, to a one-token version and with a body without a blank line, reparses into its own header map and body |

## Left out

- The TCP listener, the accept loop and the goroutine per connection are not modelled. Each connection is modelled alone, so there is no concurrency.
- Startup is not modelled: the `-directory` flag parsing and the global `dir`. The storage root is a parameter.
- Read and write errors on the connection, and the `os.Exit` that follows them, are not modelled. The bytes read are a parameter `incoming` with a length `n`.
- Real file I/O is not modelled. The files are a map from path bytes to contents. A read succeeds exactly when the path is a key. A write is a map update, and whether it succeeds is a parameter.
- Permission bits (`0666`) and partially written files after a failed write are not modelled.
- Operating-system path semantics are not modelled. `os.PathSeparator` is `/`, and paths are compared as byte strings with no `//` collapsing and no `..` resolution.
- Router.PostThenGet: states only that `GET /files/<name>` reads a different key of the file map than the POST wrote, for a root not ending in `/` and a name not starting with `/`. On a real file system the two paths can still name one file, and the program then serves the stored body. Examples: a root ending in `/` (`/tmp/` writes `/tmp//a`, reads `/tmp/a`); a name starting with `/` (root `/tmp`, `POST /files//a` writes `/tmp//a`, and `GET /files//a` reads `/tmp/a`); an empty root when the working directory is `/`; and `..` components or symbolic links. The model compares paths as byte strings and does not capture any of these.
- Bytes.Fields: only ASCII white space splits fields. Go's `strings.Fields` also splits on Unicode white space (U+0085, U+00A0 and others) after decoding UTF-8.
- Serializer.WriteResponse: does not model `fmt.Sprintf` expanding `%` verbs in the status line. The version and status are passed as the format string, so a `%` in the request's version would be rewritten. The model writes the bytes unchanged.
- Router.HandleGet: the `/user-agent` handler scans the header map for the key `User-Agent` (`app/server.go:72-80`). This is modelled as a key lookup. The scan finds at most that one key, so the result is the same.
- The unused constants at `app/server.go:13-17` are not modelled.
- Connection.ServedResponseReparses: requires a set status, a one-token version and a body without a blank line. Outside those conditions the written response does not reparse into itself. The unset `/user-agent` response writes the status line `version + " "`, which has one token, so it fails with `TooFewRequestLineTokens`. A version with spaces shifts the tokens, and a blank line in the body cuts it short. The one-token version always holds for a request the parser produced, because its version is a `Fields` token.
