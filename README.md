# CrustyHTTP request/response pipeline in Dafny

CrustyHTTP is a tiny HTTP/1.1 server. This project models the pipeline that turns the bytes of one read into the bytes written back, and proves what that pipeline does. The pipeline runs in four stages:

- **Parsing.** `HttpRequest::from_buffer` splits the text into lines. It cuts the request line into method, path and version, then reads header lines up to the first empty line. Each header line is split at its first `:` and both halves are trimmed.
- **Handling.** `RequestHandler::handle` drops one leading `/` from the path. It compares the result with the first route only, since its loop always leaves after one iteration. On a match it returns the serialised default 200 response, which `Route::process_request` passes through unchanged; otherwise it returns `None`.
- **Serialising.** `HttpResponse::new` seeds the header map with `Content-Type: text/html` and `Content-Length: <body length>`. `add_header` overwrites one key. `to_string` writes these pieces in order:
  - the status line, whose reason phrase is always `OK`;
  - one line per map entry;
  - a second `Content-Length` line;
  - an empty line;
  - the body.
- **Dispatching.** `Server::listen` writes the handler's answer back. When there is none, it writes a 404 response with the body `<body><h1>Wrong!</h1></body>`.

The project has five modules:

- `Results` holds `Option` and `Result`.
- `Text` holds the pieces of Rust's `str` the code relies on. `trim`, `splitn(2, ..)` and the decimal formatting of integers each come with a lemma that characterises them uniquely. `lines` and `split_whitespace` come with round-trip lemmas on text joined by CR LF or by single spaces. `len`, a UTF-8 byte count, is bounded and equals the character count on ASCII text.
- `HttpRequests` holds the parser. `FromBuffer` and its header loop `ReadHeaders` are methods, proved to compute the function `ParseRequest`. The lemmas say what `ParseRequest` means.
- `HttpResponses` holds the response. It is a class with `add_header` as a state-changing method and `to_string` as a function of its fields. The pure `Serialize` says what those fields serialise to.
- `Routing` holds the handler method `Handle` and a `Server` class whose `Dispatch` method gives the bytes written for one read. Both are proved to compute the functions `Respond` and `Reply`.

`HttpRequest::new` only stores its arguments, so it is the datatype constructor `HttpRequests.HttpRequest`.

Rust's `HashMap` has no iteration order. The order in which `to_string` visits the header map is therefore a parameter, `order`, which may be any list of the map's keys with each key once (`IsOrderOf`). Every serialisation property holds for every such order.

The line endings follow the current Rust standard library:

- `lines` splits at LF and drops one CR just before an LF;
- a final line ending is optional;
- a lone CR at the very end of the text stays in the last line.

Whitespace in `split_whitespace` and `trim` is the Unicode White_Space property, the set `char::is_whitespace` uses.

The default 200 body `<body><h1>Good bye, Browser!</h1></body>` (`src/server/mod.rs:118`) is 40 bytes long, and the 404 body `<body><h1>Wrong!</h1></body>` (`src/server/mod.rs:184`) is 28 bytes long; `BodyLengths`, `TestScenario` and `MissingScenario` prove these counts.

## Model

| member | source | states |
|---|---|---|
| `Text.Lines` | src/server/mod.rs:69 | `str::lines` yields no lines exactly when the text is empty |
| `Text.LinesUnlines` | src/server/mod.rs:69 | `lines` gives back every line of a text whose lines, holding no LF, each end with CR LF |
| `Text.LinesAppend` | src/server/mod.rs:69 | the lines of a text whose first part ends with an LF are the first part's lines followed by the rest's |
| `Text.Words` | src/server/mod.rs:72 | `split_whitespace` yields only non-empty runs without whitespace |
| `Text.Trim` | src/server/mod.rs:83-92 | `trim` never lengthens its input, and its result neither starts nor ends with whitespace |
| `Text.WordsUnwords` | src/server/mod.rs:72-75 | `split_whitespace` of words joined by single spaces gives back exactly those words |
| `Text.TrimSpec` | src/server/mod.rs:83-92 | `trim` returns the infix between a whitespace-only prefix and a whitespace-only suffix; with the ends `Trim` guarantees, this determines the result |
| `Text.SplitOnce` | src/server/mod.rs:82 | `splitn(2, ":")` yields one or two parts, and only one exactly when there is no `:` |
| `Text.SplitOnceJoin` | src/server/mod.rs:82 | the first part holds no `:`, and the parts joined with the `:` give back the line |
| `Text.Decimal` | src/server/mod.rs:35-38 | the decimal `Display` of an unsigned integer is a non-empty digit string that starts with `0` only for zero |
| `Text.DecimalValue` | src/server/mod.rs:16 | the decimal digits the integer formatting writes read back to the number |
| `Text.DecimalInjective` | src/server/mod.rs:35-38 | different numbers format to different digit strings |
| `Text.Utf8Length` | src/server/mod.rs:38 | `len` is a byte count between one and four bytes per character |
| `Text.AsciiLength` | src/server/mod.rs:16 | on ASCII text `len` is the character count |
| `HttpRequests.Message` | src/server/mod.rs:71-90 | each error string names the missing piece and ends with ` is missing` |
| `HttpRequests.MessageInjective` | src/server/mod.rs:71-90 | different errors have different strings |
| `HttpRequests.ParseHeaderLine` | src/server/mod.rs:82-92 | a header line parses exactly when it holds a `:`, and otherwise fails with "Header value is missing" |
| `HttpRequests.HeaderLineSplit` | src/server/mod.rs:82-92 | the key is the trimmed text before the first `:`, and the value is the trimmed text after it, further `:` included |
| `HttpRequests.FromBuffer` | src/server/mod.rs:67-103 | the parser, with its early returns and its header loop, computes `ParseRequest` |
| `HttpRequests.ReadHeaders` | src/server/mod.rs:77-94 | the header loop stops at the first empty line or fails on the first line without `:`, and builds the map of the lines before that empty line |
| `HttpRequests.RequestLineMissingIffEmpty` | src/server/mod.rs:69-71 | "Request line is missing" is returned exactly for the empty text |
| `HttpRequests.MissingTokenErrors` | src/server/mod.rs:72-75 | with 0, 1 or 2 tokens on the request line, exactly "Method is missing", "Path is missing" or "HTTP version is missing" is returned |
| `HttpRequests.ParseSucceeds` | src/server/mod.rs:71-102 | a parse succeeds exactly when there is a request line of at least three tokens and every header line before the first empty line has a `:`; method, path and version are then the first three tokens |
| `HttpRequests.ExtraTokensIgnored` | src/server/mod.rs:72-75 | request lines whose first three tokens agree parse alike, whatever tokens follow |
| `HttpRequests.HeaderValueMissingIff` | src/server/mod.rs:88-92 | once the request line is complete, "Header value is missing" is returned exactly when some header line before the first empty line has no `:` |
| `HttpRequests.NeverHeaderKeyMissing` | src/server/mod.rs:83-87 | "Header key is missing" is never returned |
| `HttpRequests.ParsedHeaders` | src/server/mod.rs:77-94 | on success the map's keys are the trimmed keys of the header lines, and each key holds the value of the last line carrying it |
| `HttpRequests.AssignLastWins` | src/server/mod.rs:93 | inserting pairs one after another builds a map holding exactly their keys, each with its last value |
| `HttpRequests.FieldsOfAt` | src/server/mod.rs:82-93 | the j-th inserted pair is the key and value of the j-th header line |
| `HttpRequests.StopsAtBlankLine` | src/server/mod.rs:78-81 | after an empty line, ended by LF or CR LF, nothing that follows changes the parse or causes an error |
| `HttpRequests.ParseLinesIgnoresRest` | src/server/mod.rs:78-81 | the lines after the first empty header line do not count |
| `HttpRequests.HeaderBlockIgnoresRest` | src/server/mod.rs:79-80 | the header block ends at the first empty line |
| `HttpResponses.SeededHeaders` | src/server/mod.rs:14-16 | the seeded map has exactly the keys `Content-Type` and `Content-Length`, with values `text/html` and the body's byte length in decimal |
| `HttpResponses.HttpResponse.constructor` | src/server/mod.rs:13-22 | status and body are stored unchanged and the headers are exactly the seeded two |
| `HttpResponses.HttpResponse.AddHeader` | src/server/mod.rs:24-26 | the key now maps to the value, every other header is unchanged, and so are status and body |
| `HttpResponses.HttpResponse.ToString` | src/server/mod.rs:28-41 | the text starts with `HTTP/1.1 <status> OK` and CR LF for any status, holds the header lines next, and ends with the extra `Content-Length` line, the empty line and the body |
| `HttpResponses.Fields` | src/server/mod.rs:29-33 | one `key: value` line per key, in the iteration order |
| `HttpResponses.Serialize` | src/server/mod.rs:28-41 | the serialised text is the status line `HTTP/1.1 <status> OK` with CR LF for any status, then the header lines, then the trailer, in that order, and it ends with the body |
| `HttpResponses.OrderLength` | src/server/mod.rs:29-31 | an iteration order visits as many keys as the map holds |
| `HttpResponses.FieldsCoverHeaders` | src/server/mod.rs:29-33 | there is one header line per map entry and a line for every entry, whatever the order |
| `HttpResponses.SerializeUnlines` | src/server/mod.rs:34-40 | the serialised text is its head lines, each ended by CR LF, followed by the body |
| `HttpResponses.SerializedLines` | src/server/mod.rs:28-41 | read back with `lines`, the response gives the status line, one line per header, the extra `Content-Length` line, an empty line, then the body's lines |
| `HttpResponses.ContentLengthTwice` | src/server/mod.rs:13-41 | a fresh response carries the `Content-Length` line twice, once from the map and once from `to_string` |
| `Routing.ProcessRequest` | src/server/mod.rs:135-138 | the response given is handed back unchanged |
| `Routing.StripSlash` | src/server/mod.rs:113-115 | at most one `/` is removed, only from the front, and exactly when the path starts with `/` |
| `Routing.StripSlashRemovesOne` | src/server/mod.rs:113-115 | stripping undoes putting one `/` in front of a path |
| `Routing.Handle` | src/server/mod.rs:109-126 | the handler computes `Respond` |
| `Routing.Server.constructor` | src/server/mod.rs:147-153 | a new server has no routes |
| `Routing.Server.AddRoutes` | src/server/mod.rs:159-162 | the given routes are appended to the server's routes |
| `Routing.Server.Dispatch` | src/server/mod.rs:176-197 | the bytes written for one read are `Reply`: the handler's response, or the serialised 404 response |
| `Routing.NoRoutesNoResponse` | src/server/mod.rs:116-125 | with no routes there is never a response |
| `Routing.ParseFailureNoResponse` | src/server/mod.rs:110 | a request that does not parse gets no response |
| `Routing.OnlyFirstRoute` | src/server/mod.rs:116-124 | routes after the first never change the outcome |
| `Routing.RespondIff` | src/server/mod.rs:109-126 | there is a response exactly when the request parses, there is a route and the first route's path is the request path without one leading `/`; it is the serialised 200 response with the `Good bye` body |
| `Routing.ReplyStatus` | src/server/mod.rs:176-197 | the bytes written start with `HTTP/1.1 200 OK` and end with the `Good bye` body when there is a response, and otherwise start with `HTTP/1.1 404 OK` and end with the `Wrong!` body |
| `Routing.GetReply` | src/server/mod.rs:109-197 | a `GET` request with a `Host` header gets the 200 response when the first route names its path, and the 404 response otherwise |
| `Routing.MatchedRoute` | src/server/mod.rs:113-121 | a request for `/name` with the route `name` first gets the 200 response |
| `Routing.TestScenario` | src/server/mod.rs:116-121 | `GET /test` against the one route `test` gets the 200 response, announcing 40 bytes |
| `Routing.MissingScenario` | src/server/mod.rs:183-189 | `GET /missing` against the route `test` gets the 404 response, announcing 28 bytes |
| `Routing.BodyLengths` | src/server/mod.rs:16 | the two fixed bodies are 40 and 28 bytes long |

## Left out

- Socket handling in `Server::listen` (`src/server/mod.rs:164-207`) is left out. Binding, accepting, spawning a task per connection, the read loop and its `Ok(0)`/error returns, and the write errors are asynchronous I/O. Only the choice of bytes to write for one read (lines 176-197) is modelled, as `Server.Dispatch`.
- Reads are not modelled as 1024-byte chunks. The text handed to the handler is any string, and whether one read holds one whole request depends on I/O timing.
- `String::from_utf8_lossy` is left out (`src/server/mod.rs:68`). The request arrives as an already decoded string, so invalid UTF-8 is not replaced.
- The `println!`/`eprintln!` diagnostics are logging with no effect on the result.
- `Server::new`'s address formatting and `Server::address` are left out. They only format `ip:port` for the socket code; the `Server` constructor models the empty route list alone. `src/main.rs` is not part of this model.
- The concrete iteration order of `HashMap` is not fixed. It is the parameter `order`, and the properties hold for every order.
- The `clone` calls on requests and routes are not modelled, because they do not change any value.
- The error strings are modelled as the datatype `ParseError`, and `Message` maps each constructor to the string the code returns.
- `Server::routes` takes the server by value and returns it. `Server.AddRoutes` models this as an update in place of the same object.

