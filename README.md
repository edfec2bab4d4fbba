# Proyecto Telematica HTTP servers in Dafny

This project models the request handling of the three small HTTP servers in the
Proyecto_Telematica repository. Each server is modelled as it is written, and their
differences are kept.

- **The class-based server** (`webserver/src/`):
  - `HTTPRequest::parse` reads the request line, the headers up to a line that is exactly
    `"\r"`, and, for POST and PUT only, a body.
  - `HTTPResponse` keeps its headers in a `std::map`. Its `to_string` writes the status line,
    the headers in key order, a blank line and the body.
  - `HTTPServer` normalises its document root. It answers GET, HEAD and POST. A GET whose file
    path contains `../` is refused with 403. Each request is logged as one line.
- **The `src/server.cpp` server**:
  - `sendResponse` writes a fixed header block: `Server`, `Content-Length`, `Content-Type` and
    `Connection`.
  - `serveFile` answers 404 for a missing path or a directory.
  - `getMimeType` looks at the last dot of the full path, dot included.
  - `handleClient` needs at least two words in the request.
- **The minimal `webserver/server.cpp` server**:
  - `handleClient` builds its reply by appending to a string, and returns early for 400 and 404.
  - `getMimeType` tests the path's suffix.

The project has these files:

- `text.dfy` (module `Text`) holds the C and C++ string primitives the servers use:
  - `isspace`;
  - word extraction with `>>`;
  - `getline` lines;
  - `remove_if` of whitespace;
  - `find` and `rfind`;
  - `to_string` and reading decimals back;
  - the string a NUL-terminated buffer gives.
- `files.dfy` (module `Files`) is the file system: a map from path to an entry. An entry
  records whether `stat` reports a directory and, separately, the bytes opening it yields.
  The bytes are absent when opening fails.
- `http_request.dfy` (module `HttpRequest`) has the `Parse` method, with its header and body
  loops. It is proved equal to the specification function `Parsed`, and lemmas about
  `Parsed` state what the parser does.
- `http_response.dfy` (module `HttpResponse`) has:
  - the class `Response`, whose headers are a strictly sorted header sequence (the traversal
    order of `std::map`);
  - `Serialize`;
  - an independent reader, `ParseResponse`, used as the partner of every serializer in the
    project. A well-formed message reads back as itself, and `Content-Length` reads back as
    the body size.
- `http_server.dfy` (module `HttpServer`) has the class `Server`: the constructor, logging, and
  `handle_client` as the methods `Respond` and `HandleClient`. These are proved against the
  reply function `Reply`.
- `telematica_server.dfy` (module `TelematicaServer`) models `src/server.cpp` as pure
  functions. Each returns the bytes sent and the log messages.
- `simple_server.dfy` (module `SimpleServer`) models `webserver/server.cpp`. `handleClient` is
  an imperative method that appends to strings. `logRequest` opens the log file on each call
  and writes nothing when that fails.

The effects outside the program are parameters:

- the bytes read from the socket;
- the file system;
- the time stamp;
- whether the log file opens.

## Model

| member | source | states |
|---|---|---|
| Text.Words | webserver/src/http_request.cpp:19-20 | the words `>>` extracts are non-empty and hold no whitespace |
| Text.WordsUnwords | webserver/src/http_request.cpp:19-20 | words joined by single spaces, then whitespace or the end, are extracted again as the same words |
| Text.RemoveSpace | webserver/src/http_request.cpp:33-34 | erasing every `isspace` character leaves no whitespace and never lengthens the text |
| Text.RemoveSpaceKeepsOthers | webserver/src/http_request.cpp:33-34 | every character that is not whitespace is kept, as many times as it occurs |
| Text.RemoveSpaceOfSpace | webserver/src/http_request.cpp:33-34 | a text of whitespace alone is erased to nothing |
| Text.RemoveSpaceIdempotent | webserver/src/http_request.cpp:33-34 | erasing whitespace twice is the same as once |
| Text.RemoveSpaceAppend | webserver/src/http_request.cpp:33-34 | erasing whitespace works piece by piece across a concatenation |
| Text.IndexOf | webserver/src/http_request.cpp:26 | `find` gives the first occurrence, or the length when there is none |
| Text.LastIndexOf | src/server.cpp:50 | `rfind` gives the last occurrence, or nothing when the character is absent |
| Text.Lines | webserver/src/http_request.cpp:13-24 | the lines `getline` yields hold no newline |
| Text.NextLine | webserver/src/http_request.cpp:24 | one `getline` from a position: it fails only at the end, and otherwise yields the first remaining line and moves past its newline |
| Text.LinesUnlines | webserver/src/http_request.cpp:13-24 | newline-free lines, each followed by a newline, are read back as the same lines |
| Text.UnlinesLines | webserver/src/http_request.cpp:13-24 | writing the lines back gives the input, with a final newline added when it had none |
| Text.NatToString | webserver/src/http_response.cpp:21 | `to_string` of a size is a non-empty string of digits, without a leading zero unless the size is 0 |
| Text.ParseNatToString | webserver/src/http_response.cpp:21 | a rendered size reads back as the same number |
| Text.ParseIntToString | webserver/src/http_response.cpp:29 | a rendered status code, negative ones included, reads back as the same number |
| Text.NatToStringInjective | webserver/src/http_response.cpp:21 | different sizes are rendered differently |
| Text.CString | webserver/server.cpp:42-44 | the string a zeroed buffer gives is the bytes read up to the first NUL, and holds no NUL |
| HttpRequest.Parse | webserver/src/http_request.cpp:11-49 | the request parse builds is `Parsed(raw)`: request line words, header scan, POST/PUT body |
| HttpRequest.ReadHeaders | webserver/src/http_request.cpp:23-38 | the header loop's map and stopping point are those of the scan that stops at the first `"\r"` line |
| HttpRequest.ReadBody | webserver/src/http_request.cpp:40-48 | the body loop gives all remaining lines concatenated, their newlines dropped |
| HttpRequest.EmptyRequest | webserver/src/http_request.cpp:17-21 | an empty request leaves every field empty |
| HttpRequest.RequestLineWords | webserver/src/http_request.cpp:17-21 | method, URI and version are the first three words of the first line, and missing words leave the fields empty |
| HttpRequest.SingleLineRequest | webserver/src/http_request.cpp:17-49 | a request with no newline is one line whose first three words are the method, URI and version, with no headers and an empty body |
| HttpRequest.RequestLineRoundTrip | webserver/src/http_request.cpp:17-21 | `M U V` followed by `\r` or by extra words gives back exactly M, U and V |
| HttpRequest.NoColonIgnored | webserver/src/http_request.cpp:26-27 | a header line without a colon leaves the map unchanged |
| HttpRequest.FirstColonSplits | webserver/src/http_request.cpp:26-36 | the key is the text before the first colon and the value is everything after it, later colons included, both without whitespace |
| HttpRequest.HeadersWhitespaceFree | webserver/src/http_request.cpp:33-34 | no parsed key or value contains whitespace |
| HttpRequest.ScanStopsAtCarriageReturn | webserver/src/http_request.cpp:24 | the header loop stops at the first line that is exactly `"\r"` and leaves the lines after it |
| HttpRequest.ScanRunsToEnd | webserver/src/http_request.cpp:24 | without a `"\r"` line, every line is read as a header and nothing is left |
| HttpRequest.EmptyLineDoesNotStop | webserver/src/http_request.cpp:24 | an empty line does not end the headers |
| HttpRequest.LastValueWins | webserver/src/http_request.cpp:36 | for a repeated key, the value of its last occurrence is kept |
| HttpRequest.HeadersThenBody | webserver/src/http_request.cpp:24-48 | headers come from the lines before the `"\r"` line, and for POST/PUT the body is the lines after it, concatenated |
| HttpRequest.HeadersWithoutEnd | webserver/src/http_request.cpp:24-48 | with no `"\r"` line the body is empty, even for POST |
| HttpRequest.BodyOnlyForPostOrPut | webserver/src/http_request.cpp:41 | a non-empty body implies the method is POST or PUT |
| HttpResponse.LessIrreflexive | webserver/src/http_response.hpp:23 | `std::string` `<`, the key order of the header map, is irreflexive |
| HttpResponse.LessTotal | webserver/src/http_response.hpp:23 | any two distinct names are ordered one way or the other |
| HttpResponse.LessTransitive | webserver/src/http_response.hpp:23 | the key order is transitive |
| HttpResponse.LessAsymmetric | webserver/src/http_response.hpp:23 | the key order is asymmetric |
| HttpResponse.LessAt | webserver/src/http_response.hpp:23 | names that agree up to a position are ordered by the first character where they differ |
| HttpResponse.ContentLengthBeforeContentType | webserver/src/http_response.cpp:32-35 | `Content-Length` is written before `Content-Type` |
| HttpResponse.Insert | webserver/src/http_response.cpp:15 | `headers_[name] = value` keeps the keys strictly sorted, updates the dictionary at `name`, and adds only the new pair |
| HttpResponse.LookupMapOf | webserver/src/http_response.cpp:32-35 | looking a name up in the ordered header sequence agrees with the dictionary |
| HttpResponse.InsertKeepsOthers | webserver/src/http_response.cpp:13-16 | setting one header leaves every other name's value unchanged |
| HttpResponse.InsertThenLookup | webserver/src/http_response.cpp:13-16 | after setting a header, looking it up gives the new value |
| HttpResponse.SerializeFrame | webserver/src/http_response.cpp:24-42 | the output starts with the status line and ends with a blank line and then the body |
| HttpResponse.HeaderLinesAppend | webserver/src/http_response.cpp:32-35 | one more header adds one more `name: value` line at the end |
| HttpResponse.StatusLineRoundTrip | webserver/src/http_response.cpp:29 | the status line reads back as the same code and message |
| HttpResponse.HeaderLineRoundTrip | webserver/src/http_response.cpp:34 | a header line whose name has no colon reads back as the same header |
| HttpResponse.HeadersRoundTrip | webserver/src/http_response.cpp:32-39 | the header lines and blank line read back as the same headers, in order, followed by the body |
| HttpResponse.SerializeRoundTrip | webserver/src/http_response.cpp:24-42 | a well-formed message reads back from its serialization unchanged |
| HttpResponse.WireContentLength | webserver/src/http_response.cpp:18-42 | when `Content-Length` matches the body, it reads back from the wire as the body size |
| HttpResponse.TypeThenLength | webserver/src/http_server.cpp:144-145 | setting `Content-Type` and then `Content-Length` on a new response gives exactly those two headers, length first |
| HttpResponse.Response.constructor | webserver/src/http_response.cpp:5 | a new response is 200 `OK` with no headers and an empty body |
| HttpResponse.Response.SetStatus | webserver/src/http_response.cpp:7-11 | only code and message change |
| HttpResponse.Response.SetHeader | webserver/src/http_response.cpp:13-16 | the map entry for `name` becomes `value`, everything else is kept, order is kept, and a matching `Content-Length` stays matching unless it is the header set |
| HttpResponse.Response.SetBody | webserver/src/http_response.cpp:18-22 | the body is replaced, `Content-Length` becomes its decimal size, and the other fields are kept |
| HttpResponse.Response.ToString | webserver/src/http_response.cpp:24-42 | the text written is the status line, one line per header in key order, a blank line and the body |
| HttpServer.NormalizeRoot | webserver/src/http_server.cpp:15-23 | the document root ends in `/`, begins with the given root, and grows by at most one character |
| HttpServer.NormalizeRootIdempotent | webserver/src/http_server.cpp:19-22 | normalising twice is normalising once |
| HttpServer.NormalizeRootKeeps | webserver/src/http_server.cpp:19-22 | a root already ending in `/` is kept as it is |
| HttpServer.Extension | webserver/src/http_server.cpp:199 | the extension is the dot-free text after the last dot, or the whole path when there is no dot |
| HttpServer.MimeType | webserver/src/http_server.cpp:198-211 | an extension in the table (html, htm, css, js, jpg, jpeg, png, gif, pdf, json) gets its type and any other, an empty one included, gets `text/plain`; the type holds no carriage return |
| HttpServer.TypeOfInTable | webserver/src/http_server.cpp:200-210 | the chain of comparisons on the extension gives the table's type, and `text/plain` for anything else |
| HttpServer.ExtensionAfterLastDot | webserver/src/http_server.cpp:199 | `stem.ext` has extension `ext` whatever dots the stem holds |
| HttpServer.BareNameIsExtension | webserver/src/http_server.cpp:198-211 | a dot-free path is its own extension and is typed by the table as one, `text/plain` when the table does not list it |
| HttpServer.TraversalForbidden | webserver/src/http_server.cpp:126-134 | a GET whose file path contains `../` is 403 with the fixed body, whatever the file system holds |
| HttpServer.RootWithTraversalForbidsAll | webserver/src/http_server.cpp:126-130 | a document root containing `../` makes every GET 403 |
| HttpServer.GetServesFile | webserver/src/http_server.cpp:137-146 | a readable file is 200 with `Content-Length` then `Content-Type` from the URI, and the file as body |
| HttpServer.GetMissingFile | webserver/src/http_server.cpp:147-151 | a file that does not open is 404 with the fixed body |
| HttpServer.HeadOnlyContentType | webserver/src/http_server.cpp:154-159 | HEAD is 200 with `Content-Type: text/html` alone, no `Content-Length` and an empty body |
| HttpServer.PostEchoesBody | webserver/src/http_server.cpp:160-165 | POST is 200 with the request body wrapped in fixed markup |
| HttpServer.OtherMethodsRejected | webserver/src/http_server.cpp:166-170 | any other method is 400 with the fixed body |
| HttpServer.ReplyWellFormed | webserver/src/http_server.cpp:118-173 | every reply reads back from its serialization unchanged |
| HttpServer.WireLengthUnlessHead | webserver/src/http_server.cpp:118-173 | for every method other than HEAD, the reply reads back unchanged from its serialization and its `Content-Length` reads back as the size of its body |
| HttpServer.Server.constructor | webserver/src/http_server.cpp:15-23 | port and log file are kept, the root is normalised, and the log starts empty |
| HttpServer.Server.LogRequest | webserver/src/http_server.cpp:183-196 | one line `[time] request - code` is appended when the log opens, and nothing otherwise |
| HttpServer.Server.Respond | webserver/src/http_server.cpp:120-170 | the response the setters build is exactly `Reply` for the parsed request |
| HttpServer.Server.HandleClient | webserver/src/http_server.cpp:113-181 | an empty read sends and logs nothing; otherwise it sends the serialized reply to the parsed request and logs method, URI and status |
| TelematicaServer.DotExtensionIsLastPart | src/server.cpp:50-52 | there is an extension exactly when the path has a dot; it starts at the last dot and holds no other |
| TelematicaServer.MimeType | src/server.cpp:49-62 | a dot extension in the table (.html, .htm, .jpg, .jpeg, .png, .css, .js, .json, .txt, .mp4) gets its type; no dot, or any other extension, gives `application/octet-stream`; the type holds no carriage return |
| TelematicaServer.TypeOfInTable | src/server.cpp:53-61 | the chain of comparisons on the dot extension gives the table's type, and `application/octet-stream` for anything else |
| TelematicaServer.ExtensionReachesIntoRoot | src/server.cpp:92-104 | for a path without a dot, the extension comes from the document root's last dot, so the lookup reaches into the root |
| TelematicaServer.HeadIsSerialization | src/server.cpp:64-72 | the header block is a status line and the four fixed headers in written order, then a blank line |
| TelematicaServer.FixedHeadersWellFormed | src/server.cpp:67-72 | the header block can be read back whenever the reason and content type hold no carriage return |
| TelematicaServer.FixedHeadersLength | src/server.cpp:69 | `Content-Length` is `bodyLen` |
| TelematicaServer.HeadReadsBack | src/server.cpp:64-72 | the header block followed by a body reads back as that status, the four fixed headers and that body |
| TelematicaServer.SendResponse | src/server.cpp:64-79 | with a reason and type free of carriage returns, what is sent reads back as the status, the four fixed headers and the body only when there is one of non-zero length, and the message logged names the status and reason read back |
| TelematicaServer.SendResponseReadsBack | src/server.cpp:64-79 | what is sent reads back as the four headers and the body that followed, with `Content-Length` equal to `bodyLen` even when no body follows |
| TelematicaServer.LogEntry | src/server.cpp:32-47 | a log line is the time, a space and the message: all of it when the message fits in 1023 characters, otherwise its first 1023 characters |
| TelematicaServer.NotFound | src/server.cpp:81-84 | the 404 page reads back with `Content-Type: text/html`, its length as `Content-Length` and the whole page as body, and the log names 404 |
| TelematicaServer.BadRequest | src/server.cpp:86-89 | the 400 page reads back with `Content-Type: text/html`, its length as `Content-Length` and the whole page as body, and the log names 400 |
| TelematicaServer.ServeFile | src/server.cpp:91-112 | the reply reads back and the log names its status, which is 200 exactly when the full path exists, is not a directory and opens, and 404 otherwise |
| TelematicaServer.HandleClient | src/server.cpp:114-142 | an empty read sends and logs nothing; any other read is answered with a reply that reads back with status 200, 400 or 404, and logs two lines, the second naming that status and reason |
| TelematicaServer.MissingIsNotFound | src/server.cpp:91-102 | a missing path, a directory or a file that does not open gives the 404 page, whose `Content-Length` is its length |
| TelematicaServer.GetSendsFile | src/server.cpp:103-110 | GET of a readable file is 200, typed by the full path, with the whole file announced by its length |
| TelematicaServer.HeadSendsSizeOnly | src/server.cpp:105-106 | HEAD announces the file's size and sends no body |
| TelematicaServer.TooFewWordsRejected | src/server.cpp:124-130 | a request of fewer than two words is 400 |
| TelematicaServer.UnknownMethodRejected | src/server.cpp:138-140 | a method other than GET, HEAD and POST is 400 |
| TelematicaServer.PostIgnoresRequest | src/server.cpp:135-137 | POST sends the same fixed page whatever the request holds |
| TelematicaServer.RootServesIndex | src/server.cpp:131-134 | for GET and HEAD the path `/` is served as `/index.html` |
| TelematicaServer.PathUsedAsSent | src/server.cpp:132-134 | any other path is served as sent, with no check for `..` |
| TelematicaServer.EmptyReadIsSilent | src/server.cpp:116-120 | an empty read sends nothing and logs nothing |
| TelematicaServer.TwoLogLines | src/server.cpp:114-142 | a non-empty read logs two lines: the request as received, then the status and reason of the reply sent |
| SimpleServer.MimeType | webserver/server.cpp:27-38 | the type is one of `text/html`, `image/jpeg`, `image/png`, `video/mp4` and `text/plain`, and holds no carriage return |
| SimpleServer.MimeTypeBySuffix | webserver/server.cpp:27-38 | a path ending in .html, .jpg, .jpeg, .png or .mp4 gets its type |
| SimpleServer.MimeTypeDefault | webserver/server.cpp:27-37 | a path ending in none of the table's suffixes is `text/plain` |
| SimpleServer.HtmIsPlainText | webserver/server.cpp:27-38 | a path ending in `.htm` is `text/plain` |
| SimpleServer.HandleClient | webserver/server.cpp:40-90 | the exact bytes sent and the log afterwards in each case: an unknown method (an empty one included) is 400 before any file lookup, a file that does not open is 404, and otherwise the header block is sent, followed by the file unless the method is HEAD; each case appends its one log line only when the log file opens; a success reads back as 200 with `Content-Length` equal to the file size and the whole file as body, or no body for HEAD |
| SimpleServer.LogRequest | webserver/server.cpp:21-25 | the lines already in the log are kept, and one line `[time] message` follows them exactly when the log file opens |
| SimpleServer.SuccessHeadIsSerialization | webserver/server.cpp:79-82 | the success header block is a 200 status line, `Content-Length`, `Content-Type` and a blank line |
| SimpleServer.SuccessReadsBack | webserver/server.cpp:79-86 | the success reply reads back with `Content-Length` equal to the file size |
| SimpleServer.HeadReadsBack | webserver/server.cpp:84-86 | the header block alone reads back as a message with an empty body that announces the file size |
| SimpleServer.EmptyReadRefused | webserver/server.cpp:42-54 | an empty read gives an empty method, which is refused |
| SimpleServer.RefusalsReadBack | webserver/server.cpp:56-66 | the 400 and 404 replies read back as status lines with no headers; the 404 text follows without a `Content-Length` |

## Left out

- Sockets (`socket`, `bind`, `listen`, `accept`, `read`/`recv`, `send` and `close`) are left
  out. So are `HTTPServer::start`, `stop` and `run`, and the `main` loops of `src/server.cpp` and
  `webserver/server.cpp`. The bytes read are an input, and the bytes sent are an output.
  `webserver/src/main.cpp` and `src/client.cpp` are not part of this model.
- Worker threads, `log_mutex_`/`logMutex` and the signal handler are left out: they concern
  only concurrency and shutdown. Logging is an append to a sequence of lines.
- Clocks are parameters: `time`, `localtime`, `strftime`, and the `time(nullptr)` of
  `webserver/server.cpp`.
- TelematicaServer.HandleClient: both log lines of one request carry the same time stamp.
- Real file access (`ifstream`, `stat`, `seekg`/`tellg`, `read`) is an abstract file system.
  A file's size is the length of its contents; a short read or a size that changes between
  `stat` and `read` is not modelled. Whether opening a directory succeeds is left to the
  entry's contents.
- HttpServer.Server.HandleClient: the check `bytes_read > 0` is modelled as "the input is not
  empty".
- A read that fills the whole 4096-byte buffer leaves no NUL, and `std::string(buffer)` then
  reads past the buffer. The model takes the buffer's contents up to the first NUL, or all of
  them when there is none.
- `std::cout` trace output ("Buscando archivo en", server start messages) is not modelled.
- Characters are Dafny `char`, and `isspace` is the C locale's six characters. A byte above
  127, which `::isspace` receives as a negative `char` (undefined behaviour), is treated as
  not whitespace.
- Integer widths: status codes, sizes and `ssize_t` results are unbounded integers. No
  overflow is reachable with the sizes the buffers allow.
- `vsnprintf`'s `%d` and `%s` formatting in `logPrintf` is written out as string
  concatenation. Its truncation to 1023 characters is modelled; `%` signs inside a request
  are not reinterpreted, since the request is passed as an argument, not as the format.
- The `get_status_code` and other getters of the headers are used through the fields they
  return. The headers define no further behaviour.

