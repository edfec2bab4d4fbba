/**
 * The single-file server `src/server.cpp` ("TelematicaServer"): one request per connection,
 * a fixed set of response headers written by `sendResponse`, files served from the
 * document root with no check on the path, and every step logged through `logPrintf`.
 *
 * Each function returns what the server writes: the bytes sent on the socket and the
 * messages passed to `logPrintf`. The bytes `recv` delivered, the file system and the
 * formatted local time are parameters.
 */
module TelematicaServer {
  import opened Wrappers
  import opened Text
  import opened Files
  import opened HttpResponse

  // ---------------------------------------------------------------------------
  // MIME types

  /** `path.substr(path.rfind('.'))`: the text from the last dot on, dot included. */
  function DotExtension(path: string): Option<string> {
    match LastIndexOf(path, '.')
    case None => None
    case Some(pos) => Some(path[pos..])
  }

  /** The extension table, dots included. */
  const MimeTable: map<string, string> := map[
    ".html" := "text/html", ".htm" := "text/html", ".jpg" := "image/jpeg", ".jpeg" := "image/jpeg",
    ".png" := "image/png", ".css" := "text/css", ".js" := "application/javascript",
    ".json" := "application/json", ".txt" := "text/plain", ".mp4" := "video/mp4"]

  /**
   * `getMimeType`: the table's type for the path's dot extension; `application/octet-stream`
   * when there is no dot or the table does not list the extension; never a carriage return.
   */
  function MimeType(path: string): (mime: string)
    ensures DotExtension(path).Some? && DotExtension(path).value in MimeTable ==>
      mime == MimeTable[DotExtension(path).value]
    ensures DotExtension(path).None? || DotExtension(path).value !in MimeTable ==>
      mime == "application/octet-stream"
    ensures Lacks(mime, '\r')
  {
    MediaTypesHaveNoCarriageReturn();
    match DotExtension(path)
    case None => "application/octet-stream"
    case Some(ext) => TypeOfInTable(ext); TypeOf(ext)
  }

  /** The chain of comparisons `getMimeType` makes on the dot extension. */
  function TypeOf(ext: string): string {
    if ext == ".html" || ext == ".htm" then "text/html"
    else if ext == ".jpg" || ext == ".jpeg" then "image/jpeg"
    else if ext == ".png" then "image/png"
    else if ext == ".css" then "text/css"
    else if ext == ".js" then "application/javascript"
    else if ext == ".json" then "application/json"
    else if ext == ".txt" then "text/plain"
    else if ext == ".mp4" then "video/mp4"
    else "application/octet-stream"
  }

  /** The chain of comparisons agrees with the table, and falls back to `application/octet-stream`. */
  lemma TypeOfInTable(e: string)
    ensures e in MimeTable ==> TypeOf(e) == MimeTable[e]
    ensures e !in MimeTable ==> TypeOf(e) == "application/octet-stream"
  {
    if e == ".html" || e == ".htm" {
      assert MimeTable[e] == "text/html";
    } else if e == ".jpg" || e == ".jpeg" {
      assert MimeTable[e] == "image/jpeg";
    } else if e == ".png" || e == ".css" {
      assert MimeTable[e] == if e == ".png" then "image/png" else "text/css";
    } else if e == ".js" || e == ".json" {
      assert MimeTable[e] == if e == ".js" then "application/javascript" else "application/json";
    } else if e == ".txt" || e == ".mp4" {
      assert MimeTable[e] == if e == ".txt" then "text/plain" else "video/mp4";
    }
  }

  /** The dot extension starts at a dot and holds no other. */
  lemma DotExtensionIsLastPart(path: string)
    ensures DotExtension(path).None? <==> Lacks(path, '.')
    ensures DotExtension(path).Some? ==>
      var ext := DotExtension(path).value;
      EndsWith(path, ext) && ext != [] && ext[0] == '.' && Lacks(ext[1..], '.')
  {
    if DotExtension(path).Some? {
      var pos := LastIndexOf(path, '.').value;
      var ext := path[pos..];
      assert path[|path| - |ext|..] == ext;
      forall i | 0 <= i < |ext[1..]| ensures ext[1..][i] != '.' {
        assert ext[1..][i] == path[pos + 1 + i];
      }
    }
  }

  /**
   * The lookup runs on the full path, document root included: when the request path has no
   * dot, the extension is whatever follows the last dot of the root, request path appended.
   */
  lemma {:induction false} ExtensionReachesIntoRoot(root: string, path: string)
    requires Lacks(path, '.')
    ensures DotExtension(root + path) ==
      match DotExtension(root)
      case None => None
      case Some(e) => Some(e + path)
  {
    var s := root + path;
    forall j | |root| <= j < |s| ensures s[j] != '.' {
      assert s[j] == path[j - |root|];
    }
    match LastIndexOf(root, '.')
    case None => {
      forall j | 0 <= j < |root| ensures s[j] != '.' {
        assert s[j] == root[j];
      }
    }
    case Some(pos) => {
      assert s[pos] == root[pos];
      forall j | pos < j < |root| ensures s[j] != '.' {
        assert s[j] == root[j];
      }
      assert s[pos..] == root[pos..] + path;
    }
  }

  // ---------------------------------------------------------------------------
  // sendResponse

  /** What one response writes: the bytes sent and the message handed to `logPrintf`. */
  datatype Sent = Sent(wire: string, logMessage: string)

  /**
   * The header block `sendResponse` formats, always in this order: the status line, the
   * lines `Server: TelematicaServer/1.0`, `Content-Length: <bodyLen>`,
   * `Content-Type: <contentType>` and `Connection: close`, then a blank line.
   */
  function ResponseHead(code: int, reason: string, contentType: string, bodyLen: nat): string {
    StatusLine(code, reason)
    + HeaderLine(Header("Server", "TelematicaServer/1.0"))
    + HeaderLine(Header("Content-Length", NatToString(bodyLen)))
    + HeaderLine(Header("Content-Type", contentType))
    + HeaderLine(Header("Connection", "close"))
    + "\r\n"
  }

  /** The message `sendResponse` logs: `Responded <code> <reason>`. */
  function StatusMessage(m: Message): string {
    "Responded " + IntToString(m.code) + " " + m.reason
  }

  /** What was sent reads back as a response, and the message logged names its status and reason. */
  predicate LogsItsStatus(s: Sent) {
    ParseResponse(s.wire).Some? && s.logMessage == StatusMessage(ParseResponse(s.wire).value)
  }

  /**
   * `sendResponse`: the header block, then the body only when there is one (a non-null
   * pointer) and `bodyLen > 0`; `bodyLen` is the size of the buffer the body points into.
   * When neither the reason nor the content type holds a carriage return, the bytes read
   * back as the status, the four fixed headers and the body sent, and the log names the status.
   */
  function SendResponse(code: int, reason: string, contentType: string, body: Option<string>, bodyLen: nat): (r: Sent)
    requires body.Some? ==> |body.value| == bodyLen
    ensures Lacks(reason, '\r') && Lacks(contentType, '\r') ==>
      ParseResponse(r.wire) == Some(Message(code, reason, FixedHeaders(contentType, bodyLen),
                                            if body.Some? && bodyLen > 0 then body.value else "")) &&
      LogsItsStatus(r)
  {
    var sent := if body.Some? && bodyLen > 0 then body.value else "";
    HeadReadsBack(code, reason, contentType, bodyLen, sent);
    Sent(ResponseHead(code, reason, contentType, bodyLen) + sent, "Responded " + IntToString(code) + " " + reason)
  }

  /** The four header lines of every response, in the order they are written. */
  function FixedHeaders(contentType: string, bodyLen: nat): seq<Header> {
    [Header("Server", "TelematicaServer/1.0"), Header("Content-Length", NatToString(bodyLen)),
     Header("Content-Type", contentType), Header("Connection", "close")]
  }

  lemma HeaderLinesOfFour(a: Header, b: Header, c: Header, d: Header)
    ensures HeaderLines([a, b, c, d]) == HeaderLine(a) + HeaderLine(b) + HeaderLine(c) + HeaderLine(d)
  {
    assert [a, b, c, d][1..] == [b, c, d] && [b, c, d][1..] == [c, d] && [c, d][1..] == [d] && [d][1..] == [];
    assert HeaderLines([d]) == HeaderLine(d);
    assert HeaderLines([c, d]) == HeaderLine(c) + HeaderLine(d);
    assert HeaderLines([b, c, d]) == HeaderLine(b) + (HeaderLine(c) + HeaderLine(d));
  }

  lemma HeadIsSerialization(code: int, reason: string, contentType: string, bodyLen: nat, body: string)
    ensures ResponseHead(code, reason, contentType, bodyLen) + body
         == Serialize(Message(code, reason, FixedHeaders(contentType, bodyLen), body))
  {
    var hs := FixedHeaders(contentType, bodyLen);
    HeaderLinesOfFour(hs[0], hs[1], hs[2], hs[3]);
  }

  lemma FixedHeadersWellFormed(code: int, reason: string, contentType: string, bodyLen: nat, body: string)
    requires Lacks(reason, '\r') && Lacks(contentType, '\r')
    ensures WellFormed(Message(code, reason, FixedHeaders(contentType, bodyLen), body))
  {
    ServerAndConnectionWritable();
    LengthHeaderWritable(bodyLen);
    TypeHeaderWritable(contentType);
    MessageWellFormed(code, reason, FixedHeaders(contentType, bodyLen), body);
  }

  lemma ServerAndConnectionWritable()
    ensures Writable(Header("Server", "TelematicaServer/1.0")) && Writable(Header("Connection", "close"))
  {
  }

  /** `Content-Length`, the second of the fixed headers, is `bodyLen`. */
  lemma FixedHeadersLength(contentType: string, bodyLen: nat)
    ensures Lookup(FixedHeaders(contentType, bodyLen), "Content-Length") == Some(NatToString(bodyLen))
  {
    var hs := FixedHeaders(contentType, bodyLen);
    assert hs[0].name != "Content-Length";
    assert hs[1..][0].name == "Content-Length";
  }

  /** The header block followed by a body reads back as that message when the reason and type are writable. */
  lemma HeadReadsBack(code: int, reason: string, contentType: string, bodyLen: nat, body: string)
    ensures Lacks(reason, '\r') && Lacks(contentType, '\r') ==>
      ParseResponse(ResponseHead(code, reason, contentType, bodyLen) + body)
        == Some(Message(code, reason, FixedHeaders(contentType, bodyLen), body))
  {
    if Lacks(reason, '\r') && Lacks(contentType, '\r') {
      var m := Message(code, reason, FixedHeaders(contentType, bodyLen), body);
      HeadIsSerialization(code, reason, contentType, bodyLen, body);
      FixedHeadersWellFormed(code, reason, contentType, bodyLen, body);
      SerializeRoundTrip(m);
    }
  }

  /**
   * Reading back what `sendResponse` writes gives the status, the four headers in their
   * fixed order, and the body actually sent; `Content-Length` is `bodyLen` even when no
   * body follows.
   */
  lemma SendResponseReadsBack(code: int, reason: string, contentType: string, body: Option<string>, bodyLen: nat)
    requires body.Some? ==> |body.value| == bodyLen
    requires Lacks(reason, '\r') && Lacks(contentType, '\r')
    ensures var m := Message(code, reason, FixedHeaders(contentType, bodyLen),
                             if body.Some? && bodyLen > 0 then body.value else "");
      ParseResponse(SendResponse(code, reason, contentType, body, bodyLen).wire) == Some(m) &&
      ContentLength(m) == Some(bodyLen)
  {
    FixedHeadersLength(contentType, bodyLen);
    ParseNatToString(bodyLen);
  }

  // ---------------------------------------------------------------------------
  // Canned responses

  const NotFoundBody := "<html><body><h1>404 Not Found</h1></body></html>"
  const BadRequestBody := "<html><body><h1>400 Bad Request</h1></body></html>"
  const PostBody := "<html><body><h1>POST recibido</h1></body></html>"

  /** `notFound`: the whole static page, its length as `Content-Length`, logged as 404. */
  function NotFound(): (r: Sent)
    ensures ParseResponse(r.wire) == Some(Message(404, "Not Found", FixedHeaders("text/html", |NotFoundBody|), NotFoundBody))
    ensures LogsItsStatus(r)
  {
    MediaTypesHaveNoCarriageReturn();
    ReasonsHaveNoCarriageReturn();
    SendResponse(404, "Not Found", "text/html", Some(NotFoundBody), |NotFoundBody|)
  }

  /** `badRequest`: the whole static page, its length as `Content-Length`, logged as 400. */
  function BadRequest(): (r: Sent)
    ensures ParseResponse(r.wire) == Some(Message(400, "Bad Request", FixedHeaders("text/html", |BadRequestBody|), BadRequestBody))
    ensures LogsItsStatus(r)
  {
    MediaTypesHaveNoCarriageReturn();
    ReasonsHaveNoCarriageReturn();
    SendResponse(400, "Bad Request", "text/html", Some(BadRequestBody), |BadRequestBody|)
  }

  /**
   * `serveFile`: 404 for a path `stat` cannot find, a directory or a file that does not open;
   * else 200 with the file, typed by the full path. The status is 200 exactly when the file is
   * there and opens, and the log names it.
   */
  function ServeFile(documentRoot: string, path: string, headOnly: bool, fs: FileSystem): (r: Sent)
    ensures LogsItsStatus(r)
    ensures var full := documentRoot + path;
      ParseResponse(r.wire).value.code ==
        if Exists(fs, full) && !fs[full].isDirectory && Read(fs, full).Some? then 200 else 404
  {
    var fullPath := documentRoot + path;
    if !Exists(fs, fullPath) || fs[fullPath].isDirectory then NotFound()
    else
      match Read(fs, fullPath)
      case None => NotFound()
      case Some(content) =>
        var mime := MimeType(fullPath);
        ReasonsHaveNoCarriageReturn();
        if headOnly then SendResponse(200, "OK", mime, None, |content|)
        else SendResponse(200, "OK", mime, Some(content), |content|)
  }

  // ---------------------------------------------------------------------------
  // handleClient

  /** A log line: the time, a space, and the message cut to the 1023 characters `vsnprintf` keeps. */
  function LogEntry(time: string, message: string): (entry: string)
    ensures |entry| <= |time| + 1 + 1023
    ensures StartsWith(time + " " + message, entry)
    ensures |message| <= 1023 ==> entry == time + " " + message
    ensures |message| > 1023 ==> entry == time + " " + message[..1023]
  {
    time + " " + (if |message| <= 1023 then message else message[..1023])
  }

  /** Everything one connection produces: the bytes sent and the lines logged. */
  datatype Exchange = Exchange(wire: string, log: seq<string>)

  /**
   * `handleClient` given the bytes `recv` returned: nothing for an empty read; otherwise the
   * request is logged, its first two whitespace-separated words are the method and the path,
   * and the response is sent and logged.
   */
  function HandleClient(received: string, documentRoot: string, fs: FileSystem, time: string): (x: Exchange)
    requires |received| <= 8191
    ensures received == [] ==> x == Exchange("", [])
    ensures received != [] ==>
      |x.log| == 2 && ParseResponse(x.wire).Some? && ParseResponse(x.wire).value.code in {200, 400, 404} &&
      x.log[1] == LogEntry(time, StatusMessage(ParseResponse(x.wire).value))
  {
    if received == [] then Exchange("", [])
    else
      MediaTypesHaveNoCarriageReturn();
      ReasonsHaveNoCarriageReturn();
      var text := CString(received);
      var requestEntry := LogEntry(time, "Request:\n" + text);
      var words := Words(text);
      var response :=
        if |words| < 2 then BadRequest()
        else
          var methodName := words[0];
          var path := words[1];
          if methodName == "GET" || methodName == "HEAD" then
            ServeFile(documentRoot, if path == "/" then "/index.html" else path, methodName == "HEAD", fs)
          else if methodName == "POST" then
            SendResponse(200, "OK", "text/html", Some(PostBody), |PostBody|)
          else BadRequest();
      Exchange(response.wire, [requestEntry, LogEntry(time, response.logMessage)])
  }

  // ---------------------------------------------------------------------------
  // Properties of the dispatch

  /** The request line's method and path, when the request has at least two words. */
  function Target(received: string): Option<(string, string)> {
    var words := Words(CString(received));
    if |words| < 2 then None else Some((words[0], words[1]))
  }

  /** A request of fewer than two words, an empty line included, is answered 400. */
  lemma TooFewWordsRejected(received: string, documentRoot: string, fs: FileSystem, time: string)
    requires 0 < |received| <= 8191 && Target(received).None?
    ensures HandleClient(received, documentRoot, fs, time).wire == BadRequest().wire
  {
  }

  lemma UnknownMethodRejected(received: string, documentRoot: string, fs: FileSystem, time: string)
    requires 0 < |received| <= 8191 && Target(received).Some?
    requires Target(received).value.0 !in {"GET", "HEAD", "POST"}
    ensures HandleClient(received, documentRoot, fs, time).wire == BadRequest().wire
  {
    var methodName := Words(CString(received))[0];
    assert methodName != "GET" && methodName != "HEAD" && methodName != "POST";
  }

  /** POST is answered with the same fixed page whatever the request carries. */
  lemma PostIgnoresRequest(received: string, documentRoot: string, fs: FileSystem, time: string)
    requires 0 < |received| <= 8191 && Target(received).Some? && Target(received).value.0 == "POST"
    ensures HandleClient(received, documentRoot, fs, time).wire
         == SendResponse(200, "OK", "text/html", Some(PostBody), |PostBody|).wire
  {
  }

  /** The path `/` is served as `/index.html`, for GET and HEAD alike. */
  lemma RootServesIndex(received: string, documentRoot: string, fs: FileSystem, time: string)
    requires 0 < |received| <= 8191 && Target(received).Some?
    requires Target(received).value.0 in {"GET", "HEAD"} && Target(received).value.1 == "/"
    ensures HandleClient(received, documentRoot, fs, time).wire
         == ServeFile(documentRoot, "/index.html", Target(received).value.0 == "HEAD", fs).wire
  {
  }

  /** Any other path is used as sent: `..` components are not looked at. */
  lemma PathUsedAsSent(received: string, documentRoot: string, fs: FileSystem, time: string)
    requires 0 < |received| <= 8191 && Target(received).Some?
    requires Target(received).value.0 in {"GET", "HEAD"} && Target(received).value.1 != "/"
    ensures HandleClient(received, documentRoot, fs, time).wire
         == ServeFile(documentRoot, Target(received).value.1, Target(received).value.0 == "HEAD", fs).wire
  {
  }

  /** An empty read sends nothing and logs nothing. */
  lemma EmptyReadIsSilent(documentRoot: string, fs: FileSystem, time: string)
    ensures HandleClient("", documentRoot, fs, time) == Exchange("", [])
  {
  }

  /**
   * A non-empty read logs exactly two lines: the request as received, then the status and
   * reason of the response that was sent.
   */
  lemma TwoLogLines(received: string, documentRoot: string, fs: FileSystem, time: string)
    requires 0 < |received| <= 8191
    ensures var x := HandleClient(received, documentRoot, fs, time);
      |x.log| == 2 && x.log[0] == LogEntry(time, "Request:\n" + CString(received)) &&
      ParseResponse(x.wire).Some? && x.log[1] == LogEntry(time, StatusMessage(ParseResponse(x.wire).value))
  {
  }

  // ---------------------------------------------------------------------------
  // Properties of serveFile

  /** A path that `stat` cannot find, a directory, or a file that will not open: the 404 page, with its length announced. */
  lemma MissingIsNotFound(documentRoot: string, path: string, headOnly: bool, fs: FileSystem)
    requires var full := documentRoot + path; !Exists(fs, full) || fs[full].isDirectory || Read(fs, full).None?
    ensures ServeFile(documentRoot, path, headOnly, fs) == NotFound()
    ensures ParseResponse(NotFound().wire) ==
      Some(Message(404, "Not Found", FixedHeaders("text/html", |NotFoundBody|), NotFoundBody))
  {
    SendResponseReadsBack(404, "Not Found", "text/html", Some(NotFoundBody), |NotFoundBody|);
  }

  /** GET of a readable file sends its contents whole, announced with their length, typed by the full path. */
  lemma GetSendsFile(documentRoot: string, path: string, fs: FileSystem, content: string)
    requires var full := documentRoot + path; Exists(fs, full) && !fs[full].isDirectory && Read(fs, full) == Some(content)
    ensures ParseResponse(ServeFile(documentRoot, path, false, fs).wire) ==
      Some(Message(200, "OK", FixedHeaders(MimeType(documentRoot + path), |content|), content))
  {
    SendResponseReadsBack(200, "OK", MimeType(documentRoot + path), Some(content), |content|);
  }

  /** HEAD of a readable file announces the file's true size and sends no body. */
  lemma HeadSendsSizeOnly(documentRoot: string, path: string, fs: FileSystem, content: string)
    requires var full := documentRoot + path; Exists(fs, full) && !fs[full].isDirectory && Read(fs, full) == Some(content)
    ensures var m := Message(200, "OK", FixedHeaders(MimeType(documentRoot + path), |content|), "");
      ParseResponse(ServeFile(documentRoot, path, true, fs).wire) == Some(m) && ContentLength(m) == Some(|content|)
  {
    SendResponseReadsBack(200, "OK", MimeType(documentRoot + path), None, |content|);
  }
}
