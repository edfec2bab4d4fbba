/**
 * `HTTPServer` of the class-based server: the document root fixed at construction, the
 * extension-based MIME lookup, the dispatch of one client request onto an `HTTPResponse`
 * and the line appended to the log file for it.
 *
 * The socket read is the sequence of bytes received (empty when `read` returns zero or
 * less), the file system is a `Files.FileSystem`, the log file is the sequence of lines
 * written to it, and the formatted local time is a parameter.
 */
module HttpServer {
  import opened Wrappers
  import opened Text
  import opened Files
  import opened HttpRequest
  import opened HttpResponse

  // ---------------------------------------------------------------------------
  // Document root

  /** The constructor's document root: a `'/'` is appended unless the root already ends in one. */
  function NormalizeRoot(root: string): (r: string)
    requires root != []
    ensures r != [] && r[|r| - 1] == '/'
    ensures StartsWith(r, root) && |r| <= |root| + 1
  {
    if root[|root| - 1] != '/' then root + "/" else root
  }

  lemma NormalizeRootIdempotent(root: string)
    requires root != []
    ensures NormalizeRoot(NormalizeRoot(root)) == NormalizeRoot(root)
  {
  }

  /** A root that already ends in `'/'` is kept as given. */
  lemma NormalizeRootKeeps(root: string)
    requires root != [] && root[|root| - 1] == '/'
    ensures NormalizeRoot(root) == root
  {
  }

  // ---------------------------------------------------------------------------
  // MIME types

  /**
   * `path.substr(path.find_last_of('.') + 1)`: the dot-free suffix that the last dot
   * precedes, or the whole path when there is no dot.
   */
  function Extension(path: string): (ext: string)
    ensures EndsWith(path, ext) && Lacks(ext, '.')
    ensures |ext| < |path| ==> path[|path| - |ext| - 1] == '.'
    ensures Lacks(path, '.') ==> ext == path
  {
    match LastIndexOf(path, '.')
    case None => path
    case Some(i) => path[i + 1..]
  }

  /** The extension table, as a dictionary. */
  const MimeTable: map<string, string> := map[
    "html" := "text/html", "htm" := "text/html", "css" := "text/css",
    "js" := "application/javascript", "jpg" := "image/jpeg", "jpeg" := "image/jpeg",
    "png" := "image/png", "gif" := "image/gif", "pdf" := "application/pdf",
    "json" := "application/json"]

  /**
   * `get_mime_type`: the table's type for the path's extension, `text/plain` for an
   * extension the table does not list (an empty one included); never a carriage return.
   */
  function MimeType(path: string): (mime: string)
    ensures Extension(path) in MimeTable ==> mime == MimeTable[Extension(path)]
    ensures Extension(path) !in MimeTable ==> mime == "text/plain"
    ensures Lacks(mime, '\r')
  {
    MediaTypesHaveNoCarriageReturn();
    var extension := Extension(path);
    TypeOfInTable(extension);
    TypeOf(extension)
  }

  /** The chain of comparisons `get_mime_type` makes on the extension. */
  function TypeOf(extension: string): string {
    if extension == "html" || extension == "htm" then "text/html"
    else if extension == "css" then "text/css"
    else if extension == "js" then "application/javascript"
    else if extension == "jpg" || extension == "jpeg" then "image/jpeg"
    else if extension == "png" then "image/png"
    else if extension == "gif" then "image/gif"
    else if extension == "pdf" then "application/pdf"
    else if extension == "json" then "application/json"
    else "text/plain"
  }

  /** The chain of comparisons agrees with the table, and falls back to `text/plain`. */
  lemma TypeOfInTable(e: string)
    ensures e in MimeTable ==> TypeOf(e) == MimeTable[e]
    ensures e !in MimeTable ==> TypeOf(e) == "text/plain"
  {
    if e == "html" || e == "htm" {
      assert MimeTable[e] == "text/html";
    } else if e == "css" || e == "js" {
      assert MimeTable[e] == if e == "css" then "text/css" else "application/javascript";
    } else if e == "jpg" || e == "jpeg" {
      assert MimeTable[e] == "image/jpeg";
    } else if e == "png" || e == "gif" {
      assert MimeTable[e] == if e == "png" then "image/png" else "image/gif";
    } else if e == "pdf" || e == "json" {
      assert MimeTable[e] == if e == "pdf" then "application/pdf" else "application/json";
    }
  }

  /** The extension of `stem.ext` is `ext` when `ext` has no dot, whatever dots `stem` holds. */
  lemma ExtensionAfterLastDot(stem: string, ext: string)
    requires Lacks(ext, '.')
    ensures Extension(stem + "." + ext) == ext
  {
    var path := stem + "." + ext;
    assert path[|stem|] == '.';
    forall j | |stem| < j < |path| ensures path[j] != '.' {
      assert path[j] == ext[j - |stem| - 1];
    }
    assert path[|stem| + 1..] == ext;
  }

  /**
   * A path without a dot is its own extension (`find_last_of` gives `npos`, and `npos + 1`
   * is 0), so it is typed by the table as if it were an extension: `html` is `text/html`.
   */
  lemma BareNameIsExtension(path: string)
    requires Lacks(path, '.')
    ensures Extension(path) == path
    ensures MimeType(path) == if path in MimeTable then MimeTable[path] else "text/plain"
  {
  }

  // ---------------------------------------------------------------------------
  // Dispatch

  const ForbiddenBody := "<h1>403 Forbidden</h1>"
  const NotFoundBody := "<h1>404 Not Found</h1>"
  const BadRequestBody := "<h1>400 Bad Request</h1>"

  function PostBody(requestBody: string): string {
    "<h1>POST recibido</h1><p>" + requestBody + "</p>"
  }

  /** `set_status(code, reason)` then `set_body(body)` on a fresh response: `Content-Length` is the only header. */
  function WithBody(code: int, reason: string, body: string): Message {
    Message(code, reason, [Header("Content-Length", NatToString(|body|))], body)
  }

  /**
   * The response `handle_client` builds for a parsed request: status through `set_status`,
   * headers through `set_header` and `set_body`, starting from the default response.
   */
  function Reply(docRoot: string, req: Request, fs: FileSystem): Message {
    if req.methodName == "GET" then GetReply(docRoot + req.uri, req.uri, fs)
    else if req.methodName == "HEAD" then Message(200, "OK", [Header("Content-Type", "text/html")], "")
    else if req.methodName == "POST" then WithBody(200, "OK", PostBody(req.body))
    else WithBody(400, "Bad Request", BadRequestBody)
  }

  /** The GET branch, for the file path `doc_root_ + uri`. */
  function GetReply(filePath: string, uri: string, fs: FileSystem): Message {
    if Contains(filePath, "../") then WithBody(403, "Forbidden", ForbiddenBody)
    else
      match Read(fs, filePath)
      case Some(content) => FileReply(content, MimeType(uri))
      case None => WithBody(404, "Not Found", NotFoundBody)
  }

  /**
   * `set_status(200, "OK")`, `set_header("Content-Type", mime)`, `set_body(content)`: the
   * map holds both headers, and `Content-Length` sorts first.
   */
  function FileReply(content: string, mime: string): Message {
    Message(200, "OK", [Header("Content-Length", NatToString(|content|)), Header("Content-Type", mime)], content)
  }

  /** `log_request`: `[time] request - code`, one line of the log file. */
  function LogLine(time: string, request: string, code: int): string {
    "[" + time + "] " + request + " - " + IntToString(code)
  }

  /** A GET whose file path holds `../` is refused with 403, whatever the file system holds. */
  lemma TraversalForbidden(docRoot: string, req: Request, fs: FileSystem)
    requires req.methodName == "GET" && Contains(docRoot + req.uri, "../")
    ensures Reply(docRoot, req, fs) == WithBody(403, "Forbidden", ForbiddenBody)
  {
  }

  /** The test runs on the whole file path: a document root holding `../` refuses every GET. */
  lemma RootWithTraversalForbidsAll(docRoot: string, req: Request, fs: FileSystem)
    requires req.methodName == "GET" && Contains(docRoot, "../")
    ensures Reply(docRoot, req, fs).code == 403
  {
    ContainsExtend(docRoot, "../", req.uri);
  }

  /** A readable file is served whole, with its length and the type of the URI's extension, `Content-Length` first. */
  lemma GetServesFile(docRoot: string, req: Request, fs: FileSystem, content: string)
    requires req.methodName == "GET" && !Contains(docRoot + req.uri, "../")
    requires Read(fs, docRoot + req.uri) == Some(content)
    ensures Reply(docRoot, req, fs) ==
      Message(200, "OK", [Header("Content-Length", NatToString(|content|)), Header("Content-Type", MimeType(req.uri))], content)
  {
  }

  /** A file that cannot be opened is 404. */
  lemma GetMissingFile(docRoot: string, req: Request, fs: FileSystem)
    requires req.methodName == "GET" && !Contains(docRoot + req.uri, "../")
    requires Read(fs, docRoot + req.uri) == None
    ensures Reply(docRoot, req, fs) == WithBody(404, "Not Found", NotFoundBody)
  {
  }

  /** HEAD is answered 200 with `Content-Type: text/html` alone: no `Content-Length`, no body, whatever the URI. */
  lemma HeadOnlyContentType(docRoot: string, req: Request, fs: FileSystem)
    requires req.methodName == "HEAD"
    ensures Reply(docRoot, req, fs) == Message(200, "OK", [Header("Content-Type", "text/html")], "")
    ensures ContentLength(Reply(docRoot, req, fs)) == None
  {
  }

  /** POST echoes the request body inside fixed markup. */
  lemma PostEchoesBody(docRoot: string, req: Request, fs: FileSystem)
    requires req.methodName == "POST"
    ensures Reply(docRoot, req, fs) == WithBody(200, "OK", "<h1>POST recibido</h1><p>" + req.body + "</p>")
  {
  }

  /** Every other method, PUT and DELETE included, is 400. */
  lemma OtherMethodsRejected(docRoot: string, req: Request, fs: FileSystem)
    requires req.methodName !in {"GET", "HEAD", "POST"}
    ensures Reply(docRoot, req, fs) == WithBody(400, "Bad Request", BadRequestBody)
  {
  }

  lemma WithBodyWellFormed(code: int, reason: string, body: string)
    requires Lacks(reason, '\r')
    ensures WellFormed(WithBody(code, reason, body))
  {
    LengthHeaderWritable(|body|);
    MessageWellFormed(code, reason, [Header("Content-Length", NatToString(|body|))], body);
  }

  lemma FileReplyWellFormed(content: string, mime: string)
    requires Lacks(mime, '\r')
    ensures WellFormed(FileReply(content, mime))
  {
    LengthHeaderWritable(|content|);
    TypeHeaderWritable(mime);
    MessageWellFormed(200, "OK", [Header("Content-Length", NatToString(|content|)), Header("Content-Type", mime)], content);
  }

  lemma GetReplyWellFormed(filePath: string, uri: string, fs: FileSystem)
    ensures WellFormed(GetReply(filePath, uri, fs))
  {
    if Contains(filePath, "../") {
      WithBodyWellFormed(403, "Forbidden", ForbiddenBody);
    } else if Read(fs, filePath).Some? {
      FileReplyWellFormed(Read(fs, filePath).value, MimeType(uri));
    } else {
      WithBodyWellFormed(404, "Not Found", NotFoundBody);
    }
  }

  /** Every reply reads back from the wire as itself. */
  lemma ReplyWellFormed(docRoot: string, req: Request, fs: FileSystem)
    ensures WellFormed(Reply(docRoot, req, fs))
  {
    if req.methodName == "GET" {
      GetReplyWellFormed(docRoot + req.uri, req.uri, fs);
    } else if req.methodName == "HEAD" {
      TypeHeaderWritable("text/html");
      MessageWellFormed(200, "OK", [Header("Content-Type", "text/html")], "");
    } else if req.methodName == "POST" {
      WithBodyWellFormed(200, "OK", PostBody(req.body));
    } else {
      WithBodyWellFormed(400, "Bad Request", BadRequestBody);
    }
  }

  /** Except for HEAD, the `Content-Length` on the wire is the size of the body that follows. */
  lemma WireLengthUnlessHead(docRoot: string, req: Request, fs: FileSystem)
    requires req.methodName != "HEAD"
    ensures var m := Reply(docRoot, req, fs);
      ParseResponse(Serialize(m)) == Some(m) && ContentLength(m) == Some(|m.body|)
  {
    var m := Reply(docRoot, req, fs);
    ReplyWellFormed(docRoot, req, fs);
    assert LengthMatches(m.headers, m.body);
    WireContentLength(m);
    SerializeRoundTrip(m);
  }

  // ---------------------------------------------------------------------------
  // The server object

  class Server {
    var port: int
    var logFile: string
    var docRoot: string
    /** The lines appended to the log file, oldest first. */
    var log: seq<string>

    /** `HTTPServer(port, log_file, doc_root)`; `doc_root_.back()` needs a non-empty root. */
    constructor(port: int, logFile: string, root: string)
      requires root != []
      ensures this.port == port && this.logFile == logFile && log == []
      ensures docRoot == NormalizeRoot(root)
    {
      this.port := port;
      this.logFile := logFile;
      docRoot := root;
      log := [];
      new;
      if docRoot[|docRoot| - 1] != '/' {
        docRoot := docRoot + "/";
      }
    }

    /** `log_request`: one line when the log file opens for appending, nothing otherwise. */
    method LogRequest(request: string, code: int, time: string, logOpens: bool)
      modifies this`log
      ensures log == old(log) + if logOpens then [LogLine(time, request, code)] else []
    {
      if logOpens {
        log := log + ["[" + time + "] " + request + " - " + IntToString(code)];
      }
    }

    /** The dispatch part of `handle_client`: the response built for a parsed request. */
    method Respond(request: Request, fs: FileSystem) returns (response: Response)
      ensures fresh(response) && response.Valid()
      ensures response.AsMessage() == Reply(docRoot, request, fs)
    {
      response := new Response();
      if request.methodName == "GET" {
        var filePath := docRoot + request.uri;
        if Contains(filePath, "../") {
          response.SetStatus(403, "Forbidden");
          response.SetBody(ForbiddenBody);
        } else {
          var file := Read(fs, filePath);
          if file.Some? {
            response.SetStatus(200, "OK");
            response.SetHeader("Content-Type", MimeType(request.uri));
            response.SetBody(file.value);
            TypeThenLength(MimeType(request.uri), NatToString(|file.value|));
          } else {
            response.SetStatus(404, "Not Found");
            response.SetBody(NotFoundBody);
          }
        }
      } else if request.methodName == "HEAD" {
        response.SetStatus(200, "OK");
        response.SetHeader("Content-Type", "text/html");
      } else if request.methodName == "POST" {
        response.SetStatus(200, "OK");
        response.SetBody("<h1>POST recibido</h1><p>" + request.body + "</p>");
      } else {
        response.SetStatus(400, "Bad Request");
        response.SetBody(BadRequestBody);
      }
    }

    /**
     * `handle_client` once `read` has filled the 4096-byte buffer with `received`: nothing
     * is sent or logged for an empty read; otherwise the request text up to the first NUL
     * is parsed, the reply is sent, and one log line records method, URI and status.
     */
    method HandleClient(received: string, fs: FileSystem, time: string, logOpens: bool)
        returns (sent: Option<string>)
      requires |received| <= 4096
      modifies this`log
      ensures received == [] ==> sent == None && log == old(log)
      ensures received != [] ==>
        var req := Parsed(CString(received));
        var reply := Reply(docRoot, req, fs);
        sent == Some(Serialize(reply)) &&
        log == old(log) + if logOpens then [LogLine(time, req.methodName + " " + req.uri, reply.code)] else []
    {
      if received == [] {
        return None;
      }
      var request := Parse(CString(received));
      var response := Respond(request, fs);
      var text := response.ToString();
      sent := Some(text);
      LogRequest(request.methodName + " " + request.uri, response.statusCode, time, logOpens);
    }
  }
}
