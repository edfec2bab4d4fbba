/**
 * The minimal server `webserver/server.cpp`: the request's first three words are taken as
 * method, path and version, `/` becomes `/index.html`, and the response is built by
 * appending to a string, with an early return for each failure.
 *
 * The bytes `read` left in the zeroed 4096-byte buffer, the file system, the value of
 * `time(nullptr)`, the log file's lines and whether opening it for appending succeeds are
 * parameters; the results are the bytes sent and the log file's lines afterwards.
 */
module SimpleServer {
  import opened Wrappers
  import opened Text
  import opened Files
  import opened HttpResponse

  // ---------------------------------------------------------------------------
  // MIME types

  /** `getMimeType`: a chain of `ends_with` tests on the request path. */
  function MimeType(path: string): (mime: string)
    ensures mime in {"text/html", "image/jpeg", "image/png", "video/mp4", "text/plain"}
    ensures Lacks(mime, '\r')
  {
    MediaTypesHaveNoCarriageReturn();
    if EndsWith(path, ".html") then "text/html"
    else if EndsWith(path, ".jpg") || EndsWith(path, ".jpeg") then "image/jpeg"
    else if EndsWith(path, ".png") then "image/png"
    else if EndsWith(path, ".mp4") then "video/mp4"
    else "text/plain"
  }

  /** The recognised suffixes. */
  const MimeTable: map<string, string> := map[
    ".html" := "text/html", ".jpg" := "image/jpeg", ".jpeg" := "image/jpeg",
    ".png" := "image/png", ".mp4" := "video/mp4"]

  /**
   * A path ending in `t` does not end in `s` when the two disagree where they overlap: the
   * shorter is not a suffix of the longer.
   */
  lemma SuffixMismatch(path: string, s: string, t: string)
    requires EndsWith(path, t)
    requires if |s| <= |t| then !EndsWith(t, s) else !EndsWith(s, t)
    ensures !EndsWith(path, s)
  {
    if |s| <= |t| {
      assert path[|path| - |s|..] == t[|t| - |s|..];
    } else if |s| <= |path| {
      assert path[|path| - |s|..][|s| - |t|..] == t;
    }
  }

  /** A path ending in a table suffix gets the table's type. */
  lemma MimeTypeBySuffix(stem: string, suffix: string)
    requires suffix in MimeTable
    ensures MimeType(stem + suffix) == MimeTable[suffix]
  {
    if suffix == ".html" {
      HtmlType(stem);
      assert MimeTable[suffix] == "text/html";
    } else if suffix == ".jpg" {
      JpgType(stem);
      assert MimeTable[suffix] == "image/jpeg";
    } else if suffix == ".jpeg" {
      JpegType(stem);
      assert MimeTable[suffix] == "image/jpeg";
    } else if suffix == ".png" {
      PngType(stem);
      assert MimeTable[suffix] == "image/png";
    } else {
      assert suffix == ".mp4";
      Mp4Type(stem);
      assert MimeTable[suffix] == "video/mp4";
    }
  }

  lemma HtmlType(stem: string)
    ensures MimeType(stem + ".html") == "text/html"
  {
    var path := stem + ".html";
    assert path[|path| - 5..] == ".html";
  }

  lemma JpgType(stem: string)
    ensures MimeType(stem + ".jpg") == "image/jpeg"
  {
    var path := stem + ".jpg";
    assert path[|path| - 4..] == ".jpg";
    SuffixMismatch(path, ".html", ".jpg");
  }

  lemma JpegType(stem: string)
    ensures MimeType(stem + ".jpeg") == "image/jpeg"
  {
    var path := stem + ".jpeg";
    assert path[|path| - 5..] == ".jpeg";
    SuffixMismatch(path, ".html", ".jpeg");
  }

  lemma PngType(stem: string)
    ensures MimeType(stem + ".png") == "image/png"
  {
    var path := stem + ".png";
    assert path[|path| - 4..] == ".png";
    SuffixMismatch(path, ".html", ".png");
    SuffixMismatch(path, ".jpg", ".png");
    SuffixMismatch(path, ".jpeg", ".png");
  }

  lemma Mp4Type(stem: string)
    ensures MimeType(stem + ".mp4") == "video/mp4"
  {
    var path := stem + ".mp4";
    assert path[|path| - 4..] == ".mp4";
    SuffixMismatch(path, ".html", ".mp4");
    SuffixMismatch(path, ".jpg", ".mp4");
    SuffixMismatch(path, ".jpeg", ".mp4");
    SuffixMismatch(path, ".png", ".mp4");
  }

  /** A path that ends in none of the table's suffixes is `text/plain`. */
  lemma MimeTypeDefault(path: string)
    requires forall suffix :: suffix in MimeTable ==> !EndsWith(path, suffix)
    ensures MimeType(path) == "text/plain"
  {
    assert ".html" in MimeTable && ".jpg" in MimeTable && ".jpeg" in MimeTable;
    assert ".png" in MimeTable && ".mp4" in MimeTable;
  }

  /** `.htm` is not in the table: such a path is served as `text/plain`. */
  lemma HtmIsPlainText(stem: string)
    ensures MimeType(stem + ".htm") == "text/plain"
  {
    var path := stem + ".htm";
    assert path[|path| - 4..] == ".htm";
    SuffixMismatch(path, ".html", ".htm");
    SuffixMismatch(path, ".jpg", ".htm");
    SuffixMismatch(path, ".jpeg", ".htm");
    SuffixMismatch(path, ".png", ".htm");
    SuffixMismatch(path, ".mp4", ".htm");
  }

  // ---------------------------------------------------------------------------
  // The request

  /** `reqStream >> method >> path >> version` over the whole request text. */
  function RequestWords(received: string): seq<string> {
    Words(CString(received))
  }

  function RequestMethod(received: string): string {
    Field(RequestWords(received), 0)
  }

  /** The path after the `/` to `/index.html` rewrite. */
  function RequestPath(received: string): string {
    var path := Field(RequestWords(received), 1);
    if path == "/" then "/index.html" else path
  }

  predicate Allowed(methodName: string) {
    methodName == "GET" || methodName == "HEAD" || methodName == "POST"
  }

  // ---------------------------------------------------------------------------
  // Responses

  const BadRequestResponse := "HTTP/1.1 400 Bad Request\r\n\r\n"
  const NotFoundResponse := "HTTP/1.1 404 Not Found\r\n\r\nPage Not Found"

  /**
   * The header block of a successful response: the status line, `Content-Length` with the
   * file size, `Content-Type`, and the blank line.
   */
  function SuccessHead(size: nat, mime: string): string {
    StatusLine(200, "OK") + HeaderLine(Header("Content-Length", NatToString(size)))
    + HeaderLine(Header("Content-Type", mime)) + "\r\n"
  }

  /** The line `logRequest` writes: `[<seconds since the epoch>] <message>`. */
  function LogLine(now: int, message: string): string {
    "[" + IntToString(now) + "] " + message
  }

  /**
   * `logRequest`: the log file is opened for appending on every call; when that succeeds
   * one line is added after the lines already there, and when it fails nothing is written.
   */
  function LogRequest(log: seq<string>, logOpens: bool, now: int, message: string): (after: seq<string>)
    ensures |after| == |log| + (if logOpens then 1 else 0)
    ensures after[..|log|] == log
    ensures logOpens ==> after[|log|] == LogLine(now, message)
  {
    if logOpens then log + [LogLine(now, message)] else log
  }

  /**
   * `handleClient`: the bytes sent and the log afterwards. A method other than GET, HEAD or
   * POST (an empty one from an empty read included) is refused before the file system is
   * consulted; a file that does not open gives 404; otherwise the header block is sent, then
   * the file's bytes unless the method is HEAD.
   */
  method HandleClient(received: string, rootFolder: string, fs: FileSystem, now: int,
                      log: seq<string>, logOpens: bool)
      returns (sent: string, newLog: seq<string>)
    requires |received| <= 4096
    ensures var m, p := RequestMethod(received), RequestPath(received);
      !Allowed(m) ==>
        sent == BadRequestResponse && newLog == LogRequest(log, logOpens, now, "400 Bad Request: " + m + " " + p)
    ensures var m, p := RequestMethod(received), RequestPath(received);
      Allowed(m) && Read(fs, rootFolder + p).None? ==>
        sent == NotFoundResponse && newLog == LogRequest(log, logOpens, now, "404 Not Found: " + m + " " + p)
    ensures var m, p := RequestMethod(received), RequestPath(received);
      Allowed(m) && Read(fs, rootFolder + p).Some? ==>
        var content := Read(fs, rootFolder + p).value;
        sent == SuccessHead(|content|, MimeType(p)) + (if m == "HEAD" then "" else content) &&
        newLog == LogRequest(log, logOpens, now, "200 OK: " + m + " " + p)
    ensures var m, p := RequestMethod(received), RequestPath(received);
      Allowed(m) && Read(fs, rootFolder + p).Some? ==>
        var content := Read(fs, rootFolder + p).value;
        var reply := Message(200, "OK", [Header("Content-Length", NatToString(|content|)), Header("Content-Type", MimeType(p))],
                             if m == "HEAD" then "" else content);
        ParseResponse(sent) == Some(reply) && ContentLength(reply) == Some(|content|)
  {
    var request := CString(received);
    var words := Words(request);
    var methodName, path, version := Field(words, 0), Field(words, 1), Field(words, 2);
    if path == "/" {
      path := "/index.html";
    }
    var fullPath := rootFolder + path;
    if methodName != "GET" && methodName != "HEAD" && methodName != "POST" {
      sent := "HTTP/1.1 400 Bad Request\r\n\r\n";
      newLog := LogRequest(log, logOpens, now, "400 Bad Request: " + methodName + " " + path);
      return;
    }
    var file := Read(fs, fullPath);
    if file.None? {
      sent := "HTTP/1.1 404 Not Found\r\n\r\nPage Not Found";
      newLog := LogRequest(log, logOpens, now, "404 Not Found: " + methodName + " " + path);
      return;
    }
    var fileData := file.value;
    SuccessHeadSpelled(|fileData|, MimeType(path));
    var response := "HTTP/1.1 200 OK\r\n";
    response := response + ("Content-Length: " + NatToString(|fileData|) + "\r\n");
    response := response + ("Content-Type: " + MimeType(path) + "\r\n");
    response := response + "\r\n";
    sent := response;
    var body := "";
    if methodName != "HEAD" {
      sent := sent + fileData;
      body := fileData;
    } else {
      assert sent == sent + body;
    }
    SuccessReadsBack(|fileData|, MimeType(path), body);
    newLog := LogRequest(log, logOpens, now, "200 OK: " + methodName + " " + path);
  }

  // ---------------------------------------------------------------------------
  // Reading the responses back

  lemma StatusLineOk()
    ensures StatusLine(200, "OK") == "HTTP/1.1 200 OK\r\n"
  {
    assert NatToString(200) == NatToString(20) + [DigitChar(0)];
    assert NatToString(20) == NatToString(2) + [DigitChar(0)];
  }

  /** The header block as the source spells it out. */
  lemma SuccessHeadSpelled(size: nat, mime: string)
    ensures SuccessHead(size, mime) == "HTTP/1.1 200 OK\r\n" + ("Content-Length: " + NatToString(size) + "\r\n")
                                       + ("Content-Type: " + mime + "\r\n") + "\r\n"
  {
    StatusLineOk();
  }

  lemma SuccessHeadIsSerialization(size: nat, mime: string, body: string)
    ensures SuccessHead(size, mime) + body
         == Serialize(Message(200, "OK", [Header("Content-Length", NatToString(size)), Header("Content-Type", mime)], body))
  {
    var a, b := Header("Content-Length", NatToString(size)), Header("Content-Type", mime);
    assert [a, b][1..] == [b] && [b][1..] == [];
    assert HeaderLines([b]) == HeaderLine(b);
    assert HeaderLines([a, b]) == HeaderLine(a) + HeaderLine(b);
  }

  /**
   * A successful response reads back as status 200, `Content-Length` then `Content-Type`,
   * and the body sent; `Content-Length` is the file size whether or not the body follows.
   */
  lemma SuccessReadsBack(size: nat, mime: string, body: string)
    requires Lacks(mime, '\r')
    ensures var m := Message(200, "OK", [Header("Content-Length", NatToString(size)), Header("Content-Type", mime)], body);
      ParseResponse(SuccessHead(size, mime) + body) == Some(m) && ContentLength(m) == Some(size)
  {
    var m := Message(200, "OK", [Header("Content-Length", NatToString(size)), Header("Content-Type", mime)], body);
    SuccessHeadIsSerialization(size, mime, body);
    LengthHeaderWritable(size);
    TypeHeaderWritable(mime);
    MessageWellFormed(200, "OK", m.headers, body);
    SerializeRoundTrip(m);
    LengthComesFirst(size, mime, body);
  }

  /** `Content-Length`, the first of the two headers, reads back as the size. */
  lemma LengthComesFirst(size: nat, mime: string, body: string)
    ensures ContentLength(Message(200, "OK", [Header("Content-Length", NatToString(size)), Header("Content-Type", mime)], body))
         == Some(size)
  {
    ParseNatToString(size);
  }

  /** The header block alone reads back as a message with an empty body. */
  lemma HeadReadsBack(size: nat, mime: string)
    requires Lacks(mime, '\r')
    ensures var m := Message(200, "OK", [Header("Content-Length", NatToString(size)), Header("Content-Type", mime)], "");
      ParseResponse(SuccessHead(size, mime)) == Some(m) && ContentLength(m) == Some(size)
  {
    SuccessReadsBack(size, mime, "");
    var head := SuccessHead(size, mime);
    assert head + "" == head;
  }

  /** An empty read leaves the method empty, which is refused. */
  lemma EmptyReadRefused()
    ensures !Allowed(RequestMethod(""))
  {
    assert CString("") == "";
  }

  lemma StatusLineBadRequest()
    ensures StatusLine(400, "Bad Request") == "HTTP/1.1 400 Bad Request\r\n"
  {
    assert NatToString(400) == NatToString(40) + [DigitChar(0)];
    assert NatToString(40) == NatToString(4) + [DigitChar(0)];
  }

  lemma StatusLineNotFound()
    ensures StatusLine(404, "Not Found") == "HTTP/1.1 404 Not Found\r\n"
  {
    assert NatToString(404) == NatToString(40) + [DigitChar(4)];
    assert NatToString(40) == NatToString(4) + [DigitChar(0)];
  }

  /**
   * The refusals read back as status lines without headers; the 404 page text follows the
   * blank line with no `Content-Length` announcing it.
   */
  lemma RefusalsReadBack()
    ensures ParseResponse(BadRequestResponse) == Some(Message(400, "Bad Request", [], ""))
    ensures ParseResponse(NotFoundResponse) == Some(Message(404, "Not Found", [], "Page Not Found"))
    ensures ContentLength(Message(404, "Not Found", [], "Page Not Found")) == None
  {
    var bad, missing := Message(400, "Bad Request", [], ""), Message(404, "Not Found", [], "Page Not Found");
    StatusLineBadRequest();
    StatusLineNotFound();
    assert Serialize(bad) == BadRequestResponse;
    assert Serialize(missing) == NotFoundResponse;
    assert Lacks(bad.reason, '\r') && Lacks(missing.reason, '\r');
    MessageWellFormed(400, "Bad Request", [], "");
    MessageWellFormed(404, "Not Found", [], "Page Not Found");
    SerializeRoundTrip(bad);
    SerializeRoundTrip(missing);
  }
}
